/** The integral image of utils.go: prefix sums of the channel sum and of the
    squared channels over a (W+1) × (H+1) grid stored flat, row by row, and
    the constant-time rectangle query built on it. Go keeps the sums in
    float64; every partial sum of bytes is an integer far below 2^53, so they
    are exact integers here. */
module Integral {
  import opened Pixels

  datatype IntegralImage = IntegralImage(sum: seq<int>, sumSq: seq<int>, w: nat, h: nat)

  /** Flat position of grid cell (x, y) with row stride w + 1. */
  function Idx(w: nat, x: int, y: int): int {
    y * (w + 1) + x
  }

  /** Every grid cell, the corners of any query included, is a valid position. */
  lemma IdxInGrid(w: nat, h: nat, x: int, y: int)
    requires 0 <= x <= w && 0 <= y <= h
    ensures 0 <= Idx(w, x, y) < (w + 1) * (h + 1)
  {
    IdxBelowRows(w, x, y, h + 1);
  }

  /** Cells of the first n rows come before position n * (w + 1). */
  lemma IdxBelowRows(w: nat, x: int, y: int, n: nat)
    requires 0 <= x <= w && 0 <= y < n
    ensures 0 <= Idx(w, x, y) < n * (w + 1)
  {
    assert y * (w + 1) >= 0;
    assert (y + 1) * (w + 1) == y * (w + 1) + (w + 1);
    assert (y + 1) * (w + 1) <= n * (w + 1);
  }

  /** Cell (x, y) of a flat grid of h + 1 rows. */
  function At(t: seq<int>, w: nat, h: nat, x: int, y: int): int
    requires |t| == (w + 1) * (h + 1) && 0 <= x <= w && 0 <= y <= h
  {
    IdxInGrid(w, h, x, y);
    t[Idx(w, x, y)]
  }

  function Table(ii: IntegralImage, k: Stat): seq<int> {
    match k
    case Plain => ii.sum
    case Squared => ii.sumSq
  }

  predicate WellSized(ii: IntegralImage) {
    |ii.sum| == (ii.w + 1) * (ii.h + 1) && |ii.sumSq| == (ii.w + 1) * (ii.h + 1)
  }

  /** Cell (x, y) of each table holds the sum over [0, x) × [0, y) of `img`. */
  predicate IntegralOf(ii: IntegralImage, img: Image) {
    && Valid(img)
    && ii.w == img.w && ii.h == img.h
    && WellSized(ii)
    && forall k: Stat, x: int, y: int :: 0 <= x <= ii.w && 0 <= y <= ii.h ==>
         At(Table(ii, k), ii.w, ii.h, x, y) == Prefix(img, x, y, k)
  }

  /** Rows 0..n of both tables hold the prefix sums of `img`. */
  predicate RowsHold(img: Image, sum: seq<int>, sumSq: seq<int>, n: nat)
    requires Valid(img) && n <= img.h
  {
    && |sum| == (img.w + 1) * (n + 1) && |sumSq| == (img.w + 1) * (n + 1)
    && forall x, j :: 0 <= x <= img.w && 0 <= j <= n ==>
         At(sum, img.w, n, x, j) == Prefix(img, x, j, Plain) && At(sumSq, img.w, n, x, j) == Prefix(img, x, j, Squared)
  }

  /** `NewIntegralImage`: one pass over the rows, each appending the row of
      prefix sums below the previous one. Row 0 and column 0 are zero. */
  method NewIntegralImage(img: Image) returns (ii: IntegralImage)
    requires Valid(img)
    ensures IntegralOf(ii, img)
    ensures forall k: Stat, x :: 0 <= x <= img.w ==> At(Table(ii, k), img.w, img.h, x, 0) == 0
    ensures forall k: Stat, y :: 0 <= y <= img.h ==> At(Table(ii, k), img.w, img.h, 0, y) == 0
  {
    var w := img.w;
    var sum: seq<int> := seq(w + 1, _ => 0);
    var sumSq: seq<int> := seq(w + 1, _ => 0);
    FirstRow(img, sum, sumSq);
    var y := 0;
    while y < img.h
      invariant 0 <= y <= img.h
      invariant RowsHold(img, sum, sumSq, y)
    {
      var next, nextSq := PrefixRow(img, sum, sumSq, y);
      AppendRow(img, sum, sumSq, next, nextSq, y);
      sum := sum + next;
      sumSq := sumSq + nextSq;
      y := y + 1;
    }
    ii := IntegralImage(sum, sumSq, w, img.h);
    ZeroBorder(img, ii);
  }

  /** The zero row of the fresh tables is the prefix sum over no rows. */
  lemma FirstRow(img: Image, sum: seq<int>, sumSq: seq<int>)
    requires Valid(img)
    requires sum == seq(img.w + 1, _ => 0) && sumSq == seq(img.w + 1, _ => 0)
    ensures RowsHold(img, sum, sumSq, 0)
  {
    forall x | 0 <= x <= img.w
      ensures At(sum, img.w, 0, x, 0) == Prefix(img, x, 0, Plain) && At(sumSq, img.w, 0, x, 0) == Prefix(img, x, 0, Squared)
    {
      EmptyPrefixes(img, x, 0, Plain);
      EmptyPrefixes(img, x, 0, Squared);
    }
  }

  /** The inner loop of `NewIntegralImage` for row y: a running sum of the
      row so far, added to the cell above. Yields the prefix sums of rows
      0..y+1, column by column. */
  method PrefixRow(img: Image, sum: seq<int>, sumSq: seq<int>, y: nat) returns (next: seq<int>, nextSq: seq<int>)
    requires Valid(img) && y < img.h && RowsHold(img, sum, sumSq, y)
    ensures |next| == img.w + 1 && |nextSq| == img.w + 1
    ensures forall i :: 0 <= i <= img.w ==>
      next[i] == Prefix(img, i, y + 1, Plain) && nextSq[i] == Prefix(img, i, y + 1, Squared)
  {
    var w, row := img.w, img.rows[y];
    var rowSum, rowSumSq := 0, 0;
    next, nextSq := [0], [0];
    EmptyPrefixes(img, 0, y + 1, Plain);
    EmptyPrefixes(img, 0, y + 1, Squared);
    var x := 0;
    while x < w
      invariant 0 <= x <= w
      invariant |next| == x + 1 && |nextSq| == x + 1
      invariant rowSum == SegSum(row, 0, x, Plain) && rowSumSq == SegSum(row, 0, x, Squared)
      invariant forall i :: 0 <= i <= x ==>
        next[i] == Prefix(img, i, y + 1, Plain) && nextSq[i] == Prefix(img, i, y + 1, Squared)
    {
      rowSum := rowSum + Weight(row[x], Plain);
      rowSumSq := rowSumSq + Weight(row[x], Squared);
      next := next + [At(sum, w, y, x + 1, y) + rowSum];
      nextSq := nextSq + [At(sumSq, w, y, x + 1, y) + rowSumSq];
      x := x + 1;
    }
  }

  /** Appending the prefix sums of row y + 1 extends the tables by one row. */
  lemma AppendRow(img: Image, sum: seq<int>, sumSq: seq<int>, next: seq<int>, nextSq: seq<int>, y: nat)
    requires Valid(img) && y < img.h && RowsHold(img, sum, sumSq, y)
    requires |next| == img.w + 1 && |nextSq| == img.w + 1
    requires forall i :: 0 <= i <= img.w ==>
      next[i] == Prefix(img, i, y + 1, Plain) && nextSq[i] == Prefix(img, i, y + 1, Squared)
    ensures RowsHold(img, sum + next, sumSq + nextSq, y + 1)
  {
    var w := img.w;
    assert (w + 1) * (y + 2) == (w + 1) * (y + 1) + (w + 1);
    forall i, j | 0 <= i <= w && 0 <= j <= y + 1
      ensures At(sum + next, w, y + 1, i, j) == Prefix(img, i, j, Plain)
      ensures At(sumSq + nextSq, w, y + 1, i, j) == Prefix(img, i, j, Squared)
    {
      if j <= y {
        IdxBelowRows(w, i, j, y + 1);
        assert At(sum + next, w, y + 1, i, j) == At(sum, w, y, i, j);
        assert At(sumSq + nextSq, w, y + 1, i, j) == At(sumSq, w, y, i, j);
      } else {
        assert Idx(w, i, j) == |sum| + i;
      }
    }
  }

  /** Tables holding the prefix sums are zero along row 0 and column 0. */
  lemma ZeroBorder(img: Image, ii: IntegralImage)
    requires Valid(img) && ii.w == img.w && ii.h == img.h && RowsHold(img, ii.sum, ii.sumSq, img.h)
    ensures IntegralOf(ii, img)
    ensures forall k: Stat, x :: 0 <= x <= img.w ==> At(Table(ii, k), img.w, img.h, x, 0) == 0
    ensures forall k: Stat, y :: 0 <= y <= img.h ==> At(Table(ii, k), img.w, img.h, 0, y) == 0
  {
    forall k: Stat, x | 0 <= x <= img.w
      ensures At(Table(ii, k), img.w, img.h, x, 0) == 0
    {
      EmptyPrefixes(img, x, 0, k);
    }
    forall k: Stat, j | 0 <= j <= img.h
      ensures At(Table(ii, k), img.w, img.h, 0, j) == 0
    {
      EmptyPrefixes(img, 0, j, k);
    }
  }

  /** `GetAreaStats(x, y, w, h)`: the sum and the squared sum over the
      rectangle [x, x+w) × [y, y+h) from four table cells each. For every
      frame the tables were built from, they equal the pixel-by-pixel sums. */
  function GetAreaStats(ii: IntegralImage, x: int, y: int, w: int, h: int): (r: (int, int))
    requires WellSized(ii)
    requires 0 <= x && 0 <= w && x + w <= ii.w
    requires 0 <= y && 0 <= h && y + h <= ii.h
    ensures forall img :: IntegralOf(ii, img) ==>
      r.0 == RectSum(img, x, y, x + w, y + h, Plain) && r.1 == RectSum(img, x, y, x + w, y + h, Squared)
  {
    var x1, y1, x2, y2 := x, y, x + w, y + h;
    AreaStatsCorrect(ii, x1, y1, x2, y2);
    (Corners(ii, Plain, x1, y1, x2, y2), Corners(ii, Squared, x1, y1, x2, y2))
  }

  /** The four-cell difference of one table. */
  function Corners(ii: IntegralImage, k: Stat, x1: int, y1: int, x2: int, y2: int): int
    requires WellSized(ii) && 0 <= x1 <= x2 <= ii.w && 0 <= y1 <= y2 <= ii.h
  {
    var t := Table(ii, k);
    At(t, ii.w, ii.h, x2, y2) - At(t, ii.w, ii.h, x2, y1) - At(t, ii.w, ii.h, x1, y2) + At(t, ii.w, ii.h, x1, y1)
  }

  /** The four-cell difference equals the brute-force rectangle sum. */
  lemma AreaStatsCorrect(ii: IntegralImage, x1: int, y1: int, x2: int, y2: int)
    requires WellSized(ii) && 0 <= x1 <= x2 <= ii.w && 0 <= y1 <= y2 <= ii.h
    ensures forall img, k: Stat :: IntegralOf(ii, img) ==>
      Corners(ii, k, x1, y1, x2, y2) == RectSum(img, x1, y1, x2, y2, k)
  {
    forall img, k: Stat | IntegralOf(ii, img)
      ensures Corners(ii, k, x1, y1, x2, y2) == RectSum(img, x1, y1, x2, y2, k)
    {
      RectFromPrefixes(img, x1, y1, x2, y2, k);
    }
  }
}
