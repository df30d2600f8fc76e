/** The exact part of `computeNCCFast` in utils.go: the unsigned dot product
    of needle and haystack channels at an offset, the haystack window's sum
    and squared sum from the integral image, and the guard that forces the
    score of a flat window to 0. The square root and the final division are
    floating point and are left to the caller: a scored offset is returned
    as the numerator of the quotient and the radicand under the root. */
module Ncc {
  import opened Pixels
  import opened Integral
  import opened Arith

  /** Go's uint64 accumulator wraps modulo 2^64. */
  const U64: nat := 0x1_0000_0000_0000_0000

  /** The largest product sum one pixel can contribute: 3 · 255 · 255. */
  const MaxPixelDot: nat := 195075

  /** The guard of `computeNCCFast` compares the root with 1e-6; for a
      non-negative radicand this is the radicand compared with 1e-12. */
  const FlatBound: real := 0.000000000001

  /** The needle placed at (ox, oy) lies inside the haystack. */
  predicate Placed(hay: Image, needle: Image, ox: int, oy: int) {
    && Valid(hay) && Valid(needle)
    && 0 <= ox && ox + needle.w <= hay.w
    && 0 <= oy && oy + needle.h <= hay.h
  }

  function ChannelDot(p: Pixel, q: Pixel): int {
    p.r * q.r + p.g * q.g + p.b * q.b
  }

  /** Products of the first n needle pixels of a row with the haystack
      pixels from column ox on. */
  function RowDot(hrow: seq<Pixel>, nrow: seq<Pixel>, ox: int, n: int): int
    requires 0 <= n <= |nrow| && 0 <= ox && ox + n <= |hrow|
    decreases n
  {
    if n == 0 then 0 else RowDot(hrow, nrow, ox, n - 1) + ChannelDot(hrow[ox + n - 1], nrow[n - 1])
  }

  /** The reference dot product over the first n needle rows. */
  function Dot(hay: Image, needle: Image, ox: int, oy: int, n: int): int
    requires Placed(hay, needle, ox, oy) && 0 <= n <= needle.h
    decreases n
  {
    if n == 0 then 0
    else Dot(hay, needle, ox, oy, n - 1) + RowDot(hay.rows[oy + n - 1], needle.rows[n - 1], ox, needle.w)
  }

  function Window(hay: Image, needle: Image, ox: int, oy: int): int
    requires Placed(hay, needle, ox, oy)
  {
    Dot(hay, needle, ox, oy, needle.h)
  }

  /** Adding to a wrapped accumulator wraps the exact sum. */
  lemma Accumulate(dot: int, a: int, p: int)
    requires dot == a % U64
    ensures (dot + p) % U64 == (a + p) % U64
  {
    var q := a / U64;
    assert a == q * U64 + dot;
    assert a + p == (dot + p) + q * U64;
  }

  /** The loop of `computeNCCFast`: accumulates the products of the three
      colour channels of every needle pixel with the haystack pixel under it
      in a uint64. The accumulator equals the reference sum modulo 2^64, and
      the sum itself whenever the needle is small enough not to wrap. */
  method DotProduct(hay: Image, needle: Image, ox: int, oy: int) returns (dot: nat)
    requires Placed(hay, needle, ox, oy)
    ensures dot == Window(hay, needle, ox, oy) % U64
    ensures needle.w * needle.h * MaxPixelDot < U64 ==> dot == Window(hay, needle, ox, oy)
  {
    dot := 0;
    var y := 0;
    while y < needle.h
      invariant 0 <= y <= needle.h
      invariant dot == Dot(hay, needle, ox, oy, y) % U64
    {
      var hrow, nrow := hay.rows[oy + y], needle.rows[y];
      assert |hrow| == hay.w && |nrow| == needle.w;
      ghost var done := Dot(hay, needle, ox, oy, y);
      dot := RowProduct(hrow, nrow, ox, dot, done);
      assert Dot(hay, needle, ox, oy, y + 1) == done + RowDot(hrow, nrow, ox, |nrow|);
      y := y + 1;
    }
    SmallWindow(hay, needle, ox, oy);
  }

  /** A needle too small to wrap the accumulator leaves the exact sum. */
  lemma SmallWindow(hay: Image, needle: Image, ox: int, oy: int)
    requires Placed(hay, needle, ox, oy)
    ensures needle.w * needle.h * MaxPixelDot < U64 ==> Window(hay, needle, ox, oy) % U64 == Window(hay, needle, ox, oy)
  {
    WindowBound(hay, needle, ox, oy, needle.h);
    if needle.w * needle.h * MaxPixelDot < U64 {
      SmallModulo(Window(hay, needle, ox, oy));
    }
  }

  /** The inner loop of `computeNCCFast` over one needle row: starting from
      an accumulator that wraps `base`, it adds that row's channel products
      and ends wrapping `base` plus the row's exact sum. */
  method RowProduct(hrow: seq<Pixel>, nrow: seq<Pixel>, ox: int, start: nat, ghost base: int) returns (dot: nat)
    requires 0 <= ox && ox + |nrow| <= |hrow|
    requires start == base % U64
    ensures dot == (base + RowDot(hrow, nrow, ox, |nrow|)) % U64
  {
    dot := start;
    var x := 0;
    while x < |nrow|
      invariant 0 <= x <= |nrow|
      invariant dot == (base + RowDot(hrow, nrow, ox, x)) % U64
    {
      RowStep(hrow, nrow, ox, x, base, dot);
      dot := (dot + ChannelDot(hrow[ox + x], nrow[x])) % U64;
      x := x + 1;
    }
  }

  /** One pixel of the row loop keeps the accumulator wrapping the exact sum. */
  lemma RowStep(hrow: seq<Pixel>, nrow: seq<Pixel>, ox: int, x: int, base: int, dot: int)
    requires 0 <= x < |nrow| && 0 <= ox && ox + |nrow| <= |hrow|
    requires dot == (base + RowDot(hrow, nrow, ox, x)) % U64
    ensures (dot + ChannelDot(hrow[ox + x], nrow[x])) % U64 == (base + RowDot(hrow, nrow, ox, x + 1)) % U64
  {
    var a, p := base + RowDot(hrow, nrow, ox, x), ChannelDot(hrow[ox + x], nrow[x]);
    assert base + RowDot(hrow, nrow, ox, x + 1) == a + p;
    Accumulate(dot, a, p);
  }

  lemma SmallModulo(a: int)
    requires 0 <= a < U64
    ensures a % U64 == a
  {
  }

  /** Each needle row contributes at most MaxPixelDot per pixel. */
  lemma {:induction false} RowDotBound(hrow: seq<Pixel>, nrow: seq<Pixel>, ox: int, n: int)
    requires 0 <= n <= |nrow| && 0 <= ox && ox + n <= |hrow|
    ensures 0 <= RowDot(hrow, nrow, ox, n) <= n * MaxPixelDot
    decreases n
  {
    if n > 0 {
      RowDotBound(hrow, nrow, ox, n - 1);
      var p, q := hrow[ox + n - 1], nrow[n - 1];
      ByteProduct(p.r, q.r);
      ByteProduct(p.g, q.g);
      ByteProduct(p.b, q.b);
    }
  }

  lemma ByteProduct(a: Byte, b: Byte)
    ensures 0 <= a * b <= 255 * 255
  {
    MulLe(a, 0, b);
    MulLe(a, b, 255);
    MulLe(255, a, 255);
  }

  /** The unwrapped sum over n rows is at most w · n · MaxPixelDot. */
  lemma {:induction false} WindowBound(hay: Image, needle: Image, ox: int, oy: int, n: int)
    requires Placed(hay, needle, ox, oy) && 0 <= n <= needle.h
    ensures 0 <= Dot(hay, needle, ox, oy, n) <= needle.w * n * MaxPixelDot
    decreases n
  {
    if n > 0 {
      WindowBound(hay, needle, ox, oy, n - 1);
      RowDotBound(hay.rows[oy + n - 1], needle.rows[n - 1], ox, needle.w);
      AddRow(needle.w, n - 1, MaxPixelDot);
      assert n - 1 + 1 == n;
    }
  }

  /** The quantity under `math.Sqrt`: ssh − cnt·mh·mh with mh = sh / cnt. */
  function Radicand(sh: int, ssh: int, cnt: int): real
    requires cnt > 0
  {
    var mh := sh as real / cnt as real;
    ssh as real - cnt as real * mh * mh
  }

  /** The outcome of `computeNCCFast` before its floating-point tail.
      Undefined: an empty needle, for which Go divides 0 by 0 and yields NaN.
      Flat: the haystack window's deviation is below 1e-6 and the score is 0.
      Scored: the score is numerator / (sqrt(variance) · dn). */
  datatype Ncc = Undefined | Flat | Scored(numerator: real, variance: real)

  /** The radicand of the haystack window at (ox, oy), from brute-force sums. */
  function WindowVariance(hay: Image, ox: int, oy: int, w: int, h: int): real
    requires InFrame(hay, ox, oy, ox + w, oy + h) && w * h > 0
  {
    Radicand(RectSum(hay, ox, oy, ox + w, oy + h, Plain), RectSum(hay, ox, oy, ox + w, oy + h, Squared), ChannelCount(w, h))
  }

  /** `cnt`: the number of channel values under a w × h needle. */
  function ChannelCount(w: int, h: int): int {
    w * h * 3
  }

  /** The tail of `computeNCCFast` from the dot product `dot`, the window's
      sum `sh` and squared sum `ssh` and the channel count `cnt`. With no
      channels Go's 0/0 makes the result NaN; a radicand below 1e-12 makes
      the root fall below 1e-6 and the score 0. */
  function NccTail(dot: int, sh: int, ssh: int, cnt: int, mn: real): (r: Ncc)
    requires cnt >= 0
    ensures r == Undefined <==> cnt == 0
    ensures r == Flat <==> cnt > 0 && Radicand(sh, ssh, cnt) < FlatBound
    ensures r.Scored? ==> r.variance == Radicand(sh, ssh, cnt) >= FlatBound
  {
    if cnt == 0 then Undefined
    else
      var mh := sh as real / cnt as real;
      var v := Radicand(sh, ssh, cnt);
      if v < FlatBound then Flat else Scored(dot as real - cnt as real * mh * mn, v)
  }

  /** `computeNCCFast(ox, oy)` up to the root and the division: the tail
      applied to the wrapped dot product and to the integral image's window
      statistics equals the tail applied to the brute-force sums. So an empty
      needle is Undefined, and a window is Flat exactly when the radicand of
      its pixels is below 1e-12. */
  method ComputeNccFast(hay: Image, ii: IntegralImage, needle: Image, ox: int, oy: int, mn: real)
    returns (r: Ncc)
    requires Placed(hay, needle, ox, oy) && IntegralOf(ii, hay)
    ensures r == NccTail(Window(hay, needle, ox, oy) % U64, RectSum(hay, ox, oy, ox + needle.w, oy + needle.h, Plain),
                         RectSum(hay, ox, oy, ox + needle.w, oy + needle.h, Squared), ChannelCount(needle.w, needle.h), mn)
    ensures r == Undefined <==> needle.w * needle.h == 0
    ensures r == Flat <==> needle.w * needle.h > 0 && WindowVariance(hay, ox, oy, needle.w, needle.h) < FlatBound
  {
    var w, h := needle.w, needle.h;
    var dot := DotProduct(hay, needle, ox, oy);
    var (sh, ssh) := GetAreaStats(ii, ox, oy, w, h);
    r := NccTail(dot, sh, ssh, ChannelCount(w, h), mn);
  }

  /** n values summing to s with squares summing to q satisfy n·q ≥ s²
      (Cauchy–Schwarz against the all-ones vector). */
  predicate Spread(n: int, s: int, q: int) {
    n >= 0 && q >= 0 && n * q >= s * s
  }

  /** Two spreads pooled together are a spread. */
  lemma Pool(n1: int, s1: int, q1: int, n2: int, s2: int, q2: int)
    requires Spread(n1, s1, q1) && Spread(n2, s2, q2)
    ensures Spread(n1 + n2, s1 + s2, q1 + q2)
  {
    var cross := n1 * q2 + n2 * q1;
    if n1 == 0 || n2 == 0 {
      if n1 == 0 { EmptySpread(n1, s1, q1); }
      if n2 == 0 { EmptySpread(n2, s2, q2); }
      MulLe(n1, 0, q2);
      MulLe(n2, 0, q1);
    } else {
      CrossTerm(n1, s1, q1, n2, s2, q2);
    }
    assert cross >= 2 * (s1 * s2);
    Distribute(n1, n2, q1, q2);
    Distribute(s1, s2, s1, s2);
  }

  lemma EmptySpread(n: int, s: int, q: int)
    requires Spread(n, s, q) && n == 0
    ensures s == 0
  {
    assert s * s <= 0;
  }

  lemma Distribute(a: int, b: int, c: int, d: int)
    ensures (a + b) * (c + d) == a * c + b * d + (a * d + b * c)
  {
  }

  /** The mixed term of two pooled spreads: n1·q2 + n2·q1 ≥ 2·s1·s2. */
  lemma CrossTerm(n1: int, s1: int, q1: int, n2: int, s2: int, q2: int)
    requires Spread(n1, s1, q1) && Spread(n2, s2, q2) && n1 > 0 && n2 > 0
    ensures n1 * q2 + n2 * q1 >= 2 * (s1 * s2)
  {
    var a := n1 * n2;
    MulLe(n1 * n1, s2 * s2, n2 * q2);
    MulLe(n2 * n2, s1 * s1, n1 * q1);
    Regroup(n1, n2, q1, q2);
    SquareExpansion(n1 * s2, n2 * s1);
    Rearrange(n1, n2, s1, s2);
    assert a * (n1 * q2 + n2 * q1) >= a * (2 * (s1 * s2));
    assert a > 0;
    Cancel(a, n1 * q2 + n2 * q1, 2 * (s1 * s2));
  }

  lemma Regroup(n1: int, n2: int, q1: int, q2: int)
    ensures (n1 * n2) * (n1 * q2 + n2 * q1) == n1 * n1 * (n2 * q2) + n2 * n2 * (n1 * q1)
  {
  }

  lemma Rearrange(n1: int, n2: int, s1: int, s2: int)
    ensures (n1 * s2) * (n1 * s2) == n1 * n1 * (s2 * s2)
    ensures (n2 * s1) * (n2 * s1) == n2 * n2 * (s1 * s1)
    ensures 2 * ((n1 * s2) * (n2 * s1)) == (n1 * n2) * (2 * (s1 * s2))
  {
  }

  lemma SquareExpansion(u: int, v: int)
    ensures u * u + v * v >= 2 * (u * v)
  {
    assert (u - v) * (u - v) >= 0;
  }

  lemma Cancel(a: int, x: int, y: int)
    requires a > 0 && a * x >= a * y
    ensures x >= y
  {
    if x < y {
      MulLe(a, x + 1, y);
    }
  }

  /** The three channels of one pixel form a spread. */
  lemma PixelSpread(p: Pixel)
    ensures Spread(3, Weight(p, Plain), Weight(p, Squared))
  {
    Pool(1, p.r, p.r * p.r, 1, p.g, p.g * p.g);
    Pool(2, p.r + p.g, p.r * p.r + p.g * p.g, 1, p.b, p.b * p.b);
  }

  lemma {:induction false} SegSpread(row: seq<Pixel>, x0: int, x1: int)
    requires 0 <= x0 <= x1 <= |row|
    ensures Spread(3 * (x1 - x0), SegSum(row, x0, x1, Plain), SegSum(row, x0, x1, Squared))
    decreases x1 - x0
  {
    if x1 > x0 {
      SegSpread(row, x0, x1 - 1);
      PixelSpread(row[x1 - 1]);
      Pool(3 * (x1 - 1 - x0), SegSum(row, x0, x1 - 1, Plain), SegSum(row, x0, x1 - 1, Squared),
           3, Weight(row[x1 - 1], Plain), Weight(row[x1 - 1], Squared));
    }
  }

  /** The channel values of a rectangle form a spread of 3 · w · h values. */
  lemma {:induction false} RectSpread(img: Image, x0: int, y0: int, x1: int, y1: int)
    requires InFrame(img, x0, y0, x1, y1)
    ensures Spread(3 * (x1 - x0) * (y1 - y0), RectSum(img, x0, y0, x1, y1, Plain), RectSum(img, x0, y0, x1, y1, Squared))
    decreases y1 - y0
  {
    if y1 > y0 {
      RectSpread(img, x0, y0, x1, y1 - 1);
      SegSpread(img.rows[y1 - 1], x0, x1);
      AddRow(3 * (x1 - x0), y1 - 1 - y0, 1);
      Pool(3 * (x1 - x0) * (y1 - 1 - y0), RectSum(img, x0, y0, x1, y1 - 1, Plain), RectSum(img, x0, y0, x1, y1 - 1, Squared),
           3 * (x1 - x0), SegSum(img.rows[y1 - 1], x0, x1, Plain), SegSum(img.rows[y1 - 1], x0, x1, Squared));
    }
  }

  /** In exact arithmetic the radicand is never negative, so the square root
      of `computeNCCFast` never sees a negative argument. */
  lemma VarianceNonNegative(hay: Image, ox: int, oy: int, w: int, h: int)
    requires InFrame(hay, ox, oy, ox + w, oy + h) && w * h > 0
    ensures WindowVariance(hay, ox, oy, w, h) >= 0.0
  {
    var sh, ssh := RectSum(hay, ox, oy, ox + w, oy + h, Plain), RectSum(hay, ox, oy, ox + w, oy + h, Squared);
    RectSpread(hay, ox, oy, ox + w, oy + h);
    assert 3 * (ox + w - ox) * (oy + h - oy) == ChannelCount(w, h);
    SpreadRadicand(sh, ssh, ChannelCount(w, h));
  }

  lemma SpreadRadicand(sh: int, ssh: int, cnt: int)
    requires cnt > 0 && Spread(cnt, sh, ssh)
    ensures Radicand(sh, ssh, cnt) >= 0.0
  {
    var c, s, q := cnt as real, sh as real, ssh as real;
    var mh := s / c;
    assert c * mh == s;
    assert c * mh * mh == s * mh;
    assert c * (q - s * mh) == c * q - s * s;
    assert (c * q - s * s) >= 0.0;
  }

  /** The radicand of n copies of a pixel whose channels sum to a and whose
      squared channels sum to b. */
  lemma UniformRadicand(n: int, a: int, b: int)
    requires n > 0
    ensures Radicand(n * a, n * b, n * 3) == n as real * (b as real - a as real * a as real / 3.0)
  {
    var mh := (n * a) as real / (n * 3) as real;
    assert (n * 3) as real == n as real * 3.0;
    assert (n * a) as real == n as real * a as real;
    assert mh == a as real / 3.0;
  }

  /** The sums of a uniform window, in terms of its area. */
  lemma UniformWindow(hay: Image, ox: int, oy: int, w: int, h: int, px: Pixel)
    requires InFrame(hay, ox, oy, ox + w, oy + h) && w * h > 0
    requires Uniform(hay, ox, oy, ox + w, oy + h, px)
    ensures WindowVariance(hay, ox, oy, w, h)
      == Radicand((w * h) * Weight(px, Plain), (w * h) * Weight(px, Squared), (w * h) * 3)
  {
    UniformRectSum(hay, ox, oy, ox + w, oy + h, px, Plain);
    UniformRectSum(hay, ox, oy, ox + w, oy + h, px, Squared);
    assert (ox + w - ox) * (oy + h - oy) == w * h;
  }

  /** A window whose pixels are all the same grey (c, c, c) is Flat. */
  lemma GreyWindowIsFlat(hay: Image, ox: int, oy: int, w: int, h: int, c: Byte)
    requires InFrame(hay, ox, oy, ox + w, oy + h) && w * h > 0
    requires Uniform(hay, ox, oy, ox + w, oy + h, Pixel(c, c, c))
    ensures WindowVariance(hay, ox, oy, w, h) == 0.0
  {
    UniformWindow(hay, ox, oy, w, h, Pixel(c, c, c));
    UniformRadicand(w * h, 3 * c, 3 * (c * c));
    assert (3 * c) as real * (3 * c) as real / 3.0 == (3 * (c * c)) as real;
  }

  /** A window of one saturated colour, pure blue, is not Flat: the guard
      measures the spread of all channel values, not of whole pixels. */
  lemma BlueWindowIsNotFlat(hay: Image, ox: int, oy: int, w: int, h: int)
    requires InFrame(hay, ox, oy, ox + w, oy + h) && w * h > 0
    requires Uniform(hay, ox, oy, ox + w, oy + h, Pixel(0, 0, 255))
    ensures WindowVariance(hay, ox, oy, w, h) == 43350.0 * (w * h) as real
  {
    UniformWindow(hay, ox, oy, w, h, Pixel(0, 0, 255));
    UniformRadicand(w * h, 255, 65025);
  }
}
