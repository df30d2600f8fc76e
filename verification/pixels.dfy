/** RGB frames and brute-force sums over their rectangles: the reference
    against which the integral image and the dot product are checked. */
module Pixels {

  type Byte = x: int | 0 <= x < 256

  /** One RGBA pixel of Go's image.RGBA; alpha is never read and is left out. */
  datatype Pixel = Pixel(r: Byte, g: Byte, b: Byte)

  /** A frame of `w` by `h` pixels, stored row by row. */
  datatype Image = Image(w: nat, h: nat, rows: seq<seq<Pixel>>)

  predicate Valid(img: Image) {
    |img.rows| == img.h && forall y :: 0 <= y < img.h ==> |img.rows[y]| == img.w
  }

  /** The two statistics the integral image keeps: the channel sum r+g+b
      and the sum of squared channels r²+g²+b². */
  datatype Stat = Plain | Squared

  function Weight(p: Pixel, k: Stat): nat {
    match k
    case Plain => p.r + p.g + p.b
    case Squared => p.r * p.r + p.g * p.g + p.b * p.b
  }

  /** Sum of the statistic over pixels [x0, x1) of one row. */
  function SegSum(row: seq<Pixel>, x0: int, x1: int, k: Stat): int
    requires 0 <= x0 <= x1 <= |row|
    decreases x1 - x0
  {
    if x1 == x0 then 0 else SegSum(row, x0, x1 - 1, k) + Weight(row[x1 - 1], k)
  }

  /** The rectangle [x0, x1) × [y0, y1) lies inside the frame. */
  predicate InFrame(img: Image, x0: int, y0: int, x1: int, y1: int) {
    Valid(img) && 0 <= x0 <= x1 <= img.w && 0 <= y0 <= y1 <= img.h
  }

  /** Sum of the statistic over the rectangle [x0, x1) × [y0, y1), pixel by pixel. */
  function RectSum(img: Image, x0: int, y0: int, x1: int, y1: int, k: Stat): int
    requires InFrame(img, x0, y0, x1, y1)
    decreases y1 - y0
  {
    if y1 == y0 then 0 else RectSum(img, x0, y0, x1, y1 - 1, k) + SegSum(img.rows[y1 - 1], x0, x1, k)
  }

  /** The sum over the rectangle whose top-left corner is the origin. */
  function Prefix(img: Image, x: int, y: int, k: Stat): int
    requires InFrame(img, 0, 0, x, y)
  {
    RectSum(img, 0, 0, x, y, k)
  }

  /** A row segment splits at any interior column. */
  lemma {:induction false} SegSplit(row: seq<Pixel>, x0: int, x1: int, k: Stat)
    requires 0 <= x0 <= x1 <= |row|
    ensures SegSum(row, x0, x1, k) == SegSum(row, 0, x1, k) - SegSum(row, 0, x0, k)
    decreases x1 - x0
  {
    if x1 > x0 {
      SegSplit(row, x0, x1 - 1, k);
    }
  }

  /** Inclusion-exclusion: any rectangle's sum is four prefix sums. */
  lemma {:induction false} RectFromPrefixes(img: Image, x0: int, y0: int, x1: int, y1: int, k: Stat)
    requires InFrame(img, x0, y0, x1, y1)
    ensures RectSum(img, x0, y0, x1, y1, k)
      == Prefix(img, x1, y1, k) - Prefix(img, x1, y0, k) - Prefix(img, x0, y1, k) + Prefix(img, x0, y0, k)
    decreases y1 - y0
  {
    if y1 > y0 {
      RectFromPrefixes(img, x0, y0, x1, y1 - 1, k);
      SegSplit(img.rows[y1 - 1], x0, x1, k);
    }
  }

  /** Empty rectangles sum to zero: the first row and column of the prefix grid. */
  lemma {:induction false} EmptyPrefixes(img: Image, x: int, y: int, k: Stat)
    requires InFrame(img, 0, 0, x, y)
    ensures Prefix(img, x, 0, k) == 0
    ensures Prefix(img, 0, y, k) == 0
    decreases y
  {
    if y > 0 {
      EmptyPrefixes(img, x, y - 1, k);
    }
  }

  /** Every pixel of the rectangle is `px`. */
  predicate Uniform(img: Image, x0: int, y0: int, x1: int, y1: int, px: Pixel)
    requires InFrame(img, x0, y0, x1, y1)
  {
    forall y, x :: y0 <= y < y1 && x0 <= x < x1 ==> img.rows[y][x] == px
  }

  lemma {:induction false} UniformSegSum(row: seq<Pixel>, x0: int, x1: int, px: Pixel, k: Stat)
    requires 0 <= x0 <= x1 <= |row|
    requires forall x :: x0 <= x < x1 ==> row[x] == px
    ensures SegSum(row, x0, x1, k) == (x1 - x0) * Weight(px, k)
    decreases x1 - x0
  {
    if x1 > x0 {
      UniformSegSum(row, x0, x1 - 1, px, k);
      var c := Weight(px, k);
      assert (x1 - x0) * c == (x1 - 1 - x0) * c + c;
    }
  }

  /** A uniform rectangle sums to its area times the pixel's statistic. */
  lemma {:induction false} UniformRectSum(img: Image, x0: int, y0: int, x1: int, y1: int, px: Pixel, k: Stat)
    requires InFrame(img, x0, y0, x1, y1) && Uniform(img, x0, y0, x1, y1, px)
    ensures RectSum(img, x0, y0, x1, y1, k) == (x1 - x0) * (y1 - y0) * Weight(px, k)
    decreases y1 - y0
  {
    if y1 > y0 {
      UniformRectSum(img, x0, y0, x1, y1 - 1, px, k);
      UniformSegSum(img.rows[y1 - 1], x0, x1, px, k);
      AddRow(x1 - x0, y1 - 1 - y0, Weight(px, k));
    }
  }

  lemma AddRow(w: int, h: int, c: int)
    ensures w * (h + 1) * c == w * h * c + w * c
  {
    assert w * (h + 1) == w * h + w;
  }
}
