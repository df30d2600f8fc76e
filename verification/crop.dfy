/** The bounds arithmetic of `cropArea` in utils.go: the square of the given
    radius around a centre, clamped below at 0 and above at the image's
    `Bounds().Max`. */
module Crop {
  import opened Arith

  /** The half-open rectangle [x0, x1) × [y0, y1). */
  datatype Window = Window(x0: int, y0: int, x1: int, y1: int)

  /** Coordinate v lies in the half-open span [lo, hi). */
  predicate InSpan(lo: int, hi: int, v: int) {
    lo <= v < hi
  }

  /** `cropArea(img, centerX, centerY, radius)` for an image whose bounds end
      at (maxX, maxY). The window never starts before 0 nor ends after the
      bounds, and it is never wider or taller than 2·radius + 1. */
  function CropWindow(maxX: int, maxY: int, cx: int, cy: int, radius: int): (w: Window)
    ensures w.x0 >= 0 && w.y0 >= 0
    ensures w.x1 <= maxX && w.y1 <= maxY
    ensures w.x1 - w.x0 <= 2 * radius + 1 && w.y1 - w.y0 <= 2 * radius + 1
  {
    Window(Max(0, cx - radius), Max(0, cy - radius), Min(maxX, cx + radius + 1), Min(maxY, cy + radius + 1))
  }

  /** A column (row) is inside the window exactly when it is inside the
      image's span from 0 and within `radius` of the centre. */
  lemma CropWindowExact(maxX: int, maxY: int, cx: int, cy: int, radius: int, x: int, y: int)
    ensures var w := CropWindow(maxX, maxY, cx, cy, radius);
      && (InSpan(w.x0, w.x1, x) <==> InSpan(0, maxX, x) && cx - radius <= x <= cx + radius)
      && (InSpan(w.y0, w.y1, y) <==> InSpan(0, maxY, y) && cy - radius <= y <= cy + radius)
  {
  }

  /** With the centre inside the image and a non-negative radius, the window
      contains the centre, so it is not empty. */
  lemma CropWindowHoldsCentre(maxX: int, maxY: int, cx: int, cy: int, radius: int)
    requires InSpan(0, maxX, cx) && InSpan(0, maxY, cy) && radius >= 0
    ensures var w := CropWindow(maxX, maxY, cx, cy, radius);
      InSpan(w.x0, w.x1, cx) && InSpan(w.y0, w.y1, cy)
  {
    CropWindowExact(maxX, maxY, cx, cy, radius, cx, cy);
  }
}
