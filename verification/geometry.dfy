/** The integer value types shared by the tiling and rotation code:
    `IntSizeCompat`, `IntOffsetCompat` and the `left/top/right/bottom` rectangle
    (`android.graphics.Rect`, `IntRectCompat`). The packed-`Long` representation of
    the Kotlin value classes is replaced by plain pairs of integers. */
module Geometry {

  datatype IntSize = IntSize(width: int, height: int)

  datatype IntOffset = IntOffset(x: int, y: int)

  datatype Rect = Rect(left: int, top: int, right: int, bottom: int) {

    function Width(): int {
      right - left
    }

    function Height(): int {
      bottom - top
    }

    /** Edges in order: `left <= right` and `top <= bottom`. */
    predicate WellFormed() {
      left <= right && top <= bottom
    }

    /** The pixel `(x, y)` lies in the half-open area `[left, right) x [top, bottom)`. */
    predicate Contains(x: int, y: int) {
      left <= x < right && top <= y < bottom
    }
  }

  const ZeroSize: IntSize := IntSize(0, 0)

  const ZeroOffset: IntOffset := IntOffset(0, 0)

  const ZeroRect: Rect := Rect(0, 0, 0, 0)
}
