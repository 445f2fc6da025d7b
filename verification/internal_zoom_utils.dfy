/** Integer and rotation parts of internal/ViewZoomUtils.kt, the older view
    implementation: its own copy of `reverseRotateRect`, the in-place `rotatePoint`,
    and the `FIT_XY` branch of `computeSupportScales`. */
module InternalZoomUtils {
  import opened KotlinInt
  import opened Wrappers
  import opened Geometry
  import opened ScaleTypes
  import ViewZoomUtils

  /** `android.graphics.PointF`, with real coordinates standing for its floats. */
  datatype PointF = PointF(x: real, y: real)

  /** `reverseRotateRect(rect, rotateDegrees, drawableSize)`: the same in-place edge
      rewrite as the view/zoom copy, replayed on local copies of the four edges. */
  method ReverseRotateRect(rect: Rect, rotateDegrees: int, drawableSize: IntSize) returns (res: Result<Rect>)
    ensures res.Failure? <==> Rem(rotateDegrees, 90) != 0
    ensures res.Success? ==> res.value == ViewZoomUtils.ReverseRotated(rect, rotateDegrees, drawableSize)
  {
    if Rem(rotateDegrees, 90) != 0 {
      return Failure("rotateDegrees must be an integer multiple of 90");
    }
    var left, top, right, bottom := rect.left, rect.top, rect.right, rect.bottom;
    if rotateDegrees == 90 {
      var oldBottom := bottom;
      bottom := left;
      left := top;
      top := right;
      right := oldBottom;
      top := drawableSize.height - top;
      bottom := drawableSize.height - bottom;
    } else if rotateDegrees == 180 {
      var swap := right;
      right := left;
      left := swap;
      swap := bottom;
      bottom := top;
      top := swap;
      top := drawableSize.height - top;
      bottom := drawableSize.height - bottom;
      left := drawableSize.width - left;
      right := drawableSize.width - right;
    } else if rotateDegrees == 270 {
      var oldBottom := bottom;
      bottom := right;
      right := top;
      top := left;
      left := oldBottom;
      left := drawableSize.width - left;
      right := drawableSize.width - right;
    }
    return Success(Rect(left, top, right, bottom));
  }

  /** The point `rotatePoint` leaves behind, as the source is written: at 90 the new
      `y` is read from the already-updated `x`, and at 270 the new `y` is computed
      from the already-updated `x`, so both branches lose the old `x`. */
  function RotatedAsWritten(p: PointF, rotateDegrees: int, drawableSize: IntSize): (r: PointF)
    ensures rotateDegrees == 90 ==> r.x == r.y
    ensures rotateDegrees == 270 ==> r.x + r.y == drawableSize.width as real
    ensures rotateDegrees == 180 ==>
              r.x + p.x == drawableSize.width as real && r.y + p.y == drawableSize.height as real
    ensures rotateDegrees != 90 && rotateDegrees != 180 && rotateDegrees != 270 ==> r == p
  {
    var w := drawableSize.width as real;
    var h := drawableSize.height as real;
    if rotateDegrees == 90 then PointF(h - p.y, h - p.y)
    else if rotateDegrees == 180 then PointF(w - p.x, h - p.y)
    else if rotateDegrees == 270 then PointF(p.y, w - p.y)
    else p
  }

  /** `rotatePoint(point, rotateDegrees, drawableSize)` as written: the coordinates of
      the mutable point are overwritten in source order. */
  method RotatePoint(point: PointF, rotateDegrees: int, drawableSize: IntSize) returns (res: Result<PointF>)
    ensures res.Failure? <==> Rem(rotateDegrees, 90) != 0
    ensures res.Success? ==> res.value == RotatedAsWritten(point, rotateDegrees, drawableSize)
  {
    if Rem(rotateDegrees, 90) != 0 {
      return Failure("rotateDegrees must be an integer multiple of 90");
    }
    var x, y := point.x, point.y;
    if rotateDegrees == 90 {
      x := drawableSize.height as real - y;
      y := x;
    } else if rotateDegrees == 180 {
      x := drawableSize.width as real - x;
      y := drawableSize.height as real - y;
    } else if rotateDegrees == 270 {
      x := y;
      y := drawableSize.width as real - x;
    }
    return Success(PointF(x, y));
  }

  /** The as-written quarter turns are not rotations: two different points land on
      the same spot, and turning by 90 then 270 does not bring a point back. */
  lemma RotatePointCollapsesPoints()
    ensures RotatedAsWritten(PointF(0.0, 1.0), 90, IntSize(10, 10))
         == RotatedAsWritten(PointF(5.0, 1.0), 90, IntSize(10, 10))
    ensures RotatedAsWritten(PointF(0.0, 1.0), 270, IntSize(10, 10))
         == RotatedAsWritten(PointF(5.0, 1.0), 270, IntSize(10, 10))
    ensures RotatedAsWritten(RotatedAsWritten(PointF(0.0, 1.0), 90, IntSize(10, 10)), 270, IntSize(10, 10))
         != PointF(0.0, 1.0)
  {
  }

  /** The evidently intended quarter turns, the same mapping as `rotateInSpace` and
      `rotateInContainer`: 90 gives `(H - y, x)`, 270 gives `(y, W - x)`. */
  function RotatedIntended(p: PointF, rotateDegrees: int, drawableSize: IntSize): PointF {
    var w := drawableSize.width as real;
    var h := drawableSize.height as real;
    if rotateDegrees == 90 then PointF(h - p.y, p.x)
    else if rotateDegrees == 180 then PointF(w - p.x, h - p.y)
    else if rotateDegrees == 270 then PointF(p.y, w - p.x)
    else p
  }

  /** `rotatePoint` with the old coordinates saved before they are overwritten. */
  method RotatePointIntended(point: PointF, rotateDegrees: int, drawableSize: IntSize) returns (res: Result<PointF>)
    ensures res.Failure? <==> Rem(rotateDegrees, 90) != 0
    ensures res.Success? ==> res.value == RotatedIntended(point, rotateDegrees, drawableSize)
  {
    if Rem(rotateDegrees, 90) != 0 {
      return Failure("rotateDegrees must be an integer multiple of 90");
    }
    var oldX, oldY := point.x, point.y;
    var x, y := oldX, oldY;
    if rotateDegrees == 90 {
      x := drawableSize.height as real - oldY;
      y := oldX;
    } else if rotateDegrees == 180 {
      x := drawableSize.width as real - oldX;
      y := drawableSize.height as real - oldY;
    } else if rotateDegrees == 270 {
      x := oldY;
      y := drawableSize.width as real - oldX;
    }
    return Success(PointF(x, y));
  }

  /** The intended quarter turns are invertible: 90 then 270 (in the drawable turned a
      quarter) restores the point, a half turn twice restores it, and on integer points
      the result is the `rotateInContainer` result. */
  lemma {:induction false} IntendedRotationIsInvertible(p: PointF, first: IntSize, second: IntSize)
    ensures second.width == first.height ==>
              RotatedIntended(RotatedIntended(p, 90, first), 270, second) == p
    ensures second.height == first.width ==>
              RotatedIntended(RotatedIntended(p, 270, first), 90, second) == p
    ensures RotatedIntended(RotatedIntended(p, 180, first), 180, first) == p
  {
    var a := RotatedIntended(p, 90, first);
    assert a == PointF(first.height as real - p.y, p.x);
    var b := RotatedIntended(p, 270, first);
    assert b == PointF(p.y, first.width as real - p.x);
    var c := RotatedIntended(p, 180, first);
    assert c == PointF(first.width as real - p.x, first.height as real - p.y);
  }

  /** Intended rotation of a point with integer coordinates agrees with
      `rotateInContainer` for every angle that is a multiple of 90. */
  lemma IntendedRotationMatchesContainerRotation(p: IntOffset, rotateDegrees: int, drawableSize: IntSize)
    requires Rem(rotateDegrees, 90) == 0
    ensures ViewZoomUtils.RotateInContainer(p, drawableSize, rotateDegrees).Success?
    ensures var q := ViewZoomUtils.RotateInContainer(p, drawableSize, rotateDegrees).value;
      RotatedIntended(PointF(p.x as real, p.y as real), rotateDegrees, drawableSize)
        == PointF(q.x as real, q.y as real)
  {
  }

  /** The three support scales follow the rule at the end of `computeSupportScales`:
      `maxScale` is the larger of twice `mediumScale` and eight times `minScale`. */
  predicate FollowsSupportScaleRule(scales: seq<real>) {
    |scales| == 3
    && scales[0] <= scales[1] <= scales[2]
    && scales[2] == (if 2.0 * scales[1] >= 8.0 * scales[0] then 2.0 * scales[1] else 8.0 * scales[0])
  }

  /** `computeSupportScales`: for `FIT_XY` the scales are `[1, 4, 8]` whatever the
      sizes. The other scale types compute their scales in floating point, which this
      model does not cover; their result is passed in as `floatScales`. */
  function ComputeSupportScales(scaleType: ScaleType, drawableSize: IntSize, imageSize: IntSize,
                                viewSize: IntSize, floatScales: seq<real>): (scales: seq<real>)
    ensures scaleType == FIT_XY ==> FollowsSupportScaleRule(scales) && scales[0] == 1.0
  {
    if scaleType == FIT_XY then [1.0, 4.0, 8.0] else floatScales
  }

  /** For `FIT_XY` the sizes do not matter. */
  lemma FitXYScalesIgnoreSizes(d1: IntSize, i1: IntSize, v1: IntSize, d2: IntSize, i2: IntSize, v2: IntSize,
                               f1: seq<real>, f2: seq<real>)
    ensures ComputeSupportScales(FIT_XY, d1, i1, v1, f1) == ComputeSupportScales(FIT_XY, d2, i2, v2, f2)
    ensures ComputeSupportScales(FIT_XY, d1, i1, v1, f1) == [1.0, 4.0, 8.0]
  {
  }
}
