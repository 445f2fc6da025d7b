/** Integer parts of view/zoom/internal/ViewZoomUtils.kt: undoing a quarter-turn on a
    rectangle, rotating a point inside a container, and the scale-type mappings. */
module ViewZoomUtils {
  import opened KotlinInt
  import opened Wrappers
  import opened Geometry
  import opened ScaleTypes
  import IntOffsets
  import ViewConvertUtils

  /** The rectangle `reverseRotateRect` produces, written edge by edge: at 90 the
      rect `(l, t, r, b)` becomes `(t, H - r, b, H - l)`, at 180 it becomes
      `(W - r, H - b, W - l, H - t)`, at 270 it becomes `(W - b, l, W - t, r)`, and
      any other angle leaves it alone (`W`, `H` are the drawable's width and height). */
  function ReverseRotated(rect: Rect, rotateDegrees: int, drawableSize: IntSize): (r: Rect)
    ensures rect.WellFormed() ==> r.WellFormed()
    ensures rotateDegrees == 90 || rotateDegrees == 270 ==>
              r.Width() == rect.Height() && r.Height() == rect.Width()
    ensures rotateDegrees != 90 && rotateDegrees != 270 ==>
              r.Width() == rect.Width() && r.Height() == rect.Height()
  {
    var w := drawableSize.width;
    var h := drawableSize.height;
    if rotateDegrees == 90 then Rect(rect.top, h - rect.right, rect.bottom, h - rect.left)
    else if rotateDegrees == 180 then Rect(w - rect.right, h - rect.bottom, w - rect.left, h - rect.top)
    else if rotateDegrees == 270 then Rect(w - rect.bottom, rect.left, w - rect.top, rect.right)
    else rect
  }

  /** `reverseRotateRect(rect, rotateDegrees, drawableSize)`: the source rewrites the
      four edges of a mutable rect in place, one assignment at a time; the method
      replays those assignments on local copies of the edges. A rotation that is not
      a multiple of 90 fails the `require`. */
  method ReverseRotateRect(rect: Rect, rotateDegrees: int, drawableSize: IntSize) returns (res: Result<Rect>)
    ensures res.Failure? <==> Rem(rotateDegrees, 90) != 0
    ensures res.Success? ==> res.value == ReverseRotated(rect, rotateDegrees, drawableSize)
  {
    if Rem(rotateDegrees, 90) != 0 {
      return Failure("rotateDegrees must be an integer multiple of 90");
    }
    var left, top, right, bottom := rect.left, rect.top, rect.right, rect.bottom;
    if rotateDegrees == 90 {
      var oldBottom := bottom;
      bottom := left;
      left := top;
      top := right;
      right := oldBottom;
      top := drawableSize.height - top;
      bottom := drawableSize.height - bottom;
    } else if rotateDegrees == 180 {
      var swap := right;
      right := left;
      left := swap;
      swap := bottom;
      bottom := top;
      top := swap;
      top := drawableSize.height - top;
      bottom := drawableSize.height - bottom;
      left := drawableSize.width - left;
      right := drawableSize.width - right;
    } else if rotateDegrees == 270 {
      var oldBottom := bottom;
      bottom := right;
      right := top;
      top := left;
      left := oldBottom;
      left := drawableSize.width - left;
      right := drawableSize.width - right;
    }
    return Success(Rect(left, top, right, bottom));
  }

  /** Undoing a half turn twice in the same drawable restores the rect. */
  lemma {:induction false} HalfTurnTwiceRestoresRect(rect: Rect, drawableSize: IntSize)
    ensures ReverseRotated(ReverseRotated(rect, 180, drawableSize), 180, drawableSize) == rect
  {
    var once := ReverseRotated(rect, 180, drawableSize);
    assert once == Rect(drawableSize.width - rect.right, drawableSize.height - rect.bottom,
                        drawableSize.width - rect.left, drawableSize.height - rect.top);
  }

  /** The 90 and 270 cases undo each other when the second drawable is the first one
      turned a quarter (its width is the first one's height, or the other way round). */
  lemma {:induction false} QuarterTurnsUndoEachOther(rect: Rect, first: IntSize, second: IntSize)
    ensures second.width == first.height ==>
              ReverseRotated(ReverseRotated(rect, 90, first), 270, second) == rect
    ensures second.height == first.width ==>
              ReverseRotated(ReverseRotated(rect, 270, first), 90, second) == rect
  {
    var a := ReverseRotated(rect, 90, first);
    assert a == Rect(rect.top, first.height - rect.right, rect.bottom, first.height - rect.left);
    var b := ReverseRotated(rect, 270, first);
    assert b == Rect(first.width - rect.bottom, rect.left, first.width - rect.top, rect.right);
  }

  /** Every multiple of 90 other than 90, 180 and 270 (0, 360, -90, 450, ...) leaves
      the rect unchanged. */
  lemma OtherMultiplesLeaveRect(rect: Rect, rotateDegrees: int, drawableSize: IntSize)
    requires rotateDegrees != 90 && rotateDegrees != 180 && rotateDegrees != 270
    ensures ReverseRotated(rect, rotateDegrees, drawableSize) == rect
  {
  }

  /** `IntOffsetCompat.rotateInContainer(containerSize, rotate)`: unlike
      `rotateInSpace`, it matches the literal angle, not the angle modulo 360. */
  function RotateInContainer(p: IntOffset, containerSize: IntSize, rotate: int): (r: Result<IntOffset>)
    ensures r.Failure? <==> Rem(rotate, 90) != 0
    ensures r.Success? && rotate != 90 && rotate != 180 && rotate != 270 ==> r.value == p
  {
    if Rem(rotate, 90) != 0 then Failure("rotate must be an integer multiple of 90")
    else if rotate == 90 then Success(IntOffset(containerSize.height - p.y, p.x))
    else if rotate == 180 then Success(IntOffset(containerSize.width - p.x, containerSize.height - p.y))
    else if rotate == 270 then Success(IntOffset(p.y, containerSize.width - p.x))
    else Success(p)
  }

  /** Within one turn `rotateInContainer` agrees with `rotateInSpace`; at 450 it does
      not: it keeps the point while `rotateInSpace` turns it by 90. */
  lemma {:induction false} RotateInContainerMatchesRotateInSpace(p: IntOffset, containerSize: IntSize, rotate: int)
    requires 0 <= rotate < 360
    ensures RotateInContainer(p, containerSize, rotate).Success? <==>
              IntOffsets.RotateInSpace(p, containerSize, rotate).Success?
    ensures RotateInContainer(p, containerSize, rotate).Success? ==>
              RotateInContainer(p, containerSize, rotate).value ==
              IntOffsets.RotateInSpace(p, containerSize, rotate).value
    ensures RotateInContainer(IntOffset(0, 0), IntSize(10, 20), 450) == Success(IntOffset(0, 0))
    ensures IntOffsets.RotateInSpace(IntOffset(0, 0), IntSize(10, 20), 450) == Success(IntOffset(20, 0))
  {
    RemOfNonNegative(rotate, 360);
    assert Rem(rotate, 360) == rotate;
    RemOfNonNegative(450, 90);
    RemOfNonNegative(450, 360);
  }

  /** The `ScaleMode` a scale type selects for the zoom engine. */
  datatype ScaleMode = NONE | CROP | INSIDE | FIT | FILL_BOUNDS

  /** `ScaleType.toScaleMode()`. */
  function ToScaleMode(t: ScaleType): (m: ScaleMode)
    ensures m == NONE <==> t == CENTER || t == MATRIX
    ensures m == CROP <==> t == CENTER_CROP
    ensures m == INSIDE <==> t == CENTER_INSIDE
    ensures m == FIT <==> t == FIT_START || t == FIT_CENTER || t == FIT_END
    ensures m == FILL_BOUNDS <==> t == FIT_XY
  {
    match t
    case CENTER => NONE
    case CENTER_CROP => CROP
    case CENTER_INSIDE => INSIDE
    case FIT_START => FIT
    case FIT_CENTER => FIT
    case FIT_END => FIT
    case FIT_XY => FILL_BOUNDS
    case MATRIX => NONE
  }

  /** The scale mode that corresponds to each content scale. */
  function ScaleModeOfContentScale(c: ViewConvertUtils.ContentScale): ScaleMode {
    match c
    case None => NONE
    case FillBounds => FILL_BOUNDS
    case Fit => FIT
    case Crop => CROP
    case Inside => INSIDE
  }

  /** `ScaleType.supportReadMode()`: every scale type except `FIT_XY`. */
  predicate SupportReadMode(t: ScaleType)
    ensures SupportReadMode(t) <==> ToScaleMode(t) != FILL_BOUNDS
  {
    t != FIT_XY
  }

  /** `toScaleMode` and `toContentScale` classify the scale types the same way, and
      read mode is supported exactly where the content is not stretched to the bounds. */
  lemma {:induction false} ScaleModeAgreesWithContentScale(t: ScaleType)
    ensures ToScaleMode(t) == ScaleModeOfContentScale(ViewConvertUtils.ToContentScale(t))
    ensures SupportReadMode(t) <==> ViewConvertUtils.ToContentScale(t) != ViewConvertUtils.FillBounds
  {
    match t
    case CENTER =>
    case CENTER_CROP =>
    case CENTER_INSIDE =>
    case FIT_START =>
    case FIT_CENTER =>
    case FIT_END =>
    case FIT_XY =>
    case MATRIX =>
  }
}
