/** Conversion of a view scale type into the platform-neutral content scale and
    alignment (ViewConvertUtils.kt). */
module ViewConvertUtils {
  import opened ScaleTypes
  import Wrappers

  /** The `ContentScaleCompat` values a scale type can map to. */
  datatype ContentScale = None | FillBounds | Fit | Crop | Inside

  /** The `AlignmentCompat` values a scale type can map to. */
  datatype Alignment = TopStart | Center | BottomEnd

  /** `ScaleType.toContentScale()`. */
  function ToContentScale(t: ScaleType): (c: ContentScale)
    ensures c == Fit <==> t == FIT_START || t == FIT_CENTER || t == FIT_END
    ensures c == None <==> t == MATRIX || t == CENTER
    ensures c == FillBounds <==> t == FIT_XY
    ensures c == Crop <==> t == CENTER_CROP
    ensures c == Inside <==> t == CENTER_INSIDE
  {
    match t
    case MATRIX => None
    case FIT_XY => FillBounds
    case FIT_START => Fit
    case FIT_CENTER => Fit
    case FIT_END => Fit
    case CENTER => None
    case CENTER_CROP => Crop
    case CENTER_INSIDE => Inside
  }

  /** `ScaleType.toAlignment()`. */
  function ToAlignment(t: ScaleType): (a: Alignment)
    ensures a == Center <==> t == FIT_CENTER || t == CENTER || t == CENTER_CROP || t == CENTER_INSIDE
    ensures a == TopStart <==> t == MATRIX || t == FIT_XY || t == FIT_START
    ensures a == BottomEnd <==> t == FIT_END
  {
    match t
    case MATRIX => TopStart
    case FIT_XY => TopStart
    case FIT_START => TopStart
    case FIT_CENTER => Center
    case FIT_END => BottomEnd
    case CENTER => Center
    case CENTER_CROP => Center
    case CENTER_INSIDE => Center
  }

  /** The scale type a (content scale, alignment) pair came from, if any. */
  function ScaleTypeOf(c: ContentScale, a: Alignment): (t: Wrappers.Option<ScaleType>)
    ensures t.Some? ==> ToContentScale(t.value) == c && ToAlignment(t.value) == a
  {
    match (c, a)
    case (None, TopStart) => Wrappers.Some(MATRIX)
    case (None, Center) => Wrappers.Some(CENTER)
    case (FillBounds, TopStart) => Wrappers.Some(FIT_XY)
    case (Fit, TopStart) => Wrappers.Some(FIT_START)
    case (Fit, Center) => Wrappers.Some(FIT_CENTER)
    case (Fit, BottomEnd) => Wrappers.Some(FIT_END)
    case (Crop, Center) => Wrappers.Some(CENTER_CROP)
    case (Inside, Center) => Wrappers.Some(CENTER_INSIDE)
    case _ => Wrappers.None
  }

  /** Both conversions are total, and together they lose nothing: the pair of
      results identifies the scale type. */
  lemma {:induction false} ConversionIsInjective(t: ScaleType)
    ensures ScaleTypeOf(ToContentScale(t), ToAlignment(t)) == Wrappers.Some(t)
  {
    match t
    case MATRIX =>
    case FIT_XY =>
    case FIT_START =>
    case FIT_CENTER =>
    case FIT_END =>
    case CENTER =>
    case CENTER_CROP =>
    case CENTER_INSIDE =>
  }
}
