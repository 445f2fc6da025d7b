/** Read-mode gating (ReadMode.kt): a read mode accepts an image when its orientation
    matches the accepted size type and its decider agrees. The decider's own float
    arithmetic is not modelled; its answer is a function parameter. */
module ReadModes {
  import opened Geometry

  /** `ReadMode.AcceptedImageSizeType`. */
  datatype AcceptedImageSizeType = Both | OnlyHorizontal | OnlyVertical

  /** A `ReadMode.Decider`: the built-in `LongImageDecider` with its two multiples, or
      any other implementation, told apart by an identity. */
  datatype Decider =
    | LongImageDecider(sameDirectionMultiple: real, notSameDirectionMultiple: real)
    | CustomDecider(identity: nat)

  datatype ReadMode = ReadMode(acceptedImageSizeType: AcceptedImageSizeType, decider: Decider)

  /** `Decider.Default`: a `LongImageDecider` with its default multiples. */
  const DefaultDecider: Decider := LongImageDecider(2.5, 5.0)

  /** `ReadMode.Default`. */
  const Default: ReadMode := ReadMode(Both, DefaultDecider)

  /** Whether the content's orientation is one the size type accepts. */
  predicate SizeTypeMatches(t: AcceptedImageSizeType, contentSize: IntSize) {
    match t
    case OnlyHorizontal => contentSize.width > contentSize.height
    case OnlyVertical => contentSize.width < contentSize.height
    case Both => true
  }

  /** `accept(contentSize, containerSize)`. `should` stands for `Decider.should`, and
      is consulted only when the orientation matches. */
  function Accept(mode: ReadMode, contentSize: IntSize, containerSize: IntSize,
                  should: (Decider, IntSize, IntSize) -> bool): (r: bool)
    ensures mode.acceptedImageSizeType == OnlyHorizontal ==>
              (r <==> contentSize.width > contentSize.height && should(mode.decider, contentSize, containerSize))
    ensures mode.acceptedImageSizeType == OnlyVertical ==>
              (r <==> contentSize.width < contentSize.height && should(mode.decider, contentSize, containerSize))
    ensures mode.acceptedImageSizeType == Both ==>
              (r <==> should(mode.decider, contentSize, containerSize))
  {
    if SizeTypeMatches(mode.acceptedImageSizeType, contentSize) then
      should(mode.decider, contentSize, containerSize)
    else
      false
  }

  /** Square content is rejected by both one-orientation types, whatever the decider
      says, and a mismatched orientation gives the same answer for every decider. */
  lemma DeciderOnlyConsultedOnMatch(mode: ReadMode, contentSize: IntSize, containerSize: IntSize,
                                    should1: (Decider, IntSize, IntSize) -> bool,
                                    should2: (Decider, IntSize, IntSize) -> bool)
    ensures contentSize.width == contentSize.height && mode.acceptedImageSizeType != Both ==>
              !Accept(mode, contentSize, containerSize, should1)
    ensures !SizeTypeMatches(mode.acceptedImageSizeType, contentSize) ==>
              Accept(mode, contentSize, containerSize, should1) == Accept(mode, contentSize, containerSize, should2)
    ensures Accept(mode, contentSize, containerSize, should1) ==> SizeTypeMatches(mode.acceptedImageSizeType, contentSize)
  {
  }

  /** The default read mode accepts every orientation and leaves the decision to the
      default `LongImageDecider` with multiples 2.5 and 5.0. */
  lemma DefaultDefersToLongImageDecider(contentSize: IntSize, containerSize: IntSize,
                                        should: (Decider, IntSize, IntSize) -> bool)
    ensures Accept(Default, contentSize, containerSize, should)
              == should(LongImageDecider(2.5, 5.0), contentSize, containerSize)
  {
  }

  /** `LongImageDecider.equals(other)`: the same class and both multiples equal. */
  predicate LongImageDeciderEquals(d: Decider, other: Decider)
    requires d.LongImageDecider?
  {
    other.LongImageDecider?
    && d.sameDirectionMultiple == other.sameDirectionMultiple
    && d.notSameDirectionMultiple == other.notSameDirectionMultiple
  }

  /** Two `LongImageDecider`s are equal exactly when they are the same value, so the
      relation is reflexive and symmetric, and no other decider equals one. */
  lemma LongImageDeciderEqualityIsValueEquality(d: Decider, other: Decider)
    requires d.LongImageDecider?
    ensures LongImageDeciderEquals(d, other) <==> d == other
    ensures LongImageDeciderEquals(d, d)
    ensures other.LongImageDecider? ==> (LongImageDeciderEquals(d, other) <==> LongImageDeciderEquals(other, d))
    ensures other.CustomDecider? ==> !LongImageDeciderEquals(d, other)
  {
  }
}
