/** Operations of `IntOffsetCompat` (IntOffsetCompat.kt), including the quarter-turn
    rotation of a point inside a space and its reverse. */
module IntOffsets {
  import opened KotlinInt
  import opened Wrappers
  import opened Geometry
  import IntSizes

  function Plus(a: IntOffset, b: IntOffset): IntOffset {
    IntOffset(a.x + b.x, a.y + b.y)
  }

  function Minus(a: IntOffset, b: IntOffset): IntOffset {
    IntOffset(a.x - b.x, a.y - b.y)
  }

  function Negate(a: IntOffset): IntOffset {
    IntOffset(-a.x, -a.y)
  }

  /** `minus` undoes `plus`, `plus` undoes `minus`, and negation is an involution
      that turns `a - b` into `a + (-b)`. */
  lemma OffsetArithmeticInverses(a: IntOffset, b: IntOffset)
    ensures Minus(Plus(a, b), b) == a
    ensures Plus(Minus(a, b), b) == a
    ensures Negate(Negate(a)) == a
    ensures Minus(a, b) == Plus(a, Negate(b))
    ensures Plus(a, Negate(a)) == ZeroOffset
  {
  }

  /** `offset % n`: the Kotlin remainder of each coordinate, which keeps the sign of
      the coordinate (so `(-7, 7) % 4 == (-3, 3)`, not Dafny's `(1, 3)`). A zero
      divisor throws `ArithmeticException`. */
  function RemBy(a: IntOffset, n: int): (r: Result<IntOffset>)
    ensures r.Failure? <==> n == 0
    ensures r.Failure? ==> r.error == DivideByZeroMessage
    ensures r.Success? ==> Abs(r.value.x) < Abs(n) && Abs(r.value.y) < Abs(n)
    ensures r.Success? ==> r.value.x == 0 || (r.value.x > 0 <==> a.x > 0)
    ensures r.Success? ==> r.value.y == 0 || (r.value.y > 0 <==> a.y > 0)
    ensures r.Success? ==> exists q :: a.x == q * n + r.value.x
    ensures r.Success? ==> exists q :: a.y == q * n + r.value.y
  {
    if n == 0 then Failure(DivideByZeroMessage)
    else Success(IntOffset(Rem(a.x, n), Rem(a.y, n)))
  }

  /** The sign of the remainder follows the dividend. */
  lemma RemKeepsDividendSign()
    ensures RemBy(IntOffset(-7, 7), 4) == Success(IntOffset(-3, 3))
  {
  }

  /** `copy(x = ..., y = ...)`: an absent argument keeps the current value. */
  function Copy(a: IntOffset, x: Option<int>, y: Option<int>): (r: IntOffset)
    ensures x.Some? ==> r.x == x.value
    ensures y.Some? ==> r.y == y.value
    ensures x.None? ==> r.x == a.x
    ensures y.None? ==> r.y == a.y
  {
    IntOffset(if x.Some? then x.value else a.x, if y.Some? then y.value else a.y)
  }

  /** `toIntSize()`: `x` becomes the width and `y` the height. */
  function ToIntSize(a: IntOffset): (s: IntSize)
    ensures IntSizes.ToIntOffset(s) == a
  {
    IntSize(a.x, a.y)
  }

  /** `copy()` with defaults is the identity, and `toIntSize` then `toIntOffset` is too. */
  lemma CopyAndConversionRoundTrip(a: IntOffset, s: IntSize)
    ensures Copy(a, None, None) == a
    ensures IntSizes.ToIntOffset(ToIntSize(a)) == a
    ensures ToIntSize(IntSizes.ToIntOffset(s)) == s
  {
  }

  /** The point lies in the closed area `[0, width] x [0, height]` of `space`. */
  predicate InSpace(p: IntOffset, space: IntSize) {
    0 <= p.x <= space.width && 0 <= p.y <= space.height
  }

  /** The message of the `require` in `rotateInSpace`, naming the rejected angle. */
  function RotationMessage(rotation: int): string {
    "rotation must be a multiple of 90, rotation: " + IntToString(rotation)
  }

  /** The message tells the rejected angles apart. */
  lemma RotationMessageNamesAngle(a: int, b: int)
    requires RotationMessage(a) == RotationMessage(b)
    ensures a == b
  {
    var prefix := "rotation must be a multiple of 90, rotation: ";
    assert RotationMessage(a)[|prefix|..] == IntToString(a);
    assert RotationMessage(b)[|prefix|..] == IntToString(b);
    IntToStringInjective(a, b);
  }

  /** `rotateInSpace(spaceSize, rotation)`: rotates the point clockwise by
      `rotation % 360` inside a space of the given size; a `rotation` that is not a
      multiple of 90 fails the `require`. A remainder outside 90/180/270, which
      includes every negative rotation, leaves the point where it is. */
  function RotateInSpace(p: IntOffset, space: IntSize, rotation: int): (r: Result<IntOffset>)
    ensures r.Failure? <==> Rem(rotation, 90) != 0
    ensures r.Failure? ==> r.error == RotationMessage(rotation)
    ensures r.Success? && rotation >= 0 && InSpace(p, space) ==>
              InSpace(r.value, IntSizes.Rotate(space, rotation))
  {
    if Rem(rotation, 90) != 0 then
      Failure(RotationMessage(rotation))
    else
      QuarterTurns(rotation);
      var turn := Rem(rotation, 360);
      Success(
        if turn == 90 then IntOffset(space.height - p.y, p.x)
        else if turn == 180 then IntOffset(space.width - p.x, space.height - p.y)
        else if turn == 270 then IntOffset(p.y, space.width - p.x)
        else p)
  }

  /** The case table of `rotateInSpace`, including the unchanged point for negative
      rotations such as -90. */
  lemma RotateInSpaceCases(p: IntOffset, space: IntSize, rotation: int)
    requires Rem(rotation, 90) == 0
    ensures Rem(rotation, 360) == 90 ==>
              RotateInSpace(p, space, rotation) == Success(IntOffset(space.height - p.y, p.x))
    ensures Rem(rotation, 360) == 180 ==>
              RotateInSpace(p, space, rotation) == Success(IntOffset(space.width - p.x, space.height - p.y))
    ensures Rem(rotation, 360) == 270 ==>
              RotateInSpace(p, space, rotation) == Success(IntOffset(p.y, space.width - p.x))
    ensures rotation < 0 ==> RotateInSpace(p, space, rotation) == Success(p)
  {
  }

  /** `reverseRotateInSpace(spaceSize, rotation)`: rotates a point given in the rotated
      space back by `360 - rotation % 360` degrees. A failure comes from `rotateInSpace`
      and so reports the reverse angle. */
  function ReverseRotateInSpace(p: IntOffset, space: IntSize, rotation: int): (r: Result<IntOffset>)
    ensures r.Failure? <==> Rem(rotation, 90) != 0
    ensures r.Failure? ==>
              r.error == RotationMessage(360 - Rem(rotation, 360))
  {
    ReverseTurnMultiple(rotation);
    var rotatedSpace := IntSizes.Rotate(space, rotation);
    var reverseRotation := 360 - Rem(rotation, 360);
    RotateInSpace(p, rotatedSpace, reverseRotation)
  }

  /** For a non-negative multiple of 90, reverse rotation undoes rotation. */
  lemma {:induction false} ReverseRotateUndoesRotate(p: IntOffset, space: IntSize, rotation: int)
    requires rotation >= 0 && Rem(rotation, 90) == 0
    ensures RotateInSpace(p, space, rotation).Success?
    ensures ReverseRotateInSpace(RotateInSpace(p, space, rotation).value, space, rotation) == Success(p)
  {
    ReverseQuarterTurn(rotation);
    ReverseRotateUndoesTurn(p, space, rotation, Rem(rotation, 360));
  }

  /** `ReverseRotateUndoesRotate` for one remainder `turn` of the rotation. */
  lemma ReverseRotateUndoesTurn(p: IntOffset, space: IntSize, rotation: int, turn: int)
    requires Rem(rotation, 90) == 0 && turn == Rem(rotation, 360)
    requires turn == 0 || turn == 90 || turn == 180 || turn == 270
    requires Rem(360 - turn, 90) == 0
    requires turn == 0 ==> Rem(360 - turn, 360) == 0
    requires turn == 90 ==> Rem(360 - turn, 360) == 270
    requires turn == 180 ==> Rem(360 - turn, 360) == 180
    requires turn == 270 ==> Rem(360 - turn, 360) == 90
    requires Rem(rotation, 180) == 0 <==> turn == 0 || turn == 180
    ensures RotateInSpace(p, space, rotation).Success?
    ensures ReverseRotateInSpace(RotateInSpace(p, space, rotation).value, space, rotation) == Success(p)
  {
    var q := RotateInSpace(p, space, rotation).value;
    var rotated := IntSizes.Rotate(space, rotation);
    RotateInSpaceCases(p, space, rotation);
    RotateInSpaceCases(q, rotated, 360 - turn);
  }

  /** Rotating by 180 degrees twice in the same space restores the point. */
  lemma {:induction false} HalfTurnTwiceIsIdentity(p: IntOffset, space: IntSize)
    ensures RotateInSpace(p, space, 180).Success?
    ensures RotateInSpace(RotateInSpace(p, space, 180).value, space, 180) == Success(p)
  {
    RemOfNonNegative(180, 90);
    RemOfNonNegative(180, 360);
  }
}
