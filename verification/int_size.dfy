/** Operations of `IntSizeCompat` (IntSizeCompat.kt). */
module IntSizes {
  import opened KotlinInt
  import opened Wrappers
  import opened Geometry

  /** `component1()`: destructuring yields the width first. */
  function Component1(s: IntSize): int {
    s.width
  }

  /** `component2()`: destructuring yields the height second. */
  function Component2(s: IntSize): int {
    s.height
  }

  /** `isEmpty()`: a size is empty when either side is not positive. */
  predicate IsEmpty(s: IntSize)
    ensures IsEmpty(s) <==> !IsNotEmpty(s)
  {
    s.width <= 0 || s.height <= 0
  }

  /** `isNotEmpty()`: both sides are positive. */
  predicate IsNotEmpty(s: IntSize)
    ensures IsNotEmpty(s) ==> s.width >= 1 && s.height >= 1
  {
    s.width > 0 && s.height > 0
  }

  /** `size * n`: both sides are scaled by `n`. */
  function Times(s: IntSize, n: int): (r: IntSize)
    ensures n == 1 ==> r == s
    ensures n == 0 ==> IsEmpty(r)
  {
    IntSize(s.width * n, s.height * n)
  }

  /** `size / n`: both sides are divided by `n`, truncating toward zero. A zero
      divisor throws `ArithmeticException`. */
  function DivBy(s: IntSize, n: int): (r: Result<IntSize>)
    ensures r.Failure? <==> n == 0
    ensures r.Failure? ==> r.error == DivideByZeroMessage
    ensures r.Success? ==> Abs(s.width - r.value.width * n) < Abs(n)
    ensures r.Success? ==> Abs(s.height - r.value.height * n) < Abs(n)
    ensures r.Success? ==>
              s.width - r.value.width * n == 0 || (s.width - r.value.width * n > 0 <==> s.width > 0)
    ensures r.Success? ==>
              s.height - r.value.height * n == 0 || (s.height - r.value.height * n > 0 <==> s.height > 0)
  {
    if n == 0 then Failure(DivideByZeroMessage)
    else Success(IntSize(Div(s.width, n), Div(s.height, n)))
  }

  /** `Int.times(size)`: the integer on the left scales each side. */
  function IntTimes(n: int, s: IntSize): (r: IntSize)
    ensures r.width == n * s.width && r.height == n * s.height
  {
    Times(s, n)
  }

  /** `n * size == size * n`, and dividing by the same non-zero `n` restores the size. */
  lemma {:induction false} TimesThenDivRoundTrip(s: IntSize, n: int)
    requires n != 0
    ensures IntTimes(n, s) == Times(s, n)
    ensures DivBy(Times(s, n), n) == Success(s)
  {
    DivOfMultiple(s.width, n);
    DivOfMultiple(s.height, n);
  }

  /** `center`: half of each side, truncated toward zero. */
  function Center(s: IntSize): (c: IntOffset)
    ensures Abs(s.width - 2 * c.x) <= 1 && Abs(2 * c.x) <= Abs(s.width)
    ensures Abs(s.height - 2 * c.y) <= 1 && Abs(2 * c.y) <= Abs(s.height)
    ensures s.width >= 0 ==> c.x >= 0
    ensures s.height >= 0 ==> c.y >= 0
  {
    IntOffset(Div(s.width, 2), Div(s.height, 2))
  }

  /** `copy(width = ..., height = ...)`: an absent argument keeps the current value. */
  function Copy(s: IntSize, width: Option<int>, height: Option<int>): (r: IntSize)
    ensures width.Some? ==> r.width == width.value
    ensures height.Some? ==> r.height == height.value
    ensures width.None? ==> r.width == s.width
    ensures height.None? ==> r.height == s.height
  {
    IntSize(
      if width.Some? then width.value else s.width,
      if height.Some? then height.value else s.height)
  }

  /** `copy()` with both defaults and `copy(component1(), component2())` are the identity. */
  lemma CopyDefaultsIsIdentity(s: IntSize)
    ensures Copy(s, None, None) == s
    ensures Copy(s, Some(Component1(s)), Some(Component2(s))) == s
  {
  }

  /** `toIntOffset()`: width becomes `x`, height becomes `y`. */
  function ToIntOffset(s: IntSize): (p: IntOffset)
    ensures p.x == Component1(s) && p.y == Component2(s)
  {
    IntOffset(s.width, s.height)
  }

  /** `rotate(rotation)`: width and height swap exactly when `rotation % 180 != 0`. */
  function Rotate(s: IntSize, rotation: int): (r: IntSize)
    ensures Rem(rotation, 180) == 0 ==> r == s
    ensures Rem(rotation, 180) != 0 ==> r.width == s.height && r.height == s.width
    ensures IsEmpty(r) <==> IsEmpty(s)
  {
    if Rem(rotation, 180) == 0 then s else IntSize(s.height, s.width)
  }

  /** Rotating twice by the same angle gives the original size back. */
  lemma {:induction false} RotateTwiceIsIdentity(s: IntSize, rotation: int)
    ensures Rotate(Rotate(s, rotation), rotation) == s
  {
    if Rem(rotation, 180) != 0 {
      assert Rotate(s, rotation) == IntSize(s.height, s.width);
    }
  }

  /** `Zero` has no area. */
  lemma ZeroIsEmpty()
    ensures IsEmpty(ZeroSize) && !IsNotEmpty(ZeroSize)
  {
  }
}
