/** Kotlin `Int` arithmetic on unbounded integers.
    Kotlin's `/` truncates toward zero and its `%` takes the sign of the dividend,
    unlike Dafny's Euclidean `/` and `%`. Overflow of 32-bit values is not modelled. */
module KotlinInt {

  function Abs(a: int): nat {
    if a < 0 then -a else a
  }

  function Min(a: int, b: int): int {
    if a <= b then a else b
  }

  function Max(a: int, b: int): int {
    if a >= b then a else b
  }

  /** The message of the `ArithmeticException` a zero divisor throws in Kotlin `Int`
      `/` and `%`. */
  const DivideByZeroMessage: string := "/ by zero"

  /** Kotlin `a / b`: the quotient rounded toward zero. */
  function Div(a: int, b: int): (q: int)
    requires b != 0
    ensures Abs(a - q * b) < Abs(b)
    ensures a - q * b == 0 || (a - q * b > 0 <==> a > 0)
  {
    TruncatedQuotient(a, b);
    if (a >= 0) == (b > 0) then Abs(a) / Abs(b) else -(Abs(a) / Abs(b))
  }

  lemma NonNegativeDivision(a: int, b: int)
    requires a >= 0 && b > 0
    ensures 0 <= a - (a / b) * b < b
    ensures a / b >= 0
  {
  }

  lemma TruncatedQuotient(a: int, b: int)
    requires b != 0
    ensures var q := if (a >= 0) == (b > 0) then Abs(a) / Abs(b) else -(Abs(a) / Abs(b));
      Abs(a - q * b) < Abs(b) && (a - q * b == 0 || (a - q * b > 0 <==> a > 0))
  {
    var q0 := Abs(a) / Abs(b);
    NonNegativeDivision(Abs(a), Abs(b));
    var m := Abs(a) - q0 * Abs(b);
    if a >= 0 && b > 0 {
    } else if a >= 0 {
      assert q0 * Abs(b) == (-q0) * b;
    } else if b > 0 {
      assert a - (-q0) * b == -m;
    } else {
      assert q0 * Abs(b) == -(q0 * b);
      assert a - q0 * b == -m;
    }
  }

  /** Kotlin `a % b`: the remainder of truncating division, with the sign of `a`. */
  function Rem(a: int, b: int): (r: int)
    requires b != 0
    ensures Abs(r) < Abs(b)
    ensures r == 0 || (r > 0 <==> a > 0)
    ensures exists q :: a == q * b + r
  {
    var q := Div(a, b);
    assert a == q * b + (a - q * b);
    a - q * b
  }

  /** On a non-negative dividend and divisor Kotlin's `%` agrees with Dafny's. */
  lemma RemOfNonNegative(a: int, b: int)
    requires a >= 0 && b > 0
    ensures Rem(a, b) == a % b
  {
  }

  /** A non-negative multiple of 90 is a whole number of quarter turns: its
      remainder modulo 360 is one of four values, and it is a multiple of 180
      exactly for the even ones. */
  lemma QuarterTurns(rotation: int)
    requires Rem(rotation, 90) == 0
    ensures rotation >= 0 ==> var turn := Rem(rotation, 360);
      turn == 0 || turn == 90 || turn == 180 || turn == 270
    ensures rotation >= 0 ==>
      (Rem(rotation, 180) == 0 <==> Rem(rotation, 360) == 0 || Rem(rotation, 360) == 180)
  {
    if rotation >= 0 {
      QuarterTurnsOfNonNegative(rotation);
    }
  }

  lemma QuarterTurnsOfNonNegative(rotation: int)
    requires rotation >= 0 && Rem(rotation, 90) == 0
    ensures var turn := Rem(rotation, 360);
      turn == 0 || turn == 90 || turn == 180 || turn == 270
    ensures Rem(rotation, 180) == 0 <==> Rem(rotation, 360) == 0 || Rem(rotation, 360) == 180
  {
    RemOfNonNegative(rotation, 90);
    RemOfNonNegative(rotation, 180);
    RemOfNonNegative(rotation, 360);
    ModuloQuarterTurns(rotation);
  }

  lemma ModuloQuarterTurns(r: int)
    requires r >= 0 && r % 90 == 0
    ensures r % 360 == 0 || r % 360 == 90 || r % 360 == 180 || r % 360 == 270
    ensures r % 180 == 0 <==> (r % 360 == 0 || r % 360 == 180)
  {
    var k := r / 90;
    var q := k / 4;
    var m := k % 4;
    assert r == 360 * q + 90 * m && 0 <= m < 4;
    ModOfDecomposition(r, 360, q, 90 * m);
    if m < 2 {
      ModOfDecomposition(r, 180, 2 * q, 90 * m);
    } else {
      ModOfDecomposition(r, 180, 2 * q + 1, 90 * m - 180);
    }
  }

  /** `a % d` is the remainder of any decomposition `a == d * q + m` with `0 <= m < d`. */
  lemma ModOfDecomposition(a: int, d: int, q: int, m: int)
    requires d > 0 && 0 <= m < d && a == d * q + m
    ensures a % d == m
  {
    var q0, m0 := a / d, a % d;
    assert (q0 - q) * d == m - m0 by {
      assert (q0 - q) * d == q0 * d - q * d;
    }
    if q0 != q {
      MulAtLeast(q0 - q, d);
    }
  }

  lemma RemBy90ZeroIff(x: int)
    ensures Rem(x, 90) == 0 <==> x % 90 == 0
  {
  }

  /** `360 - rotation % 360` is a multiple of 90 exactly when `rotation` is. */
  lemma ReverseTurnMultiple(rotation: int)
    ensures Rem(360 - Rem(rotation, 360), 90) == 0 <==> Rem(rotation, 90) == 0
  {
    RemBy90ZeroIff(rotation);
    RemBy90ZeroIff(360 - Rem(rotation, 360));
    var q := Div(rotation, 360);
    var x := 360 - Rem(rotation, 360);
    assert x == 360 * (q + 1) - rotation;
    var a, b := rotation / 90, rotation % 90;
    assert rotation == 90 * a + b;
    if b == 0 {
      ModOfDecomposition(x, 90, 4 * (q + 1) - a, 0);
    } else {
      ModOfDecomposition(x, 90, 4 * (q + 1) - a - 1, 90 - b);
    }
  }

  /** For a non-negative multiple of 90, the turn `360 - rotation % 360` that undoes
      it: a quarter turn is undone by three, a half turn by a half turn, and no turn by
      a full one. */
  lemma ReverseQuarterTurn(rotation: int)
    requires rotation >= 0 && Rem(rotation, 90) == 0
    ensures var turn := Rem(rotation, 360);
      var back := Rem(360 - turn, 360);
      Rem(360 - turn, 90) == 0
      && (turn == 0 || turn == 90 || turn == 180 || turn == 270)
      && (turn == 0 ==> back == 0) && (turn == 90 ==> back == 270)
      && (turn == 180 ==> back == 180) && (turn == 270 ==> back == 90)
      && (Rem(rotation, 180) == 0 <==> turn == 0 || turn == 180)
  {
    QuarterTurnsOfNonNegative(rotation);
    var turn := Rem(rotation, 360);
    if turn == 0 {
      RemOfNonNegative(360, 360);
      RemOfNonNegative(360, 90);
    } else if turn == 90 {
      RemOfNonNegative(270, 360);
      RemOfNonNegative(270, 90);
    } else if turn == 180 {
      RemOfNonNegative(180, 360);
      RemOfNonNegative(180, 90);
    } else {
      RemOfNonNegative(90, 360);
      RemOfNonNegative(90, 90);
    }
  }

  // ---------------------------------------------------------------------------
  // `Int.toString()`, as string templates such as `"rotation: $rotation"` use it

  predicate IsDigit(c: char) {
    '0' <= c <= '9'
  }

  function DigitChar(d: int): (c: char)
    requires 0 <= d < 10
    ensures IsDigit(c) && c as int - '0' as int == d
  {
    ('0' as int + d) as char
  }

  /** The decimal digits of a natural number, most significant first, without
      leading zeros. */
  function NatToString(n: nat): (s: string)
    ensures |s| >= 1 && forall i :: 0 <= i < |s| ==> IsDigit(s[i])
    ensures |s| > 1 ==> s[0] != '0'
  {
    if n < 10 then [DigitChar(n)] else NatToString(n / 10) + [DigitChar(n % 10)]
  }

  /** The number a string of decimal digits denotes. */
  function DigitsValue(s: string): nat
    requires forall i :: 0 <= i < |s| ==> IsDigit(s[i])
  {
    if |s| == 0 then 0
    else
      assert IsDigit(s[|s| - 1]);
      DigitsValue(s[..|s| - 1]) * 10 + (s[|s| - 1] as int - '0' as int)
  }

  /** Kotlin `n.toString()`: a minus sign before the digits of a negative number. */
  function IntToString(n: int): (s: string)
    ensures |s| >= 1
    ensures n < 0 <==> s[0] == '-'
  {
    if n < 0 then "-" + NatToString(-n) else NatToString(n)
  }

  /** Reading the digits back gives the number: `NatToString` loses nothing. */
  lemma {:induction false} NatToStringRoundTrip(n: nat)
    ensures DigitsValue(NatToString(n)) == n
  {
    if n >= 10 {
      var s := NatToString(n);
      assert s[..|s| - 1] == NatToString(n / 10);
      NatToStringRoundTrip(n / 10);
    }
  }

  /** `toString` is injective: different numbers print differently. */
  lemma IntToStringInjective(a: int, b: int)
    requires IntToString(a) == IntToString(b)
    ensures a == b
  {
    var s := IntToString(a);
    if a < 0 {
      assert b < 0;
      assert ("-" + NatToString(-a))[1..] == NatToString(-a);
      assert ("-" + NatToString(-b))[1..] == NatToString(-b);
      assert NatToString(-a) == s[1..] == NatToString(-b);
      NatToStringRoundTrip(-a);
      NatToStringRoundTrip(-b);
    } else {
      assert b >= 0;
      NatToStringRoundTrip(a);
      NatToStringRoundTrip(b);
    }
  }

  /** `ceil(a / b.toFloat()).toInt()` for a non-negative numerator, computed exactly. */
  function CeilDiv(a: int, b: int): (c: int)
    requires a >= 0 && b > 0
    ensures c >= 0
    ensures a > 0 ==> c >= 1
    ensures c * b >= a
    ensures a > 0 ==> (c - 1) * b < a
  {
    (a + b - 1) / b
  }

  /** Two to the power `k`. */
  function Pow2(k: nat): (p: int)
    ensures p >= 1
  {
    if k == 0 then 1 else 2 * Pow2(k - 1)
  }

  ghost predicate IsPowerOfTwo(n: int) {
    exists k: nat :: Pow2(k) == n
  }

  // Nonlinear facts the solver does not find on its own.

  lemma MulPositive(x: int, n: int)
    requires x >= 1 && n >= 1
    ensures x * n >= n
  {
  }

  lemma MulNegate(x: int, n: int)
    ensures (-x) * n == -(x * n)
    ensures x * (-n) == -(x * n)
  {
  }

  lemma MulAtLeast(x: int, n: int)
    requires x != 0 && n != 0
    ensures Abs(x * n) >= Abs(n)
  {
    MulPositive(Abs(x), Abs(n));
    MulNegate(x, n);
    MulNegate(-x, n);
    MulNegate(x, -n);
    MulNegate(-x, -n);
    assert Abs(x * n) == Abs(x) * Abs(n);
  }

  /** Kotlin's `(w * n) / n` gives `w` back. */
  lemma DivOfMultiple(w: int, n: int)
    requires n != 0
    ensures Div(w * n, n) == w
  {
    QuotientUnique(w, n, Div(w * n, n));
  }

  lemma QuotientUnique(w: int, n: int, q: int)
    requires n != 0
    requires Abs(w * n - q * n) < Abs(n)
    ensures q == w
  {
    if q != w {
      assert w * n - q * n == (w - q) * n;
      MulAtLeast(w - q, n);
    }
  }
}
