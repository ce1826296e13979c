/** Python numeric primitives over exact reals: `round` (half to even), `int()`
    truncation, float `%` with a positive modulus, and clamping. */
module Numeric {

  function Min(a: real, b: real): real { if a <= b then a else b }
  function Max(a: real, b: real): real { if a >= b then a else b }
  function Abs(x: real): real { if x < 0.0 then -x else x }
  function MinInt(a: int, b: int): int { if a <= b then a else b }
  function MaxInt(a: int, b: int): int { if a >= b then a else b }
  function Min3(a: real, b: real, c: real): real { Min(Min(a, b), c) }
  function Max3(a: real, b: real, c: real): real { Max(Max(a, b), c) }

  /** `max(lo, min(hi, x))`, the clamping idiom used throughout the source. */
  function Clamp(x: real, lo: real, hi: real): (r: real)
    requires lo <= hi
    ensures lo <= r <= hi
    ensures lo <= x <= hi ==> r == x
    ensures x < lo ==> r == lo
    ensures x > hi ==> r == hi
  {
    Max(lo, Min(hi, x))
  }

  function Floor(x: real): (r: int)
    ensures r as real <= x < r as real + 1.0
  {
    x.Floor
  }

  /** Python's built-in `round` on a float: nearest integer, ties to the even one. */
  function RoundHalfEven(x: real): (r: int)
    ensures x - 0.5 <= r as real <= x + 0.5
    ensures r as real - x == 0.5 || x - r as real == 0.5 ==> r % 2 == 0
  {
    var f := Floor(x);
    var d := x - f as real;
    if d < 0.5 then f
    else if d > 0.5 then f + 1
    else if f % 2 == 0 then f
    else f + 1
  }

  lemma RoundOfInteger(n: int)
    ensures RoundHalfEven(n as real) == n
  {
  }

  /** Rounding is monotone: the model relies on it for channel bounds. */
  lemma {:induction false} RoundMonotone(x: real, y: real)
    requires x <= y
    ensures RoundHalfEven(x) <= RoundHalfEven(y)
  {
    var fx, fy := Floor(x), Floor(y);
    if fx < fy {
      assert RoundHalfEven(x) <= fx + 1 <= fy <= RoundHalfEven(y);
    } else {
      assert fx == fy;
    }
  }

  lemma RoundWithin(x: real, lo: int, hi: int)
    requires lo as real <= x <= hi as real
    ensures lo <= RoundHalfEven(x) <= hi
  {
    RoundMonotone(lo as real, x);
    RoundMonotone(x, hi as real);
    RoundOfInteger(lo);
    RoundOfInteger(hi);
  }

  /** Rounding lands on n or below when x is less than half above n. */
  lemma RoundAtMost(x: real, n: int)
    requires x < n as real + 0.5
    ensures RoundHalfEven(x) <= n
  {
  }

  /** Rounding lands on n or above when x is less than half below n. */
  lemma RoundAtLeast(x: real, n: int)
    requires x > n as real - 0.5
    ensures RoundHalfEven(x) >= n
  {
  }

  /** Python `int(x)` on a float: truncation toward zero. */
  function Trunc(x: real): (r: int)
    ensures 0.0 <= x ==> r == Floor(x)
    ensures x < 0.0 ==> x <= r as real <= 0.0
    ensures Abs(x - r as real) < 1.0
  {
    if x >= 0.0 then Floor(x) else -Floor(-x)
  }

  /** Python float `x % m` for m > 0: the result has the sign of m. */
  function FMod(x: real, m: real): (r: real)
    requires m > 0.0
    ensures 0.0 <= r < m
    ensures 0.0 <= x < m ==> r == x
  {
    LowerScaled(x, m);
    UpperScaled(x, m);
    if 0.0 <= x < m then
      FloorOfQuotient(x, m, 0);
      x - Floor(x / m) as real * m
    else
      x - Floor(x / m) as real * m
  }

  /** `floor(x / m) * m` never exceeds x ... */
  lemma LowerScaled(x: real, m: real)
    requires m > 0.0
    ensures Floor(x / m) as real * m <= x
  {
  }

  /** ... and falls short of it by less than m. */
  lemma UpperScaled(x: real, m: real)
    requires m > 0.0
    ensures x - Floor(x / m) as real * m < m
  {
    var f := x / m - Floor(x / m) as real;
    FractionBelowOne(m, f);
    assert f * m == x - Floor(x / m) as real * m;
  }

  lemma FractionBelowOne(m: real, f: real)
    requires m > 0.0 && f < 1.0
    ensures f * m < m
  {
  }

  lemma BelowOneFraction(m: real, f: real)
    requires m > 0.0 && f * m < m
    ensures f < 1.0
  {
  }

  /** An x in the k-th period of m has quotient k. */
  lemma QuotientWithin(x: real, m: real, k: int)
    requires m > 0.0 && k as real * m <= x && x - k as real * m < m
    ensures k as real <= x / m < k as real + 1.0
  {
    var f := x / m - k as real;
    assert f * m == x - k as real * m;
    BelowOneFraction(m, f);
  }

  lemma FloorOfQuotient(x: real, m: real, k: int)
    requires m > 0.0 && k as real * m <= x && x - k as real * m < m
    ensures Floor(x / m) == k
  {
    QuotientWithin(x, m, k);
  }

  /** The residue of an x known to lie in the k-th period. */
  lemma FModIn(x: real, m: real, k: int)
    requires m > 0.0
    requires k as real * m <= x && x - k as real * m < m
    ensures FMod(x, m) == x - k as real * m
  {
    FloorOfQuotient(x, m, k);
  }

  lemma FloorUnique(x: real, k: int)
    requires k as real <= x < k as real + 1.0
    ensures Floor(x) == k
  {
  }

  /** A non-negative part of a positive whole is a fraction in [0, 1]. */
  lemma RatioInUnit(a: real, b: real)
    requires 0.0 <= a <= b && 0.0 < b
    ensures 0.0 <= a / b <= 1.0
    ensures 0.0 < a ==> 0.0 < a / b
    ensures a < b ==> a / b < 1.0
  {
  }

  /** The product of two varying quantities. Products are named so that the
      facts the model needs about them are stated once, here, and every
      other proof reasons linearly over `Mul` terms. */
  function Mul(x: real, y: real): real
  {
    x * y
  }

  /** A fraction y in [0, 1] of x lies between 0 and x. */
  lemma MulFraction(x: real, y: real)
    requires 0.0 <= y <= 1.0
    ensures 0.0 <= x ==> 0.0 <= Mul(x, y) <= x
    ensures x <= 0.0 ==> x <= Mul(x, y) <= 0.0
  {
  }

  lemma MulMonotone(x: real, a: real, b: real)
    requires 0.0 <= x && a <= b
    ensures Mul(x, a) <= Mul(x, b)
  {
  }

  lemma MulOne(x: real)
    ensures Mul(x, 1.0) == x && Mul(1.0, x) == x
  {
  }

  lemma MulCommutes(x: real, y: real)
    ensures Mul(x, y) == Mul(y, x)
  {
  }

  lemma MulDistributes(x: real, y: real, z: real)
    ensures Mul(x, y + z) == Mul(x, y) + Mul(x, z)
    ensures Mul(x, y - z) == Mul(x, y) - Mul(x, z)
    ensures Mul(y - z, x) == Mul(y, x) - Mul(z, x)
  {
  }

  lemma MulAssociates(x: real, y: real, z: real)
    ensures Mul(x, Mul(y, z)) == Mul(Mul(x, y), z)
  {
  }

  lemma MulZero(x: real)
    ensures Mul(x, 0.0) == 0.0 && Mul(0.0, x) == 0.0
  {
  }

  /** Dividing a product by one factor leaves the other. */
  lemma MulQuotient(x: real, y: real)
    requires y != 0.0
    ensures Mul(x, y) / y == x
  {
  }

  /** The only solution of `d * a == x` is `x / d`. */
  lemma MulSolve(d: real, a: real, x: real)
    requires d != 0.0 && Mul(d, a) == x
    ensures a == x / d
  {
  }

  /** A factor of at least 1 does not shrink a non-negative value. */
  lemma MulGrows(t: real, y: real)
    requires 1.0 <= t && 0.0 <= y
    ensures y <= Mul(t, y)
  {
  }

  lemma QuotientOfQuotient(a: real, t: real)
    requires a != 0.0 && t != 0.0
    ensures a / (a / t) == t
  {
  }

  /** A divisor of at least 1 does not grow a non-negative value. */
  lemma QuotientShrinks(y: real, t: real)
    requires 1.0 <= t && 0.0 <= y
    ensures y / t <= y
  {
  }

  /** Comparing a quotient with a bound, multiplied out. */
  lemma QuotientBelow(x: real, y: real, t: real)
    requires 0.0 < y
    ensures x / y < t <==> x < Mul(t, y)
  {
  }

  /** Comparing a quotient with a lower bound, multiplied out. */
  lemma QuotientAbove(x: real, y: real, t: real)
    requires 0.0 < y
    ensures t < x / y <==> Mul(t, y) < x
  {
  }

  /** Comparing a quotient with a bound, divisors exchanged. */
  lemma QuotientSwap(x: real, y: real, t: real)
    requires 0.0 < y && 0.0 < t
    ensures x / y < t <==> x / t < y
  {
    QuotientBelow(x, y, t);
    QuotientBelow(x, t, y);
    MulCommutes(t, y);
  }

  lemma QuotientNegate(x: real, y: real)
    requires y != 0.0
    ensures (-x) / (-y) == x / y
  {
  }

  /** Multiplying a quotient back by its divisor recovers the dividend. */
  lemma MulDivCancel(x: real, y: real)
    requires y != 0.0
    ensures Mul(y, x / y) == x
  {
  }

  /** `a + (b - a) * w`: the point a fraction w of the way from a to b. */
  function Lerp(a: real, b: real, w: real): real
  {
    a + Mul(b - a, w)
  }

  /** Interpolation stays between its end points. */
  lemma LerpBetween(a: real, b: real, w: real)
    requires 0.0 <= w <= 1.0
    ensures a <= b ==> a <= Lerp(a, b, w) <= b
    ensures b <= a ==> b <= Lerp(a, b, w) <= a
  {
    MulFraction(b - a, w);
  }
}
