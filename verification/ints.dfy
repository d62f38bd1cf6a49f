/**
 The principal ideal ring used by the elimination: the integers, with the
 capability set the Smith-form code asks of its ring (isZero, isOne, isUnit,
 inv, isDivisor, div, gcd, xgcd, normalIn). This is the ring
 Givaro::ZRing<Integer> of the library; a ring element is an unbounded `int`.
 */
module Ints {

  /** `isUnit`: the units of the integers are 1 and -1. */
  predicate IsUnit(x: int) {
    x == 1 || x == -1
  }

  /** `inv`: the inverse of a unit. */
  function Inv(u: int): (r: int)
    requires IsUnit(u)
    ensures r * u == 1
    ensures IsUnit(r)
  {
    u
  }

  /** `isDivisor(a, b)`: b is a multiple of a (so 0 divides only 0). */
  predicate IsDivisor(a: int, b: int) {
    if a == 0 then b == 0 else b % a == 0
  }

  /** `div(a, b)`: the exact quotient a / b; only meaningful when b divides a. */
  function Div(a: int, b: int): (q: int)
    ensures IsDivisor(b, a) ==> q * b == a
  {
    if b == 0 then 0 else a / b
  }

  /** `normalIn`: the canonical associate, here the absolute value. */
  function NormalIn(x: int): (r: int)
    ensures r >= 0
    ensures r == x || r == -x
  {
    if x < 0 then -x else x
  }

  /**
   `xgcd(g, s, t, a, b)`: a non-negative generator g of the ideal (a, b)
   together with Bezout coefficients, g = s*a + t*b. Extended Euclid.
   */
  function XGcd(a: int, b: int): (r: (int, int, int))
    ensures r.0 >= 0
    ensures r.0 == r.1 * a + r.2 * b
    ensures IsDivisor(r.0, a) && IsDivisor(r.0, b)
    decreases NormalIn(b)
  {
    if b == 0 then
      DivisorSelf(a);
      if a >= 0 then (a, 1, 0) else (-a, -1, 0)
    else
      var q, m := a / b, a % b;
      var (g, s, t) := XGcd(b, m);
      XGcdStep(a, b, q, m, g, s, t);
      (g, t, s - q * t)
  }

  /** `gcd(g, a, b)`: the generator part of xgcd. */
  function Gcd(a: int, b: int): (g: int)
    ensures g >= 0
    ensures IsDivisor(g, a) && IsDivisor(g, b)
    ensures forall d :: IsDivisor(d, a) && IsDivisor(d, b) ==> IsDivisor(d, g)
  {
    var (g, s, t) := XGcd(a, b);
    forall d | IsDivisor(d, a) && IsDivisor(d, b)
      ensures IsDivisor(d, g)
    {
      DivisorLinear(d, a, b, s, t);
    }
    g
  }

  // ---------------------------------------------------------------------
  // Arithmetic facts the solver does not find on its own
  // ---------------------------------------------------------------------

  lemma MulNonNeg(m: int, a: int)
    requires m >= 0 && a >= 0
    ensures m * a >= 0
  {}

  /** A non-zero multiple of a is at least |a| in absolute value. */
  lemma MulAbsGe(m: int, a: int)
    requires m != 0
    ensures m * a >= a || m * a <= -a
    ensures m * a >= -a || m * a <= a
  {
    if m > 0 {
      assert m * a == a + (m - 1) * a;
      if a >= 0 {
        MulNonNeg(m - 1, a);
      } else {
        MulNonNeg(m - 1, -a);
        assert (m - 1) * (-a) == -((m - 1) * a);
      }
    } else {
      assert m * a == -a + (m + 1) * a;
      if a >= 0 {
        MulNonNeg(-(m + 1), a);
        assert -(m + 1) * a == -((m + 1) * a);
      } else {
        MulNonNeg(-(m + 1), -a);
        assert (-(m + 1)) * (-a) == (m + 1) * a;
      }
    }
  }

  /** Every multiple of a is divisible by a. */
  lemma MultipleIsDivisible(a: int, k: int)
    ensures IsDivisor(a, k * a)
  {
    if a != 0 {
      var q, r := (k * a) / a, (k * a) % a;
      assert k * a == q * a + r;
      assert r == (k - q) * a;
      if k - q != 0 {
        MulAbsGe(k - q, a);
      }
    }
  }

  lemma DivisorSelf(a: int)
    ensures IsDivisor(a, a) && IsDivisor(-a, a) && IsDivisor(a, 0)
  {
    MultipleIsDivisible(a, 1);
    MultipleIsDivisible(-a, -1);
    MultipleIsDivisible(a, 0);
  }

  /** Divisibility is closed under integer linear combinations. */
  lemma DivisorLinear(d: int, a: int, b: int, s: int, t: int)
    requires IsDivisor(d, a) && IsDivisor(d, b)
    ensures IsDivisor(d, s * a + t * b)
  {
    if d != 0 {
      var qa, qb := Div(a, d), Div(b, d);
      assert a == qa * d && b == qb * d;
      assert s * a + t * b == (s * qa + t * qb) * d by {
        assert s * a == (s * qa) * d;
        assert t * b == (t * qb) * d;
      }
      MultipleIsDivisible(d, s * qa + t * qb);
    }
  }

  /** Subtracting the quotient times the divisor leaves zero. */
  lemma ClearEntry(x: int, p: int)
    requires IsDivisor(p, x)
    ensures x + (-Div(x, p)) * p == 0
  {
    var d := Div(x, p);
    assert d * p == x;
    assert (-d) * p == -(d * p);
  }

  lemma DivisorMul(d: int, a: int, k: int)
    requires IsDivisor(d, a)
    ensures IsDivisor(d, k * a)
  {
    DivisorLinear(d, a, 0, k, 0);
  }

  lemma DivisorTrans(a: int, b: int, c: int)
    requires IsDivisor(a, b) && IsDivisor(b, c)
    ensures IsDivisor(a, c)
  {
    if b == 0 {
      assert c == 0;
      DivisorSelf(a);
    } else {
      var q := Div(c, b);
      assert c == q * b;
      DivisorMul(a, b, q);
    }
  }

  /** A unit divides every element. */
  lemma UnitDivides(u: int, x: int)
    requires IsUnit(u)
    ensures IsDivisor(u, x)
  {
    if u == 1 {
      MultipleIsDivisible(1, x);
    } else {
      MultipleIsDivisible(-1, -x);
    }
  }

  /** Divisibility only sees the absolute value of either side. */
  lemma DivisorNormal(d: int, x: int)
    ensures IsDivisor(d, x) <==> IsDivisor(d, NormalIn(x))
    ensures IsDivisor(d, x) <==> IsDivisor(NormalIn(d), x)
  {
    if x < 0 {
      if IsDivisor(d, x) {
        DivisorMul(d, x, -1);
      }
      if IsDivisor(d, -x) {
        DivisorMul(d, -x, -1);
      }
    }
    if d < 0 {
      DivisorSelf(d);
      MultipleIsDivisible(d, -1);
      if IsDivisor(d, x) {
        DivisorTrans(-d, d, x);
      }
      if IsDivisor(-d, x) {
        DivisorTrans(d, -d, x);
      }
    }
  }

  /** The only element that every integer divides is zero. */
  lemma DividedByAllIsZero(x: int)
    requires IsDivisor(NormalIn(x) + 1, x)
    ensures x == 0
  {
    var d := NormalIn(x) + 1;
    var q := Div(x, d);
    assert x == q * d;
    if q != 0 {
      MulAbsGe(q, d);
    }
  }

  /** Two non-negative elements dividing each other are equal. */
  lemma DivisorAntisym(a: int, b: int)
    requires a >= 0 && b >= 0 && IsDivisor(a, b) && IsDivisor(b, a)
    ensures a == b
  {
    if a != 0 && b != 0 {
      var p, q := Div(b, a), Div(a, b);
      assert b == p * a && a == q * b;
      MulAbsGe(p, a);
      MulAbsGe(q, b);
    }
  }

  lemma XGcdStep(a: int, b: int, q: int, m: int, g: int, s: int, t: int)
    requires b != 0 && q == a / b && m == a % b
    requires g == s * b + t * m
    requires IsDivisor(g, b) && IsDivisor(g, m)
    ensures g == t * a + (s - q * t) * b
    ensures IsDivisor(g, a)
  {
    assert a == q * b + m;
    BezoutShift(a, b, q, m, g, s, t);
    DivisorLinear(g, b, m, q, 1);
  }

  lemma BezoutShift(a: int, b: int, q: int, m: int, g: int, s: int, t: int)
    requires a == q * b + m
    requires g == s * b + t * m
    ensures g == t * a + (s - q * t) * b
  {
    assert t * m == t * a - (q * t) * b;
  }
}
