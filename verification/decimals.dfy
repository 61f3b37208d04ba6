/**
 * The part of java.math.BigDecimal that the savings core uses: an exact
 * decimal is an unscaled integer and a scale, standing for unscaled * 10^-scale.
 */
module Decimals {
  import opened Basics

  /** Two Decimals are equal (==) exactly when BigDecimal.equals holds: 2.0 and 2.00 differ. */
  datatype Decimal = Decimal(unscaled: int, scale: nat)

  /** BigDecimal.ZERO */
  const Zero: Decimal := Decimal(0, 0)

  /** The rounding modes passed to BigDecimal.divide by the savings core. */
  datatype RoundingMode =
    | Ceiling   // ROUND_CEILING: towards positive infinity
    | HalfEven  // ROUND_HALF_EVEN: to the nearest neighbour, ties to the even one

  function Pow10(n: nat): (p: int)
    ensures p > 0
  {
    if n == 0 then 1 else 10 * Pow10(n - 1)
  }

  lemma {:induction false} Pow10Add(m: nat, n: nat)
    ensures Pow10(m + n) == Pow10(m) * Pow10(n)
  {
    if n > 0 {
      Pow10Add(m, n - 1);
      assert Pow10(m + n) == 10 * Pow10(m + n - 1);
    }
  }

  function AbsInt(x: int): nat
  {
    if x < 0 then -x else x
  }

  /** The number a Decimal stands for. */
  ghost function Value(d: Decimal): real
  {
    d.unscaled as real / Pow10(d.scale) as real
  }

  // ----- real-number facts used to move between Value and integers -----

  lemma CrossMultiply(a: real, b: real, p: real, q: real)
    requires p > 0.0 && q > 0.0
    ensures a / p < b / q <==> a * q < b * p
    ensures a / p == b / q <==> a * q == b * p
  {
    var u, v := a / p, b / q;
    assert a == u * p;
    assert b == v * q;
    assert a * q == u * (p * q);
    assert b * p == v * (p * q);
    assert p * q > 0.0;
  }

  lemma SubtractFractions(a: real, b: real, p: real, q: real)
    requires p > 0.0 && q > 0.0
    ensures a / p - b / q == (a * q - b * p) / (p * q)
  {
    var u, v := a / p, b / q;
    assert a == u * p;
    assert b == v * q;
    assert (u - v) * (p * q) == a * q - b * p;
  }

  lemma MultiplyFractions(a: real, b: real, p: real, q: real)
    requires p > 0.0 && q > 0.0
    ensures (a / p) * (b / q) == (a * b) / (p * q)
  {
    var u, v := a / p, b / q;
    assert a == u * p;
    assert b == v * q;
    assert (u * v) * (p * q) == a * b;
  }

  lemma CancelFactor(a: real, p: real, k: real)
    requires p > 0.0 && k > 0.0
    ensures (a * k) / (p * k) == a / p
  {
    var u := a / p;
    assert a == u * p;
    assert u * (p * k) == a * k;
  }

  lemma SameDenominator(x: real, y: real, p: real)
    requires p > 0.0
    ensures x / p - y / p == (x - y) / p
  {
    var u, v := x / p, y / p;
    assert x == u * p && y == v * p;
    assert (u - v) * p == x - y;
  }

  lemma CastMultiply(x: int, y: int)
    ensures (x * y) as real == x as real * y as real
  {
  }

  /** Value order is integer order after cross-multiplying by the other side's 10^scale. */
  lemma ValueOrder(x: Decimal, y: Decimal)
    ensures Value(x) < Value(y) <==> x.unscaled * Pow10(y.scale) < y.unscaled * Pow10(x.scale)
    ensures Value(x) == Value(y) <==> x.unscaled * Pow10(y.scale) == y.unscaled * Pow10(x.scale)
  {
    FractionOrder(x.unscaled, y.unscaled, Pow10(x.scale), Pow10(y.scale));
  }

  lemma FractionOrder(a: int, b: int, p: int, q: int)
    requires p > 0 && q > 0
    ensures a as real / p as real < b as real / q as real <==> a * q < b * p
    ensures a as real / p as real == b as real / q as real <==> a * q == b * p
  {
    CrossMultiply(a as real, b as real, p as real, q as real);
    CastMultiply(a, q);
    CastMultiply(b, p);
  }

  /** The sign of a Decimal's value is the sign of its unscaled part. */
  lemma ValueSign(d: Decimal)
    ensures Value(d) < 0.0 <==> d.unscaled < 0
    ensures Value(d) == 0.0 <==> d.unscaled == 0
  {
    ValueOrder(d, Zero);
    assert Value(Zero) == 0.0;
  }

  /** Scaling the unscaled part and the scale up together keeps the value. */
  lemma ValueRescale(d: Decimal, k: nat)
    ensures Value(Decimal(d.unscaled * Pow10(k), d.scale + k)) == Value(d)
  {
    var p, pk := Pow10(d.scale), Pow10(k);
    Pow10Add(d.scale, k);
    CastMultiply(d.unscaled, pk);
    CastMultiply(p, pk);
    CancelFactor(d.unscaled as real, p as real, pk as real);
  }

  // ----- the BigDecimal operations -----

  /** BigDecimal.signum */
  function Signum(d: Decimal): (s: int)
    ensures s == -1 <==> Value(d) < 0.0
    ensures s == 0 <==> Value(d) == 0.0
    ensures s == 1 <==> Value(d) > 0.0
  {
    ValueSign(d);
    if d.unscaled < 0 then -1 else if d.unscaled == 0 then 0 else 1
  }

  /** BigDecimal.negate: the scale is kept. */
  function Negate(d: Decimal): (r: Decimal)
    ensures Value(r) == -Value(d)
    ensures r.scale == d.scale
  {
    Decimal(-d.unscaled, d.scale)
  }

  /** BigDecimal.abs: the scale is kept. */
  function Abs(d: Decimal): (r: Decimal)
    ensures Value(r) == if Value(d) < 0.0 then -Value(d) else Value(d)
    ensures r.scale == d.scale
  {
    ValueSign(d);
    Decimal(AbsInt(d.unscaled), d.scale)
  }

  /** BigDecimal.multiply: exact, the scales add up. */
  function Multiply(a: Decimal, b: Decimal): (r: Decimal)
    ensures Value(r) == Value(a) * Value(b)
    ensures r.scale == a.scale + b.scale
  {
    ValueOfProduct(a, b);
    Decimal(a.unscaled * b.unscaled, a.scale + b.scale)
  }

  lemma ValueOfProduct(a: Decimal, b: Decimal)
    ensures Value(Decimal(a.unscaled * b.unscaled, a.scale + b.scale)) == Value(a) * Value(b)
  {
    Pow10Add(a.scale, b.scale);
    ProductOfFractions(a.unscaled, b.unscaled, Pow10(a.scale), Pow10(b.scale), Pow10(a.scale + b.scale));
  }

  lemma ProductOfFractions(x: int, y: int, p: int, q: int, pq: int)
    requires p > 0 && q > 0 && pq == p * q
    ensures (x * y) as real / pq as real == (x as real / p as real) * (y as real / q as real)
  {
    CastMultiply(x, y);
    CastMultiply(p, q);
    MultiplyFractions(x as real, y as real, p as real, q as real);
  }

  function Max(x: nat, y: nat): nat
  {
    if x < y then y else x
  }

  /** BigDecimal.subtract: exact, at the larger of the two scales. */
  function Subtract(a: Decimal, b: Decimal): (r: Decimal)
    ensures Value(r) == Value(a) - Value(b)
    ensures r.scale == Max(a.scale, b.scale)
  {
    var s := Max(a.scale, b.scale);
    var a' := Decimal(a.unscaled * Pow10(s - a.scale), s);
    var b' := Decimal(b.unscaled * Pow10(s - b.scale), s);
    ValueRescale(a, s - a.scale);
    ValueRescale(b, s - b.scale);
    SameDenominator(a'.unscaled as real, b'.unscaled as real, Pow10(s) as real);
    Decimal(a'.unscaled - b'.unscaled, s)
  }

  /** BigDecimal.compareTo: compares values, ignoring the scale. */
  function CompareTo(a: Decimal, b: Decimal): (c: int)
    ensures c == -1 || c == 0 || c == 1
    ensures c < 0 <==> Value(a) < Value(b)
    ensures c == 0 <==> Value(a) == Value(b)
  {
    ValueOrder(a, b);
    var x, y := a.unscaled * Pow10(b.scale), b.unscaled * Pow10(a.scale);
    if x < y then -1 else if x == y then 0 else 1
  }

  /** Equality (BigDecimal.equals) is finer than compareTo: 2.0 and 2.00 compare equal. */
  lemma EqualsIsScaleSensitive()
    ensures Decimal(20, 1) != Decimal(200, 2)
    ensures CompareTo(Decimal(20, 1), Decimal(200, 2)) == 0
  {
  }

  // ----- rounded division -----

  /**
   * q is the fraction n/d rounded to an integer as the mode says. The sign
   * is moved to the numerator first, so that the denominator is positive.
   */
  ghost predicate IsRounded(n: int, d: int, mode: RoundingMode, q: int)
    requires d != 0
  {
    var m := if d > 0 then n else -n;
    var e := if d > 0 then d else -d;
    match mode
    case Ceiling => e * (q - 1) < m <= e * q
    case HalfEven =>
      && 2 * AbsInt(m - e * q) <= e
      && (2 * AbsInt(m - e * q) == e ==> q % 2 == 0)
  }

  /** A fraction has exactly one rounding per mode. */
  lemma RoundedUnique(n: int, d: int, mode: RoundingMode, q1: int, q2: int)
    requires d != 0
    requires IsRounded(n, d, mode, q1) && IsRounded(n, d, mode, q2)
    ensures q1 == q2
  {
    var m := if d > 0 then n else -n;
    var e := if d > 0 then d else -d;
    match mode
    case Ceiling => CeilingUnique(m, e, q1, q2);
    case HalfEven => HalfEvenUnique(m, e, q1, q2);
  }

  lemma CeilingUnique(m: int, e: int, q1: int, q2: int)
    requires e > 0
    requires e * (q1 - 1) < m <= e * q1 && e * (q2 - 1) < m <= e * q2
    ensures q1 == q2
  {
    MultiplyLeftLess(e, q1 - 1, q2);
    MultiplyLeftLess(e, q2 - 1, q1);
  }

  lemma HalfEvenUnique(m: int, e: int, q1: int, q2: int)
    requires e > 0
    requires 2 * AbsInt(m - e * q1) <= e && (2 * AbsInt(m - e * q1) == e ==> q1 % 2 == 0)
    requires 2 * AbsInt(m - e * q2) <= e && (2 * AbsInt(m - e * q2) == e ==> q2 % 2 == 0)
    ensures q1 == q2
  {
    if q1 != q2 {
      // two integers within half a unit of m/e are at most one apart,
      // and only a tie allows that, which leaves only the even one
      var lo, hi := if q1 < q2 then q1 else q2, if q1 < q2 then q2 else q1;
      var r1, r2 := m - e * lo, m - e * hi;
      assert 2 * AbsInt(r1) <= e && 2 * AbsInt(r2) <= e;
      MultiplyDistributes(e, hi, lo);
      MultiplyLeftLess(e, 1, hi - lo);
      MultiplyLeftLess(e, 0, hi - lo);
      assert false;
    }
  }

  lemma MultiplyDistributes(e: int, x: int, y: int)
    ensures e * (x - y) == e * x - e * y
  {
  }

  lemma MultiplyLeftLess(e: int, x: int, y: int)
    requires e > 0
    ensures e * x < e * y <==> x < y
  {
    if x < y {
      assert e * y - e * x == e * (y - x);
    } else {
      assert e * x - e * y == e * (x - y);
    }
  }

  /** Integer division rounded towards positive infinity. */
  function CeilingQuotient(m: int, e: int): (q: int)
    requires e > 0
    ensures e * (q - 1) < m <= e * q
  {
    var f, rem := m / e, m % e;
    assert m == e * f + rem;
    if rem == 0 then f else f + 1
  }

  /** Integer division rounded to the nearest integer, ties to the even one. */
  function HalfEvenQuotient(m: int, e: int): (q: int)
    requires e > 0
    ensures 2 * AbsInt(m - e * q) <= e
    ensures 2 * AbsInt(m - e * q) == e ==> q % 2 == 0
  {
    var f, rem := m / e, m % e;
    assert m - e * f == rem;
    assert m - e * (f + 1) == rem - e;
    if 2 * rem < e then f
    else if 2 * rem > e then f + 1
    else if f % 2 == 0 then f
    else f + 1
  }

  /**
   * a.divide(b, scale, mode): the quotient a/b rounded to `scale` decimal
   * places; the exact quotient times 10^scale is the fraction
   * (a.unscaled * 10^(b.scale + scale)) / (b.unscaled * 10^a.scale).
   * A zero divisor throws.
   */
  function Divide(a: Decimal, b: Decimal, scale: nat, mode: RoundingMode): (r: Result<Decimal>)
    ensures r.Err? <==> b.unscaled == 0
    ensures r.Err? ==> r.error == ArithmeticException
    ensures r.Ok? ==> r.value.scale == scale
    ensures r.Ok? ==>
      IsRounded(a.unscaled * Pow10(b.scale + scale), b.unscaled * Pow10(a.scale), mode, r.value.unscaled)
  {
    if b.unscaled == 0 then Err(ArithmeticException)
    else
      var n, d := a.unscaled * Pow10(b.scale + scale), b.unscaled * Pow10(a.scale);
      var m, e := if d > 0 then n else -n, if d > 0 then d else -d;
      var q := match mode
        case Ceiling => CeilingQuotient(m, e)
        case HalfEven => HalfEvenQuotient(m, e);
      Ok(Decimal(q, scale))
  }

  lemma CrossScale(ux: int, uy: int, kx: int, ky: int, px: int, py: int, ps: int)
    requires kx * px == ps && ky * py == ps
    ensures (ux * kx - uy * ky) * (px * py) == ps * (ux * py - uy * px)
  {
    calc {
      (ux * kx - uy * ky) * (px * py);
      ux * kx * (px * py) - uy * ky * (px * py);
      { assert ux * kx * (px * py) == ux * py * (kx * px);
        assert uy * ky * (px * py) == uy * px * (ky * py); }
      ux * py * ps - uy * px * ps;
      ps * (ux * py - uy * px);
    }
  }

  /**
   * Subtract at the common scale, cross-multiplied: scaling the difference
   * by both operands' 10^scale gives 10^(common scale) times the difference
   * of the cross-multiplied unscaled parts.
   */
  lemma SubtractScaled(x: Decimal, y: Decimal)
    ensures Subtract(x, y).unscaled * (Pow10(x.scale) * Pow10(y.scale))
         == Pow10(Max(x.scale, y.scale)) * (x.unscaled * Pow10(y.scale) - y.unscaled * Pow10(x.scale))
  {
    var s := Max(x.scale, y.scale);
    Pow10Add(s - x.scale, x.scale);
    Pow10Add(s - y.scale, y.scale);
    CrossScale(x.unscaled, y.unscaled, Pow10(s - x.scale), Pow10(s - y.scale),
               Pow10(x.scale), Pow10(y.scale), Pow10(s));
  }
}
