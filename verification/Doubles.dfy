/**
 IEEE 754 doubles as the spatial index sees them: a 64-bit pattern, its exact value, comparison,
 the rounded addition and halving that produce a centroid, and the order-preserving fold to 32
 bits (double_to_lex_uint32).

 The value of a finite double is kept exact as an integer number of units of 2^-1074.  Rounding is
 stated as the standard does, as a nearest representable value; ties may go either way, so every
 result here holds for each tie rule.
 */
module Doubles {
  import opened Powers

  /** A double is its bit pattern. */
  type Double = bits: int | 0 <= bits < 0x1_0000_0000_0000_0000

  const SIGN: Double := 0x8000_0000_0000_0000
  const FRACTION: nat := 0x10_0000_0000_0000
  const INFINITY: Double := 0x7FF0_0000_0000_0000
  const PLUS_ZERO: Double := 0
  const MINUS_ZERO: Double := SIGN

  predicate Negative(v: Double) {
    v >= SIGN
  }

  function Magnitude(v: Double): nat {
    if v >= SIGN then v - SIGN else v
  }

  predicate Finite(v: Double) {
    Magnitude(v) < INFINITY
  }

  /** The value of a finite magnitude in units of 2^-1074. */
  function Units(m: nat): nat {
    var e, f := m / FRACTION, m % FRACTION;
    if e == 0 then f else (FRACTION + f) * Pow2(e - 1)
  }

  /** The exact value of a finite double in units of 2^-1074. */
  function Value(v: Double): int
    requires Finite(v)
  {
    if Negative(v) then 0 - Units(Magnitude(v)) else Units(Magnitude(v))
  }

  lemma UnitsStep(m: nat)
    ensures Units(m) < Units(m + 1)
  {
    var e, f := m / FRACTION, m % FRACTION;
    if f + 1 < FRACTION {
      assert (m + 1) / FRACTION == e && (m + 1) % FRACTION == f + 1;
      if e > 0 {
        assert (FRACTION + f + 1) * Pow2(e - 1) == (FRACTION + f) * Pow2(e - 1) + Pow2(e - 1);
      }
    } else {
      assert (m + 1) / FRACTION == e + 1 && (m + 1) % FRACTION == 0;
      if e > 0 {
        assert FRACTION * Pow2(e) == (2 * FRACTION) * Pow2(e - 1);
        assert (2 * FRACTION) * Pow2(e - 1) == (FRACTION + f) * Pow2(e - 1) + Pow2(e - 1);
      }
    }
  }

  lemma {:induction false} UnitsIncrease(a: nat, b: nat)
    requires a < b
    ensures Units(a) < Units(b)
    decreases b - a
  {
    UnitsStep(b - 1);
    if a < b - 1 {
      UnitsIncrease(a, b - 1);
    }
  }

  lemma UnitsOrder(a: nat, b: nat)
    ensures Units(a) <= Units(b) <==> a <= b
  {
    if a < b {
      UnitsIncrease(a, b);
    } else if b < a {
      UnitsIncrease(b, a);
    }
  }

  lemma UnitsZero(m: nat)
    ensures Units(m) == 0 <==> m == 0
  {
    if m > 0 {
      UnitsIncrease(0, m);
    }
  }

  // ---- double_to_lex_uint32 ---------------------------------------------------------------

  /** double_to_lex_uint32 */
  function Fold(v: Double): (f: nat)
    ensures f < TWO32
  {
    (if Negative(v) then 0xFFFF_FFFF_FFFF_FFFF - v else v + SIGN) / TWO32
  }

  /**
   The fold follows the numeric order except in one case: it puts minus zero below plus zero
   although the two are numerically equal.
   */
  lemma FoldOrder(a: Double, b: Double)
    requires Finite(a) && Finite(b) && Value(a) <= Value(b)
    ensures Fold(a) <= Fold(b) <==> !(a == PLUS_ZERO && b == MINUS_ZERO)
  {
    UnitsOrder(Magnitude(a), Magnitude(b));
    UnitsOrder(Magnitude(b), Magnitude(a));
    UnitsZero(Magnitude(a));
    UnitsZero(Magnitude(b));
  }

  // ---- rounded arithmetic -----------------------------------------------------------------

  function Abs(n: int): nat {
    if n < 0 then -n else n
  }

  /** v is a finite double nearest to the exact value n / den units. */
  ghost predicate Nearest(n: int, den: int, v: Double) {
    Finite(v) && forall w: Double :: Finite(w) ==> Abs(n - den * Value(v)) <= Abs(n - den * Value(w))
  }

  /** Sums from here on round to infinity: the largest finite value plus half its last place. */
  function OverflowThreshold(): nat {
    (4 * FRACTION - 1) * Pow2(2044)
  }

  /** It lies halfway between the largest finite magnitude and the next one, were the exponent not the last. */
  lemma ThresholdIsMidpoint()
    ensures 2 * OverflowThreshold() == Units(INFINITY - 1) + Units(INFINITY)
  {
    assert (INFINITY - 1) / FRACTION == 2046 && (INFINITY - 1) % FRACTION == FRACTION - 1;
    assert INFINITY / FRACTION == 2047 && INFINITY % FRACTION == 0;
    Pow2Step(2044);
    Pow2Step(2045);
  }

  /** r is the double sum of the finite doubles a and b. */
  ghost predicate IsSum(a: Double, b: Double, r: Double)
    requires Finite(a) && Finite(b)
  {
    var n := Value(a) + Value(b);
    if n >= OverflowThreshold() then r == INFINITY
    else if n + OverflowThreshold() <= 0 then r == SIGN + INFINITY
    else if n == 0 then r == (if Negative(a) && Negative(b) then MINUS_ZERO else PLUS_ZERO)
    else Nearest(n, 1, r) && Negative(r) == (n < 0)
  }

  /** c is the double quotient r / 2.0. */
  ghost predicate IsHalf(r: Double, c: Double) {
    if Finite(r) then Nearest(Value(r), 2, c) && Negative(c) == Negative(r)
    else c == r
  }

  /** c is (lo + hi) / 2.0 as the index computes it. */
  ghost predicate IsCentroid(lo: Double, hi: Double, c: Double)
    requires Finite(lo) && Finite(hi)
  {
    exists r: Double :: IsSum(lo, hi, r) && IsHalf(r, c)
  }

  lemma NearestAbove(n: int, den: int, v: Double, w: Double)
    requires den > 0 && Nearest(n, den, v) && Finite(w) && den * Value(w) <= n
    ensures Value(w) <= Value(v)
  {
    hide Value;
    var x, y := Value(v), Value(w);
    assert Abs(n - den * x) <= Abs(n - den * y);
    assert x < y ==> den * x < den * y;
  }

  lemma NearestBelow(n: int, den: int, v: Double, w: Double)
    requires den > 0 && Nearest(n, den, v) && Finite(w) && n <= den * Value(w)
    ensures Value(v) <= Value(w)
  {
    hide Value;
    var x, y := Value(v), Value(w);
    assert Abs(n - den * x) <= Abs(n - den * y);
    assert y < x ==> den * y < den * x;
  }

  /** The magnitude of twice a value: one more in the exponent, or the fraction doubled. */
  function Doubled(m: nat): nat {
    if m < FRACTION then 2 * m else m + FRACTION
  }

  lemma DoubledUnits(m: nat)
    ensures Units(Doubled(m)) == 2 * Units(m)
  {
    var e, f := m / FRACTION, m % FRACTION;
    if m < FRACTION {
      assert e == 0 && f == m;
      if 2 * m >= FRACTION {
        assert (2 * m) / FRACTION == 1 && (2 * m) % FRACTION == 2 * m - FRACTION;
      }
    } else {
      assert (m + FRACTION) / FRACTION == e + 1 && (m + FRACTION) % FRACTION == f;
      assert (FRACTION + f) * Pow2(e) == 2 * ((FRACTION + f) * Pow2(e - 1));
    }
  }

  const TOP_BINADE: nat := 0x7FE0_0000_0000_0000

  /** Values below the top binade are below half the overflow threshold, and the rest above. */
  lemma TopBinade(m: nat)
    requires m < INFINITY
    ensures m < TOP_BINADE ==> 2 * Units(m) < OverflowThreshold()
    ensures m >= TOP_BINADE ==> OverflowThreshold() <= 2 * Units(m)
    ensures Units(m) < OverflowThreshold()
  {
    hide Pow2, Units;
    UnitsOrder(m, TOP_BINADE - 1);
    UnitsOrder(TOP_BINADE, m);
    UnitsOrder(m, INFINITY - 1);
    TopValues();
  }

  lemma TopValues()
    ensures Units(TOP_BINADE - 1) == (2 * FRACTION - 1) * Pow2(2044)
    ensures Units(TOP_BINADE) == FRACTION * Pow2(2045) == (2 * FRACTION) * Pow2(2044)
    ensures Units(INFINITY - 1) == (2 * FRACTION - 1) * Pow2(2045) == (4 * FRACTION - 2) * Pow2(2044)
  {
    hide Pow2;
    Pow2Step(2044);
    assert (TOP_BINADE - 1) / FRACTION == 2045 && (TOP_BINADE - 1) % FRACTION == FRACTION - 1;
    assert TOP_BINADE / FRACTION == 2046 && TOP_BINADE % FRACTION == 0;
    assert (INFINITY - 1) / FRACTION == 2046 && (INFINITY - 1) % FRACTION == FRACTION - 1;
  }

  /** The rounded sum of two finite doubles that does not overflow is at least twice the lesser. */
  lemma SumAbove(a: Double, b: Double, r: Double)
    requires Finite(a) && Finite(b) && Value(a) <= Value(b)
    requires IsSum(a, b, r) && Finite(r)
    ensures 2 * Value(a) <= Value(r)
  {
    hide Units, OverflowThreshold, Pow2;
    var m := Magnitude(a);
    TopBinade(m);
    TopBinade(Magnitude(r));
    DoubledUnits(m);
    UnitsZero(0);
    if Doubled(m) < INFINITY {
      var w: Double := if Negative(a) then SIGN + Doubled(m) else Doubled(m);
      var n := Value(a) + Value(b);
      if n != 0 {
        NearestAbove(n, 1, r, w);
      }
    }
  }

  lemma SumBelow(a: Double, b: Double, r: Double)
    requires Finite(a) && Finite(b) && Value(a) <= Value(b)
    requires IsSum(a, b, r) && Finite(r)
    ensures Value(r) <= 2 * Value(b)
  {
    hide Units, OverflowThreshold, Pow2;
    var m := Magnitude(b);
    TopBinade(m);
    TopBinade(Magnitude(r));
    DoubledUnits(m);
    UnitsZero(0);
    if Doubled(m) < INFINITY {
      var w: Double := if Negative(b) then SIGN + Doubled(m) else Doubled(m);
      var n := Value(a) + Value(b);
      if n != 0 {
        NearestBelow(n, 1, r, w);
      }
    }
  }

  /** Unless the sum overflows, the centroid of an interval lies in the interval. */
  lemma CentroidBetween(lo: Double, hi: Double, r: Double, c: Double)
    requires Finite(lo) && Finite(hi) && Value(lo) <= Value(hi)
    requires IsSum(lo, hi, r) && IsHalf(r, c) && Finite(r)
    ensures Finite(c) && Value(lo) <= Value(c) <= Value(hi)
  {
    SumAbove(lo, hi, r);
    SumBelow(lo, hi, r);
    NearestAbove(Value(r), 2, c, lo);
    NearestBelow(Value(r), 2, c, hi);
  }
}
