/** IEEE 754 binary64 values as their 64-bit words (class Double of ieee.h), their rounding
    intervals, and correct rounding.  Magnitudes are integers in units of 2^-1075, half the
    smallest denormal. */
module Ieee {
  import opened Words
  import opened Powers

  const HIDDEN_BIT: nat := 0x10_0000_0000_0000
  const INFINITY: nat := 0x7FF0_0000_0000_0000
  const DENORMAL_EXPONENT: int := -1074
  const UNIT: nat := 1075

  function BiasedExponent(d64: nat): nat {
    d64 / HIDDEN_BIT % 0x800
  }

  predicate IsDenormal(d64: nat) {
    BiasedExponent(d64) == 0
  }

  predicate IsSpecial(d64: nat) {
    BiasedExponent(d64) == 0x7FF
  }

  function Exponent(d64: nat): (e: int)
    ensures DENORMAL_EXPONENT <= e && (d64 < INFINITY ==> e <= 971)
  {
    if IsDenormal(d64) then DENORMAL_EXPONENT else BiasedExponent(d64) - 1075
  }

  function Significand(d64: nat): nat {
    if IsDenormal(d64) then d64 % HIDDEN_BIT else d64 % HIDDEN_BIT + HIDDEN_BIT
  }

  predicate LowerBoundaryIsCloser(d64: nat) {
    d64 % HIDDEN_BIT == 0 && Exponent(d64) != DENORMAL_EXPONENT
  }

  function NextDouble(d64: nat): nat {
    if d64 == INFINITY then INFINITY else d64 + 1
  }

  /** The words of the non-negative finite doubles are the numbers below INFINITY. */
  lemma Ranges(d64: nat)
    requires d64 < INFINITY
    ensures !IsSpecial(d64)
    ensures DENORMAL_EXPONENT <= Exponent(d64) <= 971 && Significand(d64) < 2 * HIDDEN_BIT
    ensures d64 > 0 ==> Significand(d64) > 0
    ensures Exponent(d64) > DENORMAL_EXPONENT ==> Significand(d64) >= HIDDEN_BIT
    ensures Significand(d64) % 2 == d64 % 2
    ensures LowerBoundaryIsCloser(d64) ==> Significand(d64) == HIDDEN_BIT && Exponent(d64) > DENORMAL_EXPONENT
  {}

  /** The value, and the two ends of the interval of reals nearest to it. */
  function Units(d64: nat): nat
    requires d64 < INFINITY
  {
    Significand(d64) * Two(Exponent(d64) + 1075)
  }

  function Upper(d64: nat): nat
    requires d64 < INFINITY
  {
    (2 * Significand(d64) + 1) * Two(Exponent(d64) + 1074)
  }

  function Lower(d64: nat): nat
    requires 0 < d64 < INFINITY
  {
    Ranges(d64);
    if LowerBoundaryIsCloser(d64) then (4 * Significand(d64) - 1) * Two(Exponent(d64) + 1073)
    else (2 * Significand(d64) - 1) * Two(Exponent(d64) + 1074)
  }

  /** Fields of the next word: the carry out of the significand goes into the exponent. */
  lemma NextFields(d64: nat)
    requires d64 + 1 < INFINITY
    ensures
      var f, e, g, h := Significand(d64), Exponent(d64), Significand(d64 + 1), Exponent(d64 + 1);
      if f == 2 * HIDDEN_BIT - 1 then g == HIDDEN_BIT && h == e + 1 && LowerBoundaryIsCloser(d64 + 1)
      else g == f + 1 && h == e && !LowerBoundaryIsCloser(d64 + 1)
  {}

  /** Adjacent doubles share a boundary: the intervals leave no gap, the closer lower boundary at
      powers of two included. */
  lemma Adjacent(d64: nat)
    requires d64 + 1 < INFINITY
    ensures Lower(d64 + 1) == Upper(d64)
  {
    NextFields(d64);
    Ranges(d64);
  }

  lemma Ordered(d64: nat)
    requires d64 < INFINITY
    ensures Units(d64) < Upper(d64)
    ensures d64 > 0 ==> Lower(d64) < Units(d64)
  {
    hide Two;
    Ranges(d64);
    var f, e := Significand(d64), Exponent(d64);
    TwoSucc(e + 1074);
    MulAssociate(f, 2, Two(e + 1074));
    MulLess(2 * f, 2 * f + 1, Two(e + 1074));
    if d64 > 0 {
      MulLess(2 * f - 1, 2 * f, Two(e + 1074));
      if LowerBoundaryIsCloser(d64) {
        TwoSucc(e + 1073);
        MulAssociate(2 * f, 2, Two(e + 1073));
        MulLess(4 * f - 1, 4 * f, Two(e + 1073));
      }
    }
  }

  lemma {:induction false} UpperMonotone(a: nat, b: nat)
    requires a <= b < INFINITY
    ensures Upper(a) <= Upper(b) && (a < b ==> Upper(a) < Upper(b) && Upper(a) <= Lower(b))
    decreases b - a
  {
    hide Upper, Lower, Units;
    if a < b {
      UpperMonotone(a, b - 1);
      Adjacent(b - 1);
      Ordered(b);
    }
  }

  /** d64 is the double nearest to x / y units, ties going to the even word.  Beyond the upper
      boundary of the largest finite double that is infinity. */
  ghost predicate RoundsTo(d64: nat, x: nat, y: nat) {
    && d64 <= INFINITY
    && (d64 > 0 ==>
          var low := if d64 == INFINITY then Upper(INFINITY - 1) else Lower(d64);
          if d64 % 2 == 0 then low * y <= x else low * y < x)
    && (d64 < INFINITY ==>
          if d64 % 2 == 0 then x <= Upper(d64) * y else x < Upper(d64) * y)
  }

  /** Rounding is a function: the intervals do not overlap. */
  lemma RoundsToUnique(a: nat, b: nat, x: nat, y: nat)
    requires y > 0 && RoundsTo(a, x, y) && RoundsTo(b, x, y)
    ensures a == b
  {
    if a < b { RoundsToOrder(a, b, x, y); }
    if b < a { RoundsToOrder(b, a, x, y); }
  }

  lemma RoundsToOrder(a: nat, b: nat, x: nat, y: nat)
    requires y > 0 && a < b <= INFINITY && RoundsTo(a, x, y)
    ensures !RoundsTo(b, x, y)
  {
    hide Upper, Lower;
    var low := if b == INFINITY then Upper(INFINITY - 1) else Lower(b);
    UpperMonotone(a, if b == INFINITY then INFINITY - 1 else b);
    MulLess(Upper(a), low, y);
    if Upper(a) == low {
      SharedBoundary(a, b);
    }
  }

  /** A boundary belongs to just one of its two doubles: their words have different parity. */
  lemma SharedBoundary(a: nat, b: nat)
    requires a < b <= INFINITY
    requires Upper(a) == if b == INFINITY then Upper(INFINITY - 1) else Lower(b)
    ensures b == a + 1
  {
    hide Upper, Lower;
    if a + 1 < b {
      if b < INFINITY {
        Adjacent(b - 1);
      }
      UpperMonotone(a, b - 1);
    }
  }
}
