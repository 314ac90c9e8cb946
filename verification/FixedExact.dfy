/** Fixed notation by exact arithmetic (BignumDtoa in fixed mode), and its agreement with the fast
    conversion. */
module FixedExact {
  import opened Words
  import opened Bigits
  import opened Bignums
  import opened BignumArithmetic
  import opened Decimal
  import opened Ieee
  import opened Powers
  import opened BignumDtoa
  import opened ScaledStart
  import opened DoubleDtoa
  import opened FixedDtoa
  import opened Strtod

  // ----- no double with an odd significand is a power of ten -----

  lemma {:induction false} TwoNotFive(n: nat)
    ensures Two(n) % 5 != 0
    decreases n
  {
    if n > 0 {
      TwoNotFive(n - 1);
      assert Two(n) == 2 * Two(n - 1);
    }
  }

  lemma {:induction false} FiveOdd(n: nat)
    ensures Pow(5, n) % 2 == 1
    decreases n
  {
    if n > 0 { FiveOdd(n - 1); }
  }

  /** The odd part of a number is unique. */
  lemma SameOddPart(a: nat, x: nat, b: nat, y: nat)
    requires a % 2 == 1 && b % 2 == 1 && a * Two(x) == b * Two(y)
    ensures a == b && x == y
  {
    hide Two;
    if x < y { OddPartLarger(a, x, b, y); }
    if y < x { OddPartLarger(b, y, a, x); }
    MulLess(a, b, Two(x));
  }

  lemma OddPartLarger(a: nat, x: nat, b: nat, y: nat)
    requires x < y && a * Two(x) == b * Two(y)
    ensures a % 2 == 0
  {
    hide Two;
    TwoAdd(y - x, x);
    TwoSucc(y - x - 1);
    MulAssociate(b, Two(y - x), Two(x));
    MulLess(a, b * Two(y - x), Two(x));
    MulAssociate(b, 2, Two(y - x - 1));
    MulAssociate(2, b, Two(y - x - 1));
  }

  lemma FiveBounds(n: nat)
    ensures Pow(5, n) < HIDDEN_BIT || Pow(5, n) >= 2 * HIDDEN_BIT
  {
    hide Pow;
    FivePowers();
    PowOneFive();
    PowAdd(5, 13, 9);
    PowAdd(5, 22, 1);
    if n <= 22 { PowMonotone(5, n, 22); } else { PowMonotone(5, 23, n); }
  }

  lemma PowOneFive()
    ensures Pow(5, 1) == 5 && Pow(5, 9) == 1953125
  {
    assert Pow(5, 1) == 5 && Pow(5, 2) == 25;
    PowAdd(5, 2, 2);
    PowAdd(5, 4, 4);
    PowAdd(5, 8, 1);
  }

  lemma OddIsNoPowerOfTen(d64: nat, k: int)
    requires 0 < d64 < INFINITY && d64 % 2 == 1
    ensures Units(d64) * TenDown(k) != TenUp(k) * Two(UNIT)
  {
    hide Two, Pow, Significand, Exponent;
    Ranges(d64);
    UnitsIs(d64);
    TenIs();
    var f, e := Significand(d64), Exponent(d64);
    if Units(d64) * TenDown(k) == TenUp(k) * Two(UNIT) {
      if k >= 0 {
        FivesAndTwos(k);
        TwoAdd(k, UNIT);
        MulAssociate(Pow(5, k), Two(k), Two(UNIT));
        FiveOdd(k);
        SameOddPart(f, e + UNIT, Pow(5, k), k + UNIT);
        FiveBounds(k);
      } else {
        TenFactor(Units(d64), 0 - k);
        TwoNotFive(UNIT);
      }
    }
  }

  lemma TenFactor(x: nat, n: nat)
    requires n > 0
    ensures x * Pow10(n) % 5 == 0
  {
    TenSucc(n - 1);
    MulAssociate(x, 10, Pow10(n - 1));
    MulAssociate(10, x, Pow10(n - 1));
    DivModUnique(x * Pow10(n), 5, 2 * (x * Pow10(n - 1)), 0);
  }

  // ----- the scaled value -----

  /** With the deltas left at zero, FixupMultiply10 brings the value itself below 10; an odd
      significand, for which it compares strictly, is never exactly on the border. */
  lemma ValueFixedUp(n: nat, d: nat, d64: nat, estimate: int, in_range: bool)
    requires 0 < d64 < INFINITY && EstimateOk(d64, estimate) && d > 0 && Scaled(n, Units(d64), d, estimate)
    requires in_range == if d64 % 2 == 0 then n >= d else n > d
    ensures
      var f, e := if in_range then 1 else 10, if in_range then estimate else estimate - 1;
      d <= f * n < 10 * d && Scaled(f * n, Units(d64), d, e)
  {
    hide TenUp, TenDown, Two, Scaled, Units, Upper, Lower;
    Ordered(d64);
    TenIs();
    ScaledTimes(10, n, Units(d64), d, estimate);
    CompareScaled(10 * n, 10 * Units(d64), d, estimate, 1, 1, estimate);
    MulLess(Units(d64), Upper(d64), TenDown(estimate));
    CompareScaled(n, Units(d64), d, estimate, 1, 10, estimate);
    CompareScaled(n, Units(d64), d, estimate, 1, 1, estimate);
    if d64 % 2 == 1 { OddIsNoPowerOfTen(d64, estimate); }
    if !in_range { ScaledTen(n, Units(d64), d, estimate); }
  }

  /** The value as one bignum over another, one digit before the point. */
  method ScaledValue(d64: uint64, estimated_power: int, numerator: Bignum, denominator: Bignum,
      delta_minus: Bignum, delta_plus: Bignum) returns (decimal_point: int)
    requires 0 < d64 < INFINITY && EstimateOk(d64, estimated_power)
    requires Objects(numerator, denominator, delta_minus, delta_plus)
    requires delta_minus.Value() == 0 && delta_plus.Value() == 0
    modifies numerator, numerator.bigits, denominator, denominator.bigits
    modifies delta_minus, delta_minus.bigits, delta_plus, delta_plus.bigits
    ensures Objects(numerator, denominator, delta_minus, delta_plus)
    ensures estimated_power <= decimal_point <= estimated_power + 1
    ensures
      var n, d := numerator.Value(), denominator.Value();
      && PowerProduct(d, if estimated_power > 0 then estimated_power else 0)
      && Scaled(n, Units(d64), d, decimal_point - 1) && d <= n < 10 * d && 1000 * d < P(CAPACITY)
  {
    hide P, Pow10, Two, Scaled, EstimateOk, Units, Boundaries, Narrow, PowerProduct;
    hide Bignum.Value, Bignum.Valid, Bignum.Clamped;
    EstimateRange(d64, estimated_power);
    Ranges(d64);
    var significand, exponent := Significand(d64), Exponent(d64);
    var is_even := significand % 2 == 0;
    InitialScaledStartValues(d64, significand, exponent, LowerBoundaryIsCloser(d64), estimated_power, false,
                             numerator, denominator, delta_minus, delta_plus);
    ghost var n, d := numerator.Value(), denominator.Value();
    TwoMonotone(2620, 2900);
    Room(d);
    ValueFixedUp(n, d, d64, estimated_power, if is_even then n >= d else n > d);
    decimal_point := FixupMultiply10(estimated_power, is_even, numerator, denominator, delta_minus, delta_plus);
  }

  // ----- fixed mode -----

  /** Equal fractions round alike. */
  lemma RoundCross(v: int, a: int, b: int, x: int, y: int)
    requires b > 0 && y > 0 && a * y == x * b && RoundedHalfUp(v, a, b)
    ensures RoundedHalfUp(v, x, y)
  {
    RoundScale(v, a, b, y);
    RoundScale(v, x, y, b);
  }

  /** 10^places == 10^e * 10^digits, as fractions. */
  lemma PlacesBalance(e: int, places: int, digits: int)
    requires places == e + digits
    ensures (TenDown(e) * TenUp(places)) * TenDown(digits) == (TenUp(e) * TenUp(digits)) * TenDown(places)
  {
    hide Pow;
    PowNone(10);
    if e >= 0 && digits >= 0 {
      PowAdd(10, e, digits);
    } else if e >= 0 && places >= 0 {
      PowAdd(10, places, 0 - digits);
    } else if e >= 0 {
      PowAdd(10, e, 0 - places);
    } else if digits < 0 {
      PowAdd(10, 0 - e, 0 - digits);
    } else if places >= 0 {
      PowAdd(10, 0 - e, places);
    } else {
      PowAdd(10, digits, 0 - places);
    }
  }

  /** n / d * 10^places and units * 10^digits / 2^UNIT are the same fraction. */
  lemma SameFraction(n: nat, U: nat, d: nat, e: int, places: int, digits: int)
    requires Scaled(n, U, d, e) && d > 0 && places == e + digits
    ensures (n * TenUp(places)) * (Two(UNIT) * TenDown(digits)) == (U * TenUp(digits)) * (d * TenDown(places))
  {
    hide TenUp, TenDown, Pow10, Two;
    var eu, ed, pu, pd, t, gu, gd := TenUp(e), TenDown(e), TenUp(places), TenDown(places), Two(UNIT), TenUp(digits), TenDown(digits);
    PlacesBalance(e, places, digits);
    MulLess((n * pu) * (t * gd), (U * gu) * (d * pd), eu);
    calc {
      ((n * pu) * (t * gd)) * eu;
      { Regroup(n, pu, t, gd); MulAssociate(n * t, pu * gd, eu); MulAssociate(n, t, eu); MulAssociate(pu * gd, n * t, eu); }
      (n * (eu * t)) * (pu * gd);
      (U * (ed * d)) * (pu * gd);
      { Regroup4(U, ed, d, pu, gd); }
      (U * d) * ((ed * pu) * gd);
      (U * d) * ((eu * gu) * pd);
      { MulAssociate(eu, gu, pd); MulAssociate(U * d, eu, gu * pd); MulAssociate(eu, U * d, gu * pd); Regroup(U, d, gu, pd); }
      ((U * gu) * (d * pd)) * eu;
    }
  }

  lemma FixedIsExact(d64: nat, s: seq<char>, decimal_point: int, n: nat, d: nat, e: int, digits: nat)
    requires d64 < INFINITY && Scaled(n, Units(d64), d, e) && d > 0 && AllDigits(s)
    requires s != [] ==> decimal_point + digits >= |s|
    requires ExactFixed(s, decimal_point + digits - |s|, n, d, e + digits)
    ensures FixedFor(d64, s, decimal_point, digits)
  {
    hide Two, Pow10, Units, Scaled, Dec;
    var places := e + digits;
    SameFraction(n, Units(d64), d, e, places, digits);
    TenIs();
    MulPositive(d, TenDown(places));
    assert TenUp(digits) == Pow10(digits) && TenDown(digits) == 1;
    RoundCross(Denoted(s, decimal_point, digits), n * TenUp(places), d * TenDown(places),
               Units(d64) * Pow10(digits), Two(UNIT));
  }

  /** Far too small a number for the requested digits. */
  lemma TooSmallFixed(d64: nat, estimate: int, digits: nat, s: seq<char>, decimal_point: int)
    requires 0 < d64 < INFINITY && EstimateOk(d64, estimate) && -estimate - 1 > digits && s == []
    ensures FixedFor(d64, s, decimal_point, digits)
  {
    hide Two, Pow10, Units, Upper;
    Ordered(d64);
    TenIs();
    var u, t := Units(d64), Two(UNIT);
    TenMonotone(digits + 2, 0 - estimate);
    TenSucc(digits);
    TenSucc(digits + 1);
    MulMonotone(u, Pow10(digits + 2), Upper(d64), TenDown(estimate));
    MulAssociate(u, 10, Pow10(digits + 1));
    MulAssociate(10, u, Pow10(digits + 1));
    MulAssociate(u, 10, Pow10(digits));
    MulAssociate(10, u, Pow10(digits));
  }

  /** BignumDtoa in fixed mode: the double rounded half-up at requested_digits places. */
  method BignumDtoaFixed(d64: uint64, estimated_power: int, requested_digits: nat, buffer: array<char>)
      returns (length: nat, decimal_point: int)
    requires 0 < d64 < INFINITY && EstimateOk(d64, estimated_power)
    requires buffer.Length >= 1 && estimated_power + 1 + requested_digits <= buffer.Length
    modifies buffer
    ensures length <= buffer.Length && FixedFor(d64, buffer[..length], decimal_point, requested_digits)
    ensures StartsRight(buffer[..length], decimal_point, requested_digits)
  {
    hide P, Pow10, Two, Scaled, EstimateOk, Units, Dec, ExactFixed, FixedFor;
    hide Bignum.Value, Bignum.Valid, Bignum.Clamped;
    if -estimated_power - 1 > requested_digits {
      TooSmallFixed(d64, estimated_power, requested_digits, buffer[..0], 0 - requested_digits);
      return 0, 0 - requested_digits;
    }
    var numerator := new Bignum();
    var denominator := new Bignum();
    var delta_minus := new Bignum();
    var delta_plus := new Bignum();
    var point := ScaledValue(d64, estimated_power, numerator, denominator, delta_minus, delta_plus);
    ghost var n, d := numerator.Value(), denominator.Value();
    length, decimal_point := BignumToFixed(requested_digits, point, numerator, denominator, buffer);
    FixedIsExact(d64, buffer[..length], decimal_point, n, d, point - 1, requested_digits);
  }

  // ----- agreement -----

  /** Rounding half-up is a function. */
  lemma RoundedOnce(v: int, w: int, a: int, b: int)
    requires b > 0 && RoundedHalfUp(v, a, b) && RoundedHalfUp(w, a, b)
    ensures v == w
  {
    if v < w { MulGap(2 * v, 2 * w - 1, b); MulDistribute(2 * w, 1, b); }
    if w < v { MulGap(2 * w, 2 * v - 1, b); MulDistribute(2 * v, 1, b); }
  }

  /** The fast and the exact conversion have the same point and the same digits, but for zeros at the
      end. */
  lemma FixedAgree(d64: nat, places: nat, s: seq<char>, p: int, t: seq<char>, q: int)
    requires d64 < INFINITY && FixedFor(d64, s, p, places) && FixedFor(d64, t, q, places)
    requires StartsRight(s, p, places) && StartsRight(t, q, places)
    ensures p == q && forall i: nat :: PaddedAt(s, i) == PaddedAt(t, i)
  {
    hide Two, Pow10, Denoted, Units, Dec;
    RoundedOnce(Denoted(s, p, places), Denoted(t, q, places), Units(d64) * Pow10(places), Two(UNIT));
    var m, n := p + places - |s|, q + places - |t|;
    if s != [] { PaddedDenotes(s, p, places); }
    if t != [] { PaddedDenotes(t, q, places); }
    if s == [] || t == [] {
      if s == [] { EmptyDenotes(s, p, places); }
      if t == [] { EmptyDenotes(t, q, places); }
    } else {
      var a, b := s + seq(m, i => '0'), t + seq(n, i => '0');
      SameLength(a, b);
      DecInjective(a, b);
      forall i: nat ensures PaddedAt(s, i) == PaddedAt(t, i) {
        if i < |a| { assert a[i] == PaddedAt(s, i) && b[i] == PaddedAt(t, i); }
      }
    }
  }

  function PaddedAt(s: seq<char>, i: nat): char {
    if i < |s| then s[i] else '0'
  }

  lemma EmptyDenotes(s: seq<char>, p: int, places: nat)
    requires s == []
    ensures Denoted(s, p, places) == 0
  {}

  lemma PaddedDenotes(s: seq<char>, p: int, places: nat)
    requires AllDigits(s) && s != [] && s[0] != '0' && p + places >= |s|
    ensures
      var padded := s + seq(p + places - |s|, i => '0');
      && AllDigits(padded) && Denoted(s, p, places) == Dec(padded) > 0
  {
    hide Dec, Pow10;
    var tail := seq(p + places - |s|, i => '0');
    DecConcat(s, tail);
    DecZeros(tail);
    DecLeading(s + tail);
  }

  // ----- precision mode -----

  /** The digits are the double rounded half-up to |s| significant digits: at the place that is |s|
      below the value's own order p, whether or not the rounding carried into a new digit. */
  ghost predicate PrecisionFor(d64: nat, s: seq<char>, decimal_point: int, p: int)
    requires d64 < INFINITY
  {
    && AllDigits(s) && s != [] && s[0] != '0' && p <= decimal_point <= p + 1
    && TenUp(p - 1) * Two(UNIT) <= Units(d64) * TenDown(p - 1)
    && Units(d64) * TenDown(p) < TenUp(p) * Two(UNIT)
    && RoundedHalfUp(Dec(s) * (if decimal_point == p then 1 else 10),
         Units(d64) * TenUp(|s| - p), Two(UNIT) * TenDown(|s| - p))
  }

  /** BignumDtoa in precision mode. */
  method BignumDtoaPrecision(d64: uint64, estimated_power: int, requested_digits: nat, buffer: array<char>)
      returns (length: nat, decimal_point: int, ghost p: int)
    requires 0 < d64 < INFINITY && EstimateOk(d64, estimated_power)
    requires 0 < requested_digits <= buffer.Length
    modifies buffer
    ensures length == requested_digits && PrecisionFor(d64, buffer[..length], decimal_point, p)
  {
    hide P, Pow10, Two, Scaled, EstimateOk, Units, Dec, RoundedHalfUp;
    hide Bignum.Value, Bignum.Valid, Bignum.Clamped;
    var numerator := new Bignum();
    var denominator := new Bignum();
    var delta_minus := new Bignum();
    var delta_plus := new Bignum();
    var point := ScaledValue(d64, estimated_power, numerator, denominator, delta_minus, delta_plus);
    ghost var n, d := numerator.Value(), denominator.Value();
    length, decimal_point := GenerateCountedDigits(requested_digits, point, numerator, denominator, buffer);
    p := point;
    CountedIsPrecision(d64, buffer[..length], decimal_point, point, n, d);
  }

  lemma CountedIsPrecision(d64: nat, s: seq<char>, decimal_point: int, p: int, n: nat, d: nat)
    requires d64 < INFINITY && Scaled(n, Units(d64), d, p - 1) && d <= n < 10 * d && 0 < d
    requires AllDigits(s) && s != [] && s[0] != '0' && p <= decimal_point <= p + 1
    requires RoundedHalfUp(Dec(s) * (if decimal_point == p then 1 else 10), n * Pow10(|s| - 1), d)
    ensures PrecisionFor(d64, s, decimal_point, p)
  {
    hide Two, Pow10, Units, Scaled, Dec, TenUp, TenDown, RoundedHalfUp;
    TenIs();
    CompareScaled(n, Units(d64), d, p - 1, 1, 1, p - 1);
    CompareScaled(n, Units(d64), d, p - 1, 1, 10, p - 1);
    TenTimesOrder(Units(d64), p, Two(UNIT));
    SameFraction(n, Units(d64), d, p - 1, |s| - 1, |s| - p);
    PositivePlaces(|s| - 1);
    MulPositive(d, TenDown(|s| - 1));
    MulPositive(Two(UNIT), TenDown(|s| - p));
    RoundCross(Dec(s) * (if decimal_point == p then 1 else 10), n * TenUp(|s| - 1), d * TenDown(|s| - 1),
               Units(d64) * TenUp(|s| - p), Two(UNIT) * TenDown(|s| - p));
  }

  lemma PositivePlaces(n: nat)
    ensures TenUp(n) == Pow10(n) && TenDown(n) == 1
  {
    TenIs();
  }

  lemma TenTimesOrder(u: nat, p: int, t: nat)
    ensures u * TenDown(p - 1) < 10 * (TenUp(p - 1) * t) <==> u * TenDown(p) < TenUp(p) * t
  {
    hide Pow;
    TenIs();
    if p >= 1 {
      TenSucc(p - 1);
      MulAssociate(10, TenUp(p - 1), t);
    } else {
      TenSucc(0 - p);
      MulAssociate(u, 10, TenDown(p));
      MulAssociate(10, u, TenDown(p));
    }
  }
}
