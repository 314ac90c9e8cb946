/** The shortest decimal digits of a double (BignumDtoa in shortest mode), from its 64-bit word to
    the digit buffer. */
module DoubleDtoa {
  import opened Words
  import opened Bigits
  import opened Bignums
  import opened BignumArithmetic
  import opened Decimal
  import opened Ieee
  import opened Powers
  import opened ShortestDigits
  import opened BignumDtoa
  import opened ScaledStart

  /** The decimal s * 10^k rounds to the double. */
  ghost predicate DecimalRoundsTo(d64: nat, s: nat, k: int) {
    RoundsTo(d64, s * (TenUp(k) * Two(UNIT)), TenDown(k))
  }

  /** How far the decimal t * 10^k is from the double, in a common scale. */
  ghost function Distance(d64: nat, t: nat, k: int): int
    requires d64 < INFINITY
  {
    Abs(t * (TenUp(k) * Two(UNIT)) - Units(d64) * TenDown(k))
  }

  /** s * 10^k reads back as the double; no decimal with fewer digits does; and of those with as
      many digits that do, s is the nearest, ties going to the even one. */
  ghost predicate ShortestFor(d64: nat, s: nat, k: int)
    requires d64 < INFINITY
  {
    && DecimalRoundsTo(d64, s, k)
    && (forall t: nat :: !TensRoundTo(d64, t, k))
    && (forall t: nat :: DecimalRoundsTo(d64, t, k) ==> NearerFor(d64, s, t, k))
  }

  ghost predicate TensRoundTo(d64: nat, t: nat, k: int) {
    DecimalRoundsTo(d64, 10 * t, k)
  }

  ghost predicate NearerFor(d64: nat, s: nat, t: nat, k: int)
    requires d64 < INFINITY
  {
    && Distance(d64, s, k) <= Distance(d64, t, k)
    && (Distance(d64, s, k) == Distance(d64, t, k) ==> s == t || s % 2 == 0)
  }

  /** The value and the distances to its boundaries, over d and divided by 10^e. */
  ghost predicate Boundaries(n: nat, d: nat, dm: nat, dp: nat, d64: nat, e: int)
    requires 0 < d64 < INFINITY
  {
    && Scaled(n, Units(d64), d, e)
    && Scaled(dp, Upper(d64) - Units(d64), d, e)
    && Scaled(dm, Units(d64) - Lower(d64), d, e)
  }

  /** Enough digits for a double: seventeen. */
  ghost predicate Narrow(n: nat, dm: nat, dp: nat) {
    n + dp < (dm + dp) * 1_0000_0000_0000_0000
  }

  method InitialScaledStartValues(ghost d64: nat, significand: uint64, exponent: int,
      lower_boundary_is_closer: bool, estimated_power: int, need_boundary_deltas: bool,
      numerator: Bignum, denominator: Bignum, delta_minus: Bignum, delta_plus: Bignum)
    requires Objects(numerator, denominator, delta_minus, delta_plus)
    requires 0 < d64 < INFINITY && significand == Significand(d64) && exponent == Exponent(d64)
    requires lower_boundary_is_closer == LowerBoundaryIsCloser(d64)
    requires -MAX_POWER <= estimated_power <= MAX_POWER && (exponent >= 0 ==> estimated_power >= 0)
    modifies numerator, numerator.bigits, denominator, denominator.bigits
    modifies delta_minus, delta_minus.bigits, delta_plus, delta_plus.bigits
    ensures Objects(numerator, denominator, delta_minus, delta_plus)
    ensures 0 < denominator.Value() <= Two(2620) && numerator.Value() <= Two(2620)
    ensures PowerProduct(denominator.Value(), if estimated_power > 0 then estimated_power else 0)
    ensures need_boundary_deltas ==>
      && Boundaries(numerator.Value(), denominator.Value(), delta_minus.Value(), delta_plus.Value(), d64, estimated_power)
      && Narrow(numerator.Value(), delta_minus.Value(), delta_plus.Value())
      && 0 < delta_minus.Value() < numerator.Value() && 0 < delta_plus.Value() <= Two(2620)
    ensures !need_boundary_deltas ==>
      && Scaled(numerator.Value(), Units(d64), denominator.Value(), estimated_power)
      && delta_minus.Value() == old(delta_minus.Value()) && delta_plus.Value() == old(delta_plus.Value())
  {
    hide P, Eval, Pow, Two, Started, Scaled, Boundaries, Narrow, Units, Upper, Lower, PowerProduct;
    hide Bignum.Value, Bignum.Valid, Bignum.Clamped;
    ghost var k;
    Ranges(d64);
    if exponent >= 0 {
      k := InitialPositiveExponent(significand, exponent, estimated_power, need_boundary_deltas,
             numerator, denominator, delta_minus, delta_plus);
    } else if estimated_power >= 0 {
      k := InitialNegativeExponentPositivePower(significand, exponent, estimated_power, need_boundary_deltas,
             numerator, denominator, delta_minus, delta_plus);
    } else {
      k := InitialNegativeExponentNegativePower(significand, exponent, estimated_power, need_boundary_deltas,
             numerator, denominator, delta_minus, delta_plus);
    }
    ghost var n, d := numerator.Value(), denominator.Value();
    StartRoom(n, d, k, significand, exponent, estimated_power, need_boundary_deltas);
    StartedBoundaries(n, d, k, d64, estimated_power, need_boundary_deltas);
    StartedProduct(n, d, k, significand, exponent, estimated_power, need_boundary_deltas);
    if need_boundary_deltas && lower_boundary_is_closer {
      denominator.Double();
      numerator.Double();
      delta_plus.Double();
    }
  }

  lemma StartedProduct(n: nat, d: nat, k: nat, f: nat, e: int, estimate: int, need: bool)
    requires e >= DENORMAL_EXPONENT && Started(n, d, k, f, e, estimate, need)
    ensures
      var p := if estimate > 0 then estimate else 0;
      PowerProduct(d, p) && PowerProduct(d * 2, p)
  {
    hide Two, Pow, PowerProduct;
    TimesTwo(d, if estimate > 0 then estimate else 0);
  }

  lemma StartRoom(n: nat, d: nat, k: nat, f: nat, e: int, estimate: int, need: bool)
    requires e >= DENORMAL_EXPONENT && f < 2 * HIDDEN_BIT && Started(n, d, k, f, e, estimate, need)
    ensures 0 < d && 2 * d <= Two(2620) && 2 * n <= Two(2620) && 2 * k <= Two(2620)
    ensures d < P(CAPACITY - 1) && n < P(CAPACITY - 1) && k < P(CAPACITY - 1)
  {
    hide P, Two, Pow, PowerProduct;
    SignificandBits(f);
    TwoBound(53, 2560, f, k);
    if need { MulAssociate(2, f, k); }
    TwoSucc(2613);
    TwoMonotone(2614, 2619);
    TwoSucc(2619);
    TwoMonotone(2600, 2619);
    TwoMonotone(2560, 2619);
    TwoMonotone(2619, 2900);
    Room(d);
    Room(n);
    Room(k);
  }

  lemma StartedBoundaries(n: nat, d: nat, k: nat, d64: nat, estimate: int, need: bool)
    requires 0 < d64 < INFINITY
    requires Started(n, d, k, Significand(d64), Exponent(d64), estimate, need)
    ensures need && !LowerBoundaryIsCloser(d64) ==>
      Boundaries(n, d, k, k, d64, estimate) && Narrow(n, k, k) && 0 < k < n
    ensures need && LowerBoundaryIsCloser(d64) ==>
      Boundaries(n * 2, d * 2, k, k * 2, d64, estimate) && Narrow(n * 2, k, k * 2) && 0 < k < n * 2
    ensures !need ==> Scaled(n, Units(d64), d, estimate)
  {
    hide Two, Pow, TenUp, TenDown, Scaled, Units, Upper, Lower, PowerProduct;
    Ranges(d64);
    var f, e := Significand(d64), Exponent(d64);
    UnitPositive(k, Two(e + HalfUnit(need)), d, estimate);
    if need {
      var h := Two(e + 1074);
      UnitSizes(d64);
      ScaledTimes(2 * f, k, h, d, estimate);
      MulLess(2 * f, 2 * f + 1, k);
      NarrowProduct(f, k);
      if LowerBoundaryIsCloser(d64) {
        TwoSucc(e + 1073);
        var q := Two(e + 1073);
        ScaledDouble(k, q, d, estimate);
        ScaledTimes(2, k, q, 2 * d, estimate);
        ScaledTimes(4 * f, k, q, 2 * d, estimate);
        MulAssociate(2, 2 * f, k);
        MulLess(1, 4 * f, k);
      } else {
        MulLess(1, 2 * f, k);
      }
    } else {
      UnitSizes(d64);
      ScaledTimes(f, k, Two(e + UNIT), d, estimate);
    }
  }

  lemma UnitPositive(k: nat, x: nat, d: nat, e: int)
    requires x > 0 && d > 0 && Scaled(k, x, d, e)
    ensures k > 0
  {
    MulPositive(TenDown(e), d);
    MulPositive(x, TenDown(e) * d);
    MulZero(TenUp(e) * Two(UNIT));
  }

  lemma NarrowProduct(f: nat, k: nat)
    requires 0 < f < 2 * HIDDEN_BIT && k > 0
    ensures Narrow((2 * f) * k, k, k)
    ensures f == HIDDEN_BIT ==> Narrow((2 * f) * k * 2, k, k * 2)
  {
    MulLess(2 * f + 1, 2_0000_0000_0000_0000, k);
    MulDistribute(2 * f, 1, k);
  }

  /** The three magnitudes in terms of half a unit, or a quarter where the lower boundary is closer. */
  lemma UnitSizes(d64: nat)
    requires 0 < d64 < INFINITY
    ensures
      var f, e := Significand(d64), Exponent(d64);
      && Units(d64) == f * Two(e + UNIT) == (2 * f) * Two(e + 1074)
      && Upper(d64) - Units(d64) == Two(e + 1074)
      && (!LowerBoundaryIsCloser(d64) ==> Units(d64) - Lower(d64) == Two(e + 1074))
      && (LowerBoundaryIsCloser(d64) ==>
            Units(d64) == (4 * f) * Two(e + 1073) && Units(d64) - Lower(d64) == Two(e + 1073))
  {
    hide Two;
    Ranges(d64);
    var f, e := Significand(d64), Exponent(d64);
    TwoSucc(e + 1074);
    MulAssociate(f, 2, Two(e + 1074));
    MulDistribute(2 * f, 1, Two(e + 1074));
    if LowerBoundaryIsCloser(d64) {
      TwoSucc(e + 1073);
      MulAssociate(2 * f, 2, Two(e + 1073));
      MulDistribute(4 * f, 1, Two(e + 1073));
    }
  }

  /** Brings (numerator + delta_plus) / denominator into the range of one digit before the point. */
  method FixupMultiply10(estimated_power: int, is_even: bool,
      numerator: Bignum, denominator: Bignum, delta_minus: Bignum, delta_plus: Bignum) returns (decimal_point: int)
    requires Objects(numerator, denominator, delta_minus, delta_plus)
    requires numerator.Value() <= Two(2620) && delta_minus.Value() <= Two(2620) && delta_plus.Value() <= Two(2620)
    modifies numerator, numerator.bigits, delta_minus, delta_minus.bigits, delta_plus, delta_plus.bigits
    ensures Objects(numerator, denominator, delta_minus, delta_plus)
    ensures
      var in_range := old(if is_even then numerator.Value() + delta_plus.Value() >= denominator.Value()
                          else numerator.Value() + delta_plus.Value() > denominator.Value());
      var factor := if in_range then 1 else 10;
      && decimal_point == estimated_power + (if in_range then 1 else 0)
      && numerator.Value() == factor * old(numerator.Value())
      && delta_minus.Value() == factor * old(delta_minus.Value())
      && delta_plus.Value() == factor * old(delta_plus.Value())
  {
    hide P, Eval, Pow, Two, Bignum.Value, Bignum.Valid, Bignum.Clamped;
    TwoMonotone(2620, 2900);
    Room(numerator.Value());
    Room(delta_minus.Value());
    Room(delta_plus.Value());
    var compare := Bignum.PlusCompare(numerator, delta_plus, denominator);
    var in_range := if is_even then compare >= 0 else compare > 0;
    if in_range {
      decimal_point := estimated_power + 1;
    } else {
      decimal_point := estimated_power;
      numerator.Times10();
      var same := Bignum.Equal(delta_minus, delta_plus);
      delta_minus.Times10();
      if same {
        delta_plus.AssignBignum(delta_minus);
      } else {
        delta_plus.Times10();
      }
    }
  }

  /** A quotient x / d that stands for X units over 10^e compares with t / L as X units do with
      t * 10^k, if 10^e = 10^k * L. */
  lemma CompareScaled(x: nat, X: nat, d: nat, e: int, L: nat, t: nat, k: int)
    requires Scaled(x, X, d, e) && d > 0 && e >= k && L == Pow10(e - k)
    ensures x * L < t * d <==> X * TenDown(k) < t * (TenUp(k) * Two(UNIT))
    ensures x * L == t * d <==> X * TenDown(k) == t * (TenUp(k) * Two(UNIT))
  {
    hide Two, TenUp, TenDown, Pow10;
    TenShift(e, k, L);
    CompareCross(x, X, d, TenUp(e), TenDown(e), L, t, TenUp(k), TenDown(k), Two(UNIT));
  }

  /** 10^e = 10^k * L, as fractions. */
  lemma TenShift(e: int, k: int, L: nat)
    requires e >= k && L == Pow10(e - k)
    ensures TenUp(e) * TenDown(k) == (TenDown(e) * L) * TenUp(k)
  {
    PowNone(10);
    if k >= 0 {
      PowAdd(10, e - k, k);
    } else if e >= 0 {
      PowAdd(10, e, -k);
    } else {
      PowAdd(10, -e, e - k);
    }
  }

  lemma CompareCross(x: nat, X: nat, d: nat, ue: nat, de: nat, L: nat, t: nat, uk: nat, dk: nat, U: nat)
    requires x * (ue * U) == X * (de * d) && ue * dk == (de * L) * uk
    requires d > 0 && ue > 0 && de > 0 && L > 0 && uk > 0 && dk > 0 && U > 0
    ensures x * L < t * d <==> X * dk < t * (uk * U)
    ensures x * L == t * d <==> X * dk == t * (uk * U)
  {
    // Both comparisons, multiplied by a common positive factor.
    var left, right := (ue * U) * uk, ue * d;
    MulPositive(ue, U);
    MulPositive(ue * U, uk);
    MulPositive(ue, d);
    MulLess(x * L, t * d, left);
    MulLess(X * dk, t * (uk * U), right);
    CrossFirst(x, X, d, ue, de, L, uk, dk, U);
    CrossSecond(d, ue, t, uk, U);
  }

  lemma CrossFirst(x: nat, X: nat, d: nat, ue: nat, de: nat, L: nat, uk: nat, dk: nat, U: nat)
    requires x * (ue * U) == X * (de * d) && ue * dk == (de * L) * uk
    ensures (x * L) * ((ue * U) * uk) == (X * dk) * (ue * d)
  {
    calc {
      (x * L) * ((ue * U) * uk);
      { Regroup(x, L, ue * U, uk); }
      (x * (ue * U)) * (L * uk);
      (X * (de * d)) * (L * uk);
      { Regroup4(X, de, d, L, uk); }
      (X * d) * ((de * L) * uk);
      (X * d) * (ue * dk);
      { Regroup(X, d, ue, dk); MulAssociate(X, ue, dk * d); Regroup(X, dk, ue, d); }
      (X * dk) * (ue * d);
    }
  }

  lemma CrossSecond(d: nat, ue: nat, t: nat, uk: nat, U: nat)
    ensures (t * d) * ((ue * U) * uk) == (t * (uk * U)) * (ue * d)
  {
    Regroup4(t, d, ue, U, uk);
    Regroup4(t, uk, U, ue, d);
    calc {
      (t * d) * ((ue * U) * uk);
      { MulAssociate(t, d, (ue * U) * uk); }
      t * (d * ((ue * U) * uk));
      { Regroup5(d, ue, U, uk); }
      t * ((uk * U) * (ue * d));
      { MulAssociate(t, uk * U, ue * d); }
      (t * (uk * U)) * (ue * d);
    }
  }

  lemma Regroup(a: int, b: int, c: int, d: int)
    ensures (a * b) * (c * d) == (a * c) * (b * d)
  {
    MulAssociate(a, b, c * d);
    MulAssociate(b, c, d);
    MulAssociate(c, b, d);
    MulAssociate(a, c, b * d);
  }

  lemma Regroup4(x: int, a: int, d: int, l: int, u: int)
    ensures (x * (a * d)) * (l * u) == (x * d) * ((a * l) * u)
  {
    calc {
      (x * (a * d)) * (l * u);
      { MulAssociate(x, a * d, l * u); }
      x * ((a * d) * (l * u));
      { Regroup(d, a, l, u); MulAssociate(d, l, a * u); Regroup(a, d, l, u); MulAssociate(d, a * l, u); Regroup5(a, d, l, u); }
      x * (d * ((a * l) * u));
      { MulAssociate(x, d, (a * l) * u); }
      (x * d) * ((a * l) * u);
    }
  }

  lemma Regroup5(d: int, e: int, u: int, k: int)
    ensures d * ((e * u) * k) == (k * u) * (e * d)
    ensures (d * e) * (u * k) == e * ((d * u) * k)
  {
    MulAssociate(d, e * u, k);
    MulAssociate(d, e, u);
    MulAssociate(d * e, u, k);
    MulAssociate(e * d, u, k);
    MulAssociate(e, d, u * k);
    MulAssociate(d, u, k);
  }

  /** Distances from n / d and from the double are proportional. */
  lemma DistanceProportional(x: nat, d: nat, e: int, L: nat, t: nat, k: int, d64: nat)
    requires 0 < d64 < INFINITY && Scaled(x, Units(d64), d, e) && d > 0 && e >= k && L == Pow10(e - k)
    ensures 0 < (TenUp(e) * Two(UNIT)) * TenUp(k) && 0 < TenUp(e) * d
    ensures Abs(t * d - x * L) * ((TenUp(e) * Two(UNIT)) * TenUp(k)) == Distance(d64, t, k) * (TenUp(e) * d)
  {
    hide Two, TenUp, TenDown, Pow10, Units;
    var ue, uk, U, dk := TenUp(e), TenUp(k), Two(UNIT), TenDown(k);
    MulPositive(ue, U);
    MulPositive(ue * U, uk);
    MulPositive(ue, d);
    TenShift(e, k, L);
    CrossFirst(x, Units(d64), d, ue, TenDown(e), L, uk, dk, U);
    CrossSecond(d, ue, t, uk, U);
    AbsScaled(t * d, x * L, (ue * U) * uk, t * (uk * U), Units(d64) * dk, ue * d);
  }

  lemma AbsScaled(a: int, b: int, p: nat, c: int, e: int, q: nat)
    requires a * p == c * q && b * p == e * q && p > 0 && q > 0
    ensures Abs(a - b) * p == Abs(c - e) * q
  {
    MulDistribute(a, b, p);
    MulDistribute(c, e, q);
    MulLess(a, b, p);
    MulLess(c, e, q);
    MulDistribute(b, a, p);
    MulDistribute(e, c, q);
  }

  lemma ScaledSum(x: int, y: int, X: int, Y: int, d: nat, e: int)
    requires Scaled(x, X, d, e) && Scaled(y, Y, d, e)
    ensures Scaled(x + y, X + Y, d, e) && Scaled(x - y, X - Y, d, e)
  {
    hide TenUp, TenDown, Two;
    MulDistribute(x, y, TenUp(e) * Two(UNIT));
    MulDistribute(X, Y, TenDown(e) * d);
  }

  /** Lying in the interval of the digit generator is rounding to the double. */
  lemma InsideIsRounding(n: nat, d: nat, dm: nat, dp: nat, d64: nat, e: int, L: nat, t: nat, k: int)
    requires 0 < d64 < INFINITY && Boundaries(n, d, dm, dp, d64, e) && d > 0 && dm <= n
    requires e >= k && L == Pow10(e - k)
    ensures Inside(t, n * L, d, dm * L, dp * L, d64 % 2 == 0) <==> DecimalRoundsTo(d64, t, k)
  {
    hide TenUp, TenDown, Two, Scaled, Units, Upper, Lower, Pow10;
    Ordered(d64);
    ScaledSum(n, dp, Units(d64), Upper(d64) - Units(d64), d, e);
    ScaledSum(n, dm, Units(d64), Units(d64) - Lower(d64), d, e);
    CompareScaled(n + dp, Upper(d64), d, e, L, t, k);
    CompareScaled(n - dm, Lower(d64), d, e, L, t, k);
    MulDistribute(n, dp, L);
    MulDistribute(n, dm, L);
  }

  lemma ShortestIsBest(s: seq<char>, n: nat, d: nat, dm: nat, dp: nat, d64: nat, e: int)
    requires 0 < d64 < INFINITY && Boundaries(n, d, dm, dp, d64, e) && d > 0 && dm <= n
    requires Shortest(s, n, d, dm, dp, d64 % 2 == 0)
    ensures Dec(s) >= 0 && ShortestFor(d64, Dec(s), e + 1 - |s|)
  {
    hide Pow10, Dec, Boundaries, ShortestFor, Best;
    DecBounds(s);
    BestIsShortest(Dec(s), n, d, dm, dp, d64, e, Pow10(|s| - 1), e + 1 - |s|);
  }

  /** The best multiple of 10^k for the scaled interval is the best for the double. */
  lemma BestIsShortest(v: nat, n: nat, d: nat, dm: nat, dp: nat, d64: nat, e: int, L: nat, k: int)
    requires 0 < d64 < INFINITY && Boundaries(n, d, dm, dp, d64, e) && d > 0 && dm <= n
    requires e >= k && L == Pow10(e - k) && Best(v, n * L, d, dm * L, dp * L, d64 % 2 == 0)
    ensures ShortestFor(d64, v, k)
  {
    hide Pow, Pow10, Boundaries, RoundsTo, Inside, TenUp, TenDown, Units;
    var even := d64 % 2 == 0;
    InsideIsRounding(n, d, dm, dp, d64, e, L, v, k);
    forall t: nat ensures !TensRoundTo(d64, t, k) {
      InsideIsRounding(n, d, dm, dp, d64, e, L, 10 * t, k);
      assert !TensInside(t, n * L, d, dm * L, dp * L, even);
    }
    forall t: nat | DecimalRoundsTo(d64, t, k) ensures NearerFor(d64, v, t, k) {
      InsideIsRounding(n, d, dm, dp, d64, e, L, t, k);
      assert Nearer(v, t, n * L, d);
      NearerCarries(n, d, dm, dp, d64, e, L, v, t, k);
    }
  }

  lemma NearerCarries(n: nat, d: nat, dm: nat, dp: nat, d64: nat, e: int, L: nat, s: nat, t: nat, k: int)
    requires 0 < d64 < INFINITY && Boundaries(n, d, dm, dp, d64, e) && d > 0
    requires e >= k && L == Pow10(e - k) && Nearer(s, t, n * L, d)
    ensures NearerFor(d64, s, t, k)
  {
    hide Pow, Pow10, TenUp, TenDown, Units, Distance, Scaled, Two;
    DistanceProportional(n, d, e, L, s, k, d64);
    DistanceProportional(n, d, e, L, t, k, d64);
    var p, q := (TenUp(e) * Two(UNIT)) * TenUp(k), TenUp(e) * d;
    MulLess(Abs(s * d - n * L), Abs(t * d - n * L), p);
    MulLess(Distance(d64, s, k), Distance(d64, t, k), q);
  }

  /** After FixupMultiply10 the range the digit generator asks for holds. */
  lemma FixedUp(n: nat, d: nat, dm: nat, dp: nat, d64: nat, estimate: int, in_range: bool)
    requires 0 < d64 < INFINITY && EstimateOk(d64, estimate) && d > 0
    requires Boundaries(n, d, dm, dp, d64, estimate) && 0 < dm < n && 0 < dp
    requires in_range == if d64 % 2 == 0 then n + dp >= d else n + dp > d
    ensures
      var f := if in_range then 1 else 10;
      && InRange(f * n, d, f * dm, f * dp, d64 % 2 == 0)
      && Boundaries(f * n, d, f * dm, f * dp, d64, estimate - (if in_range then 0 else 1))
  {
    hide TenUp, TenDown, Two, Scaled, Units, Upper, Lower;
    Ordered(d64);
    PowNone(10);
    // value >= 10^(estimate - 1), so 10 * n >= d
    ScaledTimes(10, n, Units(d64), d, estimate);
    CompareScaled(10 * n, 10 * Units(d64), d, estimate, 1, 1, estimate);
    // upper boundary < 10^(estimate + 1), so n + dp < 10 * d
    ScaledSum(n, dp, Units(d64), Upper(d64) - Units(d64), d, estimate);
    CompareScaled(n + dp, Upper(d64), d, estimate, 1, 10, estimate);
    if !in_range {
      ScaledTen(n, Units(d64), d, estimate);
      ScaledTen(dm, Units(d64) - Lower(d64), d, estimate);
      ScaledTen(dp, Upper(d64) - Units(d64), d, estimate);
    }
  }

  /** The estimate of a double's power of ten is small, and not negative for exponents that are not. */
  lemma EstimateRange(d64: nat, estimate: int)
    requires 0 < d64 < INFINITY && EstimateOk(d64, estimate)
    ensures -MAX_POWER <= estimate <= MAX_POWER
    ensures Exponent(d64) >= 0 ==> estimate >= 0
  {
    hide Two, Units, Upper, Pow;
    UnitsRange(d64);
    Ordered(d64);
    TwoTen();
    if estimate > MAX_POWER {
      EightTen(estimate);
      TwoAdd(3 * estimate, UNIT);
      MulMonotone(Two(3 * estimate), Two(UNIT), TenUp(estimate), Two(UNIT));
      TwoAdd(2, 2);
      TwoAdd(4, 2099);
      TwoStrict(2103, 3 * estimate + UNIT);
      PowNone(10);
    }
    if estimate < 0 {
      EightTen(-estimate);
      PowNone(10);
      MulLess(1, Upper(d64), TenDown(estimate));
      MulMonotone(1, TenDown(estimate), Upper(d64), TenDown(estimate));
      if estimate < -MAX_POWER {
        TwoAdd(2, 2);
        TwoAdd(4, UNIT);
        TwoStrict(UNIT + 4, 3 * -estimate);
      } else if Exponent(d64) >= 0 {
        TenAtLeast(-estimate);
        MulMonotone(Two(UNIT), 10, Upper(d64), TenDown(estimate));
      }
    }
  }

  lemma TwoStrict(m: nat, n: nat)
    requires m < n
    ensures Two(m) < Two(n)
  {
    Pow2Less(m, n);
  }

  lemma TenAtLeast(n: nat)
    requires n > 0
    ensures Pow10(n) >= 10
  {
    PowOne(10);
    PowMonotone(10, 1, n);
  }

  lemma EightTen(n: nat)
    ensures Two(3 * n) <= Pow10(n)
  {
    assert Pow(2, 3) == 8;
    PowMul(2, 3, n);
    PowBaseMonotone(8, 10, n);
  }

  lemma UnitsRange(d64: nat)
    requires 0 < d64 < INFINITY
    ensures 0 < Units(d64) <= Two(2099)
    ensures Exponent(d64) >= 0 ==> Units(d64) >= Two(UNIT)
  {
    hide Two;
    Ranges(d64);
    SignificandBits(Significand(d64));
    var f, q := Significand(d64), Exponent(d64) + UNIT;
    TwoBound(53, q, f, Two(q));
    TwoMonotone(53 + q, 2099);
    MulPositive(f, Two(q));
    if Exponent(d64) >= 0 {
      TwoMonotone(UNIT, q);
      MulLess(1, f + 1, Two(q));
      MulMonotone(1, Two(UNIT), f, Two(q));
    }
  }

  /** The shortest digits of a positive finite double: buffer[..length] * 10^(decimal_point - length). */
  method BignumDtoaShortest(d64: uint64, estimated_power: int, buffer: array<char>)
      returns (length: nat, decimal_point: int)
    requires 0 < d64 < INFINITY && EstimateOk(d64, estimated_power)
    requires buffer.Length >= 17
    modifies buffer
    ensures 1 <= length <= 17 && AllDigits(buffer[..length]) && buffer[0] != '0'
    ensures Dec(buffer[..length]) >= 0 && ShortestFor(d64, Dec(buffer[..length]), decimal_point - length)
  {
    hide P, Pow10, Dec, Boundaries, EstimateOk, ShortestFor, InRange, PowerProduct, Two, Pow;
    hide Bignum.Value, Bignum.Valid, Bignum.Clamped;
    var is_even := Significand(d64) % 2 == 0;
    Ranges(d64);
    var numerator := new Bignum();
    var denominator := new Bignum();
    var delta_minus := new Bignum();
    var delta_plus := new Bignum();
    decimal_point := ScaledValues(d64, estimated_power, is_even, numerator, denominator, delta_minus, delta_plus);
    ghost var n, d, dm, dp := numerator.Value(), denominator.Value(), delta_minus.Value(), delta_plus.Value();
    length := GenerateShortestDigits(numerator, denominator, delta_minus, delta_plus, is_even, buffer, 17);
    ShortestIsBest(buffer[..length], n, d, dm, dp, d64, decimal_point - 1);
  }

  /** The value and its boundaries as bignums, with the first digit in front of the point. */
  method ScaledValues(d64: uint64, estimated_power: int, is_even: bool,
      numerator: Bignum, denominator: Bignum, delta_minus: Bignum, delta_plus: Bignum) returns (decimal_point: int)
    requires 0 < d64 < INFINITY && EstimateOk(d64, estimated_power) && (is_even <==> d64 % 2 == 0)
    requires Objects(numerator, denominator, delta_minus, delta_plus)
    modifies numerator, numerator.bigits, denominator, denominator.bigits
    modifies delta_minus, delta_minus.bigits, delta_plus, delta_plus.bigits
    ensures Objects(numerator, denominator, delta_minus, delta_plus)
    ensures
      var n, d, dm, dp := numerator.Value(), denominator.Value(), delta_minus.Value(), delta_plus.Value();
      && PowerProduct(d, if estimated_power > 0 then estimated_power else 0)
      && Boundaries(n, d, dm, dp, d64, decimal_point - 1) && InRange(n, d, dm, dp, is_even)
      && 0 < d && 10 * d < P(CAPACITY) && dm <= n && d < (dm + dp) * Pow10(16)
  {
    hide P, Pow10, Two, Boundaries, Narrow, EstimateOk, Units, Upper, Lower, PowerProduct;
    hide Bignum.Value, Bignum.Valid, Bignum.Clamped, InRange;
    EstimateRange(d64, estimated_power);
    Ranges(d64);
    var significand, exponent := Significand(d64), Exponent(d64);
    InitialScaledStartValues(d64, significand, exponent, LowerBoundaryIsCloser(d64), estimated_power, true,
                             numerator, denominator, delta_minus, delta_plus);
    ghost var n, d, dm, dp := numerator.Value(), denominator.Value(), delta_minus.Value(), delta_plus.Value();
    TwoMonotone(2620, 2900);
    Room(d);
    FixedUp(n, d, dm, dp, d64, estimated_power, if is_even then n + dp >= d else n + dp > d);
    decimal_point := FixupMultiply10(estimated_power, is_even, numerator, denominator, delta_minus, delta_plus);
    SeventeenDigits(n, d, dm, dp, if decimal_point == estimated_power then 10 else 1, is_even);
  }

  lemma SeventeenDigits(n: nat, d: nat, dm: nat, dp: nat, f: nat, even: bool)
    requires Narrow(n, dm, dp) && InRange(f * n, d, f * dm, f * dp, even) && f > 0
    ensures d < (f * dm + f * dp) * Pow10(16)
  {
    assert Pow(10, 2) == 100;
    PowAdd(10, 2, 2);
    PowAdd(10, 4, 4);
    PowAdd(10, 8, 8);
    MulLess(n + dp, (dm + dp) * Pow10(16), f);
    MulDistribute(n, dp, f);
    MulDistribute(dm, dp, f);
    MulAssociate(f, dm + dp, Pow10(16));
  }
}