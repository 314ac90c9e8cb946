/** The exact starting values of the digit generation (bignum-dtoa.cc): a double and the distances
    to its boundaries, all over one denominator and divided by a power of ten. */
module ScaledStart {
  import opened Words
  import opened Bigits
  import opened Bignums
  import opened BignumArithmetic
  import opened Decimal
  import opened Powers
  import opened Ieee
  import opened BignumDtoa

  /** 10^e as a fraction TenUp(e) / TenDown(e). */
  ghost function TenUp(e: int): (p: nat)
    ensures p > 0
  {
    Pow10(if e > 0 then e else 0)
  }

  ghost function TenDown(e: int): (p: nat)
    ensures p > 0
  {
    Pow10(if e < 0 then -e else 0)
  }

  ghost function TwoUp(e: int): (p: nat)
    ensures p > 0
  {
    Two(if e > 0 then e else 0)
  }

  ghost function TwoDown(e: int): (p: nat)
    ensures p > 0
  {
    Two(if e < 0 then -e else 0)
  }

  /** x / d is X units divided by 10^e. */
  ghost predicate Scaled(x: int, X: int, d: nat, e: int) {
    x * (TenUp(e) * Two(UNIT)) == X * (TenDown(e) * d)
  }

  /** ScaledBy(k): the same for multiples. */
  lemma ScaledTimes(k: int, x: int, X: int, d: nat, e: int)
    requires Scaled(x, X, d, e)
    ensures Scaled(k * x, k * X, d, e)
  {
    hide Two, TenUp, TenDown;
    var a, b := TenUp(e) * Two(UNIT), TenDown(e) * d;
    TimesBoth(k, x, a, X, b);
  }

  lemma TimesBoth(k: int, x: int, a: int, y: int, b: int)
    requires x * a == y * b
    ensures (k * x) * a == (k * y) * b
  {
    MulAssociate(k, x, a);
    MulAssociate(k, y, b);
  }

  /** Multiplying by 10 lowers the power of ten divided out. */
  lemma ScaledTen(x: nat, X: nat, d: nat, e: int)
    requires Scaled(x, X, d, e)
    ensures Scaled(10 * x, X, d, e - 1)
  {
    hide Two;
    var t, up, down := Two(UNIT), TenUp(e), TenDown(e);
    if e >= 1 {
      assert TenUp(e) == 10 * TenUp(e - 1) && TenDown(e - 1) == down;
      TenMoves(x, TenUp(e - 1), t);
    } else {
      assert TenDown(e - 1) == 10 * down && TenUp(e - 1) == up;
      MulAssociate(10, down, d);
      MulAssociate(10, x, up * t);
      TenMoves(X, down, d);
    }
  }

  lemma TenMoves(x: nat, u: nat, t: nat)
    ensures (10 * x) * (u * t) == x * ((10 * u) * t) == 10 * (x * (u * t))
  {
    MulAssociate(10, x, u * t);
    MulAssociate(10, u, t);
    MulAssociate(x, 10, u * t);
  }

  /** Doubling both sides of the fraction. */
  lemma ScaledDouble(x: nat, X: nat, d: nat, e: int)
    requires Scaled(x, 2 * X, d, e)
    ensures Scaled(x, X, 2 * d, e)
  {
    hide Two, TenUp, TenDown;
    MulAssociate(TenDown(e), 2, d);
    MulAssociate(2, TenDown(e), d);
    MulAssociate(X, 2, TenDown(e) * d);
    MulAssociate(2, X, TenDown(e) * d);
  }

  lemma TenBelowTwo(n: nat)
    ensures Pow10(n) <= Two(4 * n)
  {
    PowBaseMonotone(10, 16, n);
    assert Pow(2, 4) == 16;
    PowMul(2, 4, n);
  }

  lemma TenBits()
    ensures BitLength(OddPart(10)) == 3
  {
    assert OddPart(10) == OddPart(5) == 5;
    assert BitLength(5) == 1 + BitLength(2) == 2 + BitLength(1) == 3;
  }

  /** The estimate hypothesis: 10^(estimate - 1) is at most the value, and 10^(estimate + 1) is above
      the upper boundary.  So the estimate is never too high and at most one too low. */
  ghost predicate EstimateOk(d64: nat, estimate: int)
    requires 0 < d64 < INFINITY
  {
    && TenUp(estimate) * Two(UNIT) <= 10 * Units(d64) * TenDown(estimate)
    && Upper(d64) * TenDown(estimate) < 10 * (TenUp(estimate) * Two(UNIT))
  }

  const MAX_POWER: int := 370

  /** The numbers the exact path works with are far from the capacity. */
  lemma Room(x: nat)
    requires x <= Two(2900)
    ensures 1000 * x < P(CAPACITY - 2) < P(CAPACITY - 1) < P(CAPACITY)
  {
    hide P, Pow;
    PAsPow2(CAPACITY - 2);
    TwoAdd(10, 2900);
    TwoTen();
    MulMonotone(1024, x, 1024, Two(2900));
    Pow2Less(2910, BIGIT_SIZE * (CAPACITY - 2));
    PLess(CAPACITY - 2, CAPACITY - 1);
    PLess(CAPACITY - 1, CAPACITY);
  }

  lemma TwoTen()
    ensures Two(1) == 2 && Two(2) == 4 && Two(10) == 1024
  {
    assert Two(5) == 32;
    TwoAdd(5, 5);
  }

  lemma TwoBound(m: nat, n: nat, x: nat, y: nat)
    requires x <= Two(m) && y <= Two(n)
    ensures x * y <= Two(m + n)
  {
    hide Two;
    TwoAdd(m, n);
    MulMonotone(x, y, Two(m), Two(n));
  }

  lemma TwoMonotone(m: nat, n: nat)
    requires m <= n
    ensures Two(m) <= Two(n)
  {
    Pow2Less(m, n);
  }

  lemma SignificandBits(f: nat)
    requires f < 2 * HIDDEN_BIT
    ensures f <= Two(53)
  {
    hide Two, Pow;
    TwoTen();
    TwoAdd(10, 10);
    TwoAdd(20, 20);
    TwoAdd(40, 10);
    TwoAdd(50, 2);
    TwoAdd(52, 1);
  }

  ghost function HalfUnit(need: bool): nat {
    if need then 1074 else 1075
  }

  /** What the starting values have in common: numerator = f * k, or 2 * f * k where the deltas are
      wanted (which are then k), and k / denominator is 2^exponent, or half of it, over the power. */
  ghost predicate Started(n: nat, d: nat, k: nat, f: nat, e: int, estimate: int, need: bool)
    requires e >= DENORMAL_EXPONENT
  {
    && 0 < d <= Two(2600) && k <= Two(2560)
    && n == (if need then 2 * f else f) * k
    && Scaled(k, Two(e + HalfUnit(need)), d, estimate)
    && PowerProduct(d, if estimate > 0 then estimate else 0)
  }

  /** d is 10^p times a power of two, or divided by one. */
  ghost predicate PowerProduct(d: nat, p: nat) {
    exists x: nat :: d == Two(x) * Pow(5, p)
  }

  lemma TenPower(p: nat)
    ensures PowerProduct(Pow10(p), p)
  {
    hide Pow;
    PowProduct(2, 5, p);
    assert Pow10(p) == Two(p) * Pow(5, p);
  }

  lemma TimesTwos(d: nat, p: nat, n: nat)
    requires PowerProduct(d, p)
    ensures 0 <= d * Two(n) && PowerProduct(d * Two(n), p)
  {
    hide Pow;
    var x: nat :| d == Two(x) * Pow(5, p);
    TwoAdd(x, n);
    MulAssociate(Two(x), Pow(5, p), Two(n));
    MulAssociate(Two(x), Two(n), Pow(5, p));
    assert d * Two(n) == Two(x + n) * Pow(5, p);
    MulPositive(d, Two(n));
  }

  lemma TimesTwo(d: nat, p: nat)
    requires PowerProduct(d, p)
    ensures PowerProduct(d * 2, p) && PowerProduct(2 * d, p)
  {
    hide Pow, PowerProduct;
    TwoNone();
    TwoSucc(0);
    TimesTwos(d, p, 1);
  }

  lemma OnlyTwos(n: nat)
    ensures PowerProduct(Two(n), 0)
  {
    hide Pow;
    PowNone(5);
    assert Two(n) == Two(n) * Pow(5, 0);
  }

  ghost predicate Objects(numerator: Bignum, denominator: Bignum, delta_minus: Bignum, delta_plus: Bignum)
    reads numerator, denominator, delta_minus, delta_plus
    reads numerator.bigits, denominator.bigits, delta_minus.bigits, delta_plus.bigits
  {
    && numerator.Ok() && denominator.Ok() && delta_minus.Ok() && delta_plus.Ok()
    && AllApart(numerator, denominator, delta_minus, delta_plus)
  }

  method InitialPositiveExponent(significand: uint64, exponent: nat, estimated_power: nat, need: bool,
      numerator: Bignum, denominator: Bignum, delta_minus: Bignum, delta_plus: Bignum) returns (ghost k: nat)
    requires Objects(numerator, denominator, delta_minus, delta_plus)
    requires significand < 2 * HIDDEN_BIT && exponent <= 971 && estimated_power <= MAX_POWER
    modifies numerator, numerator.bigits, denominator, denominator.bigits
    modifies delta_minus, delta_minus.bigits, delta_plus, delta_plus.bigits
    ensures Objects(numerator, denominator, delta_minus, delta_plus)
    ensures Started(numerator.Value(), denominator.Value(), k, significand, exponent, estimated_power, need)
    ensures need ==> delta_minus.Value() == k && delta_plus.Value() == k
    ensures !need ==> unchanged(delta_minus) && unchanged(delta_plus)
    ensures !need ==> unchanged(delta_minus.bigits) && unchanged(delta_plus.bigits)
  {
    hide P, Eval, Pow, Started, Bignum.Value, Bignum.Valid, Bignum.Clamped;
    k := Two(exponent);
    PositiveStart(significand, exponent, estimated_power, need);
    numerator.AssignUInt64(significand);
    numerator.ShiftLeft(exponent);
    denominator.AssignPowerUInt16(10, estimated_power);
    if need {
      denominator.Double();
      numerator.Double();
      AssignDelta(delta_plus, exponent);
      AssignDelta(delta_minus, exponent);
    }
  }

  /** A distance of half a unit in the last place: 2^exponent over the doubled denominator. */
  method AssignDelta(delta: Bignum, exponent: nat)
    requires delta.Ok()
    modifies delta, delta.bigits
    ensures delta.Ok() && delta.Value() == Two(exponent)
  {
    delta.AssignUInt16(1);
    delta.ShiftLeft(exponent);
  }

  lemma PositiveStart(f: nat, e: nat, estimate: nat, need: bool)
    requires f < 2 * HIDDEN_BIT && e <= 971 && estimate <= MAX_POWER
    ensures BitLength(OddPart(10)) * estimate / BIGIT_SIZE + 2 <= CAPACITY
    ensures f * Two(e) < P(CAPACITY - 1) && Pow(10, estimate) < P(CAPACITY - 1)
    ensures need ==> Started(f * Two(e) * 2, Pow(10, estimate) * 2, Two(e), f, e, estimate, need)
    ensures !need ==> Started(f * Two(e), Pow(10, estimate), Two(e), f, e, estimate, need)
  {
    hide P, Two, Pow, Started, PowerProduct;
    TenBits();
    TenBelowTwo(estimate);
    SignificandBits(f);
    TwoBound(53, e, f, Two(e));
    TwoMonotone(4 * estimate, 2560);
    TwoMonotone(53 + e, 2560);
    TwoMonotone(e, 2560);
    TwoMonotone(2560, 2900);
    Room(f * Two(e));
    Room(Pow10(estimate));
    TwoMonotone(2561, 2600);
    TwoSucc(2560);
    if need { StartedDoubled(f, e, estimate); } else { StartedPlain(f, e, estimate); }
  }

  lemma StartedDoubled(f: nat, e: nat, estimate: nat)
    requires 2 * Pow10(estimate) <= Two(2600) && Two(e) <= Two(2560)
    ensures Started(f * Two(e) * 2, Pow10(estimate) * 2, Two(e), f, e, estimate, true)
  {
    hide Two, Pow, PowerProduct;
    TenPower(estimate);
    TimesTwo(Pow10(estimate), estimate);
    PowNone(10);
    TwoAdd(e, UNIT);
    TwoSucc(e + 1074);
    PositiveScaled(Two(e), Pow10(estimate), Two(UNIT), Two(e + 1074));
    MulAssociate(2, f, Two(e));
  }

  lemma StartedPlain(f: nat, e: nat, estimate: nat)
    requires Pow10(estimate) <= Two(2600) && Two(e) <= Two(2560)
    ensures Started(f * Two(e), Pow10(estimate), Two(e), f, e, estimate, false)
  {
    hide Two, Pow, PowerProduct;
    TenPower(estimate);
    PowNone(10);
    TwoAdd(e, UNIT);
    MulAssociate(Two(e), Two(UNIT), Pow10(estimate));
    MulAssociate(Two(e), Pow10(estimate), Two(UNIT));
  }

  lemma PositiveScaled(k: nat, t: nat, u: nat, h: nat)
    requires k * u == 2 * h
    ensures k * (t * u) == h * (1 * (t * 2))
  {
    MulAssociate(k, t, u);
    MulAssociate(t, k, u);
    MulAssociate(t, 2, h);
    MulAssociate(h, t, 2);
  }

  method InitialNegativeExponentPositivePower(significand: uint64, exponent: int, estimated_power: nat, need: bool,
      numerator: Bignum, denominator: Bignum, delta_minus: Bignum, delta_plus: Bignum) returns (ghost k: nat)
    requires Objects(numerator, denominator, delta_minus, delta_plus)
    requires significand < 2 * HIDDEN_BIT && DENORMAL_EXPONENT <= exponent < 0 && estimated_power <= MAX_POWER
    modifies numerator, numerator.bigits, denominator, denominator.bigits
    modifies delta_minus, delta_minus.bigits, delta_plus, delta_plus.bigits
    ensures Objects(numerator, denominator, delta_minus, delta_plus)
    ensures Started(numerator.Value(), denominator.Value(), k, significand, exponent, estimated_power, need)
    ensures need ==> delta_minus.Value() == k && delta_plus.Value() == k
    ensures !need ==> unchanged(delta_minus) && unchanged(delta_plus)
    ensures !need ==> unchanged(delta_minus.bigits) && unchanged(delta_plus.bigits)
  {
    hide P, Eval, Pow, Started, Bignum.Value, Bignum.Valid, Bignum.Clamped;
    k := 1;
    NegativePositiveStart(significand, exponent, estimated_power, need);
    numerator.AssignUInt64(significand);
    denominator.AssignPowerUInt16(10, estimated_power);
    denominator.LengthBelow(CAPACITY - 1);
    denominator.ShiftLeft(-exponent);
    if need {
      denominator.Double();
      numerator.Double();
      delta_plus.AssignUInt16(1);
      delta_minus.AssignUInt16(1);
    }
  }

  method InitialNegativeExponentNegativePower(significand: uint64, exponent: int, estimated_power: int, need: bool,
      numerator: Bignum, denominator: Bignum, delta_minus: Bignum, delta_plus: Bignum) returns (ghost k: nat)
    requires Objects(numerator, denominator, delta_minus, delta_plus)
    requires 0 < significand < 2 * HIDDEN_BIT && DENORMAL_EXPONENT <= exponent < 0
    requires -MAX_POWER <= estimated_power < 0
    modifies numerator, numerator.bigits, denominator, denominator.bigits
    modifies delta_minus, delta_minus.bigits, delta_plus, delta_plus.bigits
    ensures Objects(numerator, denominator, delta_minus, delta_plus)
    ensures Started(numerator.Value(), denominator.Value(), k, significand, exponent, estimated_power, need)
    ensures need ==> delta_minus.Value() == k && delta_plus.Value() == k
    ensures !need ==> unchanged(delta_minus) && unchanged(delta_plus)
    ensures !need ==> unchanged(delta_minus.bigits) && unchanged(delta_plus.bigits)
  {
    hide P, Eval, Pow, Started, Bignum.Value, Bignum.Valid, Bignum.Clamped;
    k := Pow(10, -estimated_power);
    NegativeNegativeStart(significand, exponent, -estimated_power, need);
    // The numerator doubles as the power of ten until its copies are taken.
    numerator.AssignPowerUInt16(10, -estimated_power);
    if need {
      CopyDeltas(numerator, delta_minus, delta_plus);
    }
    TimesSignificand(numerator, significand, k);
    AssignDelta(denominator, -exponent);
    if need {
      DoubleBoth(numerator, denominator);
    }
  }

  method CopyDeltas(numerator: Bignum, delta_minus: Bignum, delta_plus: Bignum)
    requires numerator.Ok() && delta_minus.Ok() && delta_plus.Ok()
    requires numerator.Apart(delta_minus) && numerator.Apart(delta_plus) && delta_minus.Apart(delta_plus)
    modifies delta_minus, delta_minus.bigits, delta_plus, delta_plus.bigits
    ensures delta_minus.Ok() && delta_plus.Ok()
    ensures delta_minus.Value() == delta_plus.Value() == numerator.Value()
  {
    hide Eval, Bignum.Value, Bignum.Valid, Bignum.Clamped;
    delta_plus.AssignBignum(numerator);
    delta_minus.AssignBignum(numerator);
  }

  method DoubleBoth(numerator: Bignum, denominator: Bignum)
    requires numerator.Ok() && denominator.Ok() && numerator.Apart(denominator)
    requires numerator.Value() < P(CAPACITY - 1) && denominator.Value() < P(CAPACITY - 1)
    modifies numerator, numerator.bigits, denominator, denominator.bigits
    ensures numerator.Ok() && denominator.Ok()
    ensures numerator.Value() == 2 * old(numerator.Value()) && denominator.Value() == 2 * old(denominator.Value())
  {
    hide P, Eval, Bignum.Value, Bignum.Valid, Bignum.Clamped;
    numerator.Double();
    denominator.Double();
  }

  method TimesSignificand(numerator: Bignum, significand: uint64, ghost k: nat)
    requires numerator.Ok() && numerator.Value() == k && k * significand < P(CAPACITY)
    modifies numerator, numerator.bigits
    ensures numerator.Ok() && numerator.Value() == k * significand
  {
    numerator.MantissaAtMostValue();
    MulMonotone(numerator.Mantissa(), significand, k, significand);
    numerator.MultiplyByUInt64(significand);
  }

  lemma NegativePositiveStart(f: nat, e: int, estimate: nat, need: bool)
    requires f < 2 * HIDDEN_BIT && DENORMAL_EXPONENT <= e < 0 && estimate <= MAX_POWER
    ensures BitLength(OddPart(10)) * estimate / BIGIT_SIZE + 2 <= CAPACITY
    ensures f < P(CAPACITY - 1) && Pow(10, estimate) < P(CAPACITY - 1)
    ensures Pow(10, estimate) * Two(-e) < P(CAPACITY - 1)
    ensures need ==> Started(f * 2, Pow(10, estimate) * Two(-e) * 2, 1, f, e, estimate, need)
    ensures !need ==> Started(f, Pow(10, estimate) * Two(-e), 1, f, e, estimate, need)
  {
    hide P, Two, Pow, PowerProduct;
    TenPower(estimate);
    TimesTwos(Pow10(estimate), estimate, -e);
    TimesTwo(Pow10(estimate) * Two(-e), estimate);
    TenBits();
    TenBelowTwo(estimate);
    SignificandBits(f);
    TwoBound(4 * estimate, -e, Pow10(estimate), Two(-e));
    TwoMonotone(4 * estimate, 2560);
    TwoMonotone(4 * estimate - e, 2560);
    TwoMonotone(53, 2560);
    TwoMonotone(0, 2560);
    TwoMonotone(2560, 2900);
    Room(f);
    Room(Pow10(estimate));
    Room(Pow10(estimate) * Two(-e));
    TwoMonotone(2561, 2600);
    TwoSucc(2560);
    MulPositive(Pow10(estimate), Two(-e));
    PowNone(10);
    PowNone(2);
    TwoAdd(e + UNIT, -e);
    if need {
      TwoSucc(e + 1074);
      HalfScaled(Pow10(estimate), Two(-e), Two(e + 1074), Two(UNIT));
    } else {
      WholeScaled(Pow10(estimate), Two(-e), Two(e + UNIT), Two(UNIT));
    }
  }

  lemma HalfScaled(t: nat, q: nat, h: nat, u: nat)
    requires u == (2 * h) * q
    ensures 1 * (t * u) == h * (1 * (t * q * 2))
  {
    MulAssociate(2, h, q);
    MulAssociate(h, q, 2);
    MulAssociate(t, h * q, 2);
    MulAssociate(t, h, q);
    MulAssociate(h, t, q);
    MulAssociate(h, t * q, 2);
  }

  lemma WholeScaled(t: nat, q: nat, h: nat, u: nat)
    requires u == h * q
    ensures 1 * (t * u) == h * (1 * (t * q))
  {
    MulAssociate(t, h, q);
    MulAssociate(h, t, q);
  }

  lemma NegativeNegativeStart(f: nat, e: int, power: nat, need: bool)
    requires f < 2 * HIDDEN_BIT && DENORMAL_EXPONENT <= e < 0 && 0 < power <= MAX_POWER
    ensures BitLength(OddPart(10)) * power / BIGIT_SIZE + 2 <= CAPACITY
    ensures 0 <= Pow(10, power) * f < P(CAPACITY - 1) < P(CAPACITY) && Two(-e) < P(CAPACITY - 1)
    ensures need ==> Started(Pow(10, power) * f * 2, Two(-e) * 2, Pow(10, power), f, e, 0 - power, need)
    ensures !need ==> Started(Pow(10, power) * f, Two(-e), Pow(10, power), f, e, 0 - power, need)
  {
    hide P, Two, Pow, PowerProduct;
    OnlyTwos(-e);
    TimesTwo(Two(-e), 0);
    TenBits();
    TenBelowTwo(power);
    SignificandBits(f);
    TwoBound(4 * power, 53, Pow10(power), f);
    TwoMonotone(4 * power, 2560);
    TwoMonotone(4 * power + 53, 2560);
    TwoMonotone(-e, 2560);
    TwoMonotone(2560, 2900);
    MulPositive(Pow10(power), f);
    Room(Pow10(power) * f);
    Room(Two(-e));
    TwoMonotone(2561, 2600);
    TwoSucc(2560);
    PowNone(10);
    TwoAdd(e + UNIT, -e);
    if need {
      TwoSucc(e + 1074);
      HalfOver(Pow10(power), Two(-e), Two(e + 1074), Two(UNIT));
      MulAssociate(Pow10(power), f, 2);
    } else {
      WholeOver(Pow10(power), Two(-e), Two(e + UNIT), Two(UNIT));
    }
  }

  lemma HalfOver(t: nat, q: nat, h: nat, u: nat)
    requires u == (2 * h) * q
    ensures t * (1 * u) == h * (t * (q * 2))
  {
    MulAssociate(2, h, q);
    MulAssociate(h, q, 2);
    MulAssociate(t, h, q * 2);
    MulAssociate(h, t, q * 2);
  }

  lemma WholeOver(t: nat, q: nat, h: nat, u: nat)
    requires u == h * q
    ensures t * (1 * u) == h * (t * q)
  {
    MulAssociate(t, h, q);
    MulAssociate(h, t, q);
  }
}
