/** The debug assertions of the bignum division (bignum.cc) hold in the digit generation
    (bignum-dtoa.cc): its denominators are powers of ten times powers of two, and none of those is so
    close below a power of two that its first 28 bits are all set. */
module DivisionChecks {
  import opened Words
  import opened Bigits
  import opened Decimal
  import opened Powers
  import opened BignumArithmetic
  import opened Ieee
  import opened ScaledStart
  import opened PowerGaps
  import opened Estimates

  /** 10^205 is three parts in a thousand below 2^681. */
  lemma WellBelow()
    ensures 1003 * Pow10(205) <= 1000 * Two(681)
  {
    hide Two, Pow10;
    PowersTo210();
    var hi, step, ten := 258763175164940474024358370140027266109, Two(1945), Pow10(210);
    TenIs();
    TenNumerals();
    TenAdd(205, 5);
    TwoAdd(681, FINE);
    TwoAdd(111, 1945);
    SmallNumerals();
    TwoAdd(64, 32);
    TwoAdd(96, 16);
    TwoSucc(111);
    MulLess(1003 * hi, 100000000 * Two(111), step);
    MulAssociate(1003, hi, step);
    MulAssociate(1003, ten, Two(FINE));
    MulAssociate(100000000, Two(111), step);
    MulAssociate(100000000, Two(681), Two(FINE));
    MulLess(1003 * ten, 100000000 * Two(681), Two(FINE));
  }

  lemma {:induction false} Bernoulli(b: nat, n: nat)
    requires 1 <= n <= b
    ensures Pow(b - 1, n) * b >= Pow(b, n) * (b - n)
    decreases n
  {
    PowSteps(b - 1, n - 1);
    PowSteps(b, n - 1);
    if n == 1 {
      PowNone(b - 1);
      PowNone(b);
    } else {
      hide Pow;
      Bernoulli(b, n - 1);
      var u, v := Pow(b - 1, n - 1), Pow(b, n - 1);
      MulLess(v * (b - n + 1), u * b, b - 1);
      BernoulliStep(b, n, u, v);
    }
  }

  lemma PowSteps(b: nat, n: nat)
    ensures Pow(b, n + 1) == b * Pow(b, n)
  {}

  lemma BernoulliStep(b: int, n: int, u: int, v: int)
    requires b >= n >= 1 && v >= 0 && (u * b) * (b - 1) >= (v * (b - n + 1)) * (b - 1)
    ensures ((b - 1) * u) * b >= (b * v) * (b - n)
  {
    MulAssociate(b - 1, u, b);
    MulAssociate(v, b - n + 1, b - 1);
    MulAssociate(b, v, b - n);
    MulAssociate(v, b, b - n);
    assert (b - n + 1) * (b - 1) == b * (b - n) + (n - 1) by {
      MulDistribute(b - n, 1, b - 1);
      MulDistribute(b, 1, b - n);
    }
    MulDistribute(b * (b - n), n - 1, v);
    assert v * (n - 1) >= 0 by { MulPositive(v, n - 1); }
  }

  lemma PowLess(x: nat, y: nat, p: nat)
    requires p > 0 && y > 0 && 1003 * y <= 1000 * x
    ensures 1003 * Pow(y, p) <= 1000 * Pow(x, p)
  {
    PowSteps(x, p - 1);
    PowSteps(y, p - 1);
    hide Pow;
    PowBaseMonotone(y, x, p - 1);
    var u, v := Pow(x, p - 1), Pow(y, p - 1);
    MulLess(1003 * y, 1000 * x, v);
    MulMonotone(x, v, x, u);
    MulAssociate(1003, y, v);
    MulAssociate(1000, x, v);
  }

  /** No power of ten agrees with the power of two above it in the first 28 bits. */
  lemma NotClose(p: nat, m: nat)
    requires 0 < p && 681 * p <= 205 * m
    ensures (BASE - 1) * Two(m) > BASE * Pow10(p)
  {
    hide Pow;
    var a, b := Two(m), Pow10(p);
    WellBelow();
    PowLess(Two(681), Pow10(205), p);
    PowMul(2, m, 205);
    PowMul(2, 681, p);
    PowMul(10, p, 205);
    PowMul(10, 205, p);
    Pow2Less(681 * p, m * 205);
    PowProduct(BASE - 1, a, 205);
    PowProduct(BASE, b, 205);
    Bernoulli(BASE, 205);
    if (BASE - 1) * a <= BASE * b {
      PowBaseMonotone((BASE - 1) * a, BASE * b, 205);
      TooClose(Pow(BASE - 1, 205), Pow(BASE, 205), Pow(a, 205), Pow(b, 205));
    }
  }

  lemma TooClose(u: nat, v: nat, s: nat, t: nat)
    requires t > 0 && v > 0 && 1003 * t <= 1000 * s && u * BASE >= v * (BASE - 205)
    ensures u * s > v * t
  {
    MulMonotone(u, 1003 * t, u, 1000 * s);
    MulAssociate(u, 1003, t);
    MulAssociate(1003, u, t);
    MulAssociate(u, 1000, s);
    MulAssociate(1000, u, s);
    MulLess(1000 * v, 1003 * u, t);
    MulAssociate(1000, v, t);
    MulAssociate(v, BASE, 1);
  }

  /** So the first digit of such a number is never the largest one. */
  lemma ProductNotFull(d: nat, p: nat)
    requires PowerProduct(d, p) && p <= 350
    ensures NotFull(d)
  {
    hide Pow, P;
    var x: nat :| d == Two(x) * Pow(5, p);
    forall n: nat | n > 0 && P(n - 1) <= d < P(n) ensures d < (BASE - 1) * P(n - 1) {
      PAsPow2(n);
      PAsPow2(n - 1);
      TwoAdd(BIGIT_SIZE * (n - 1), BIGIT_SIZE);
      BaseIsPow();
      var e := BIGIT_SIZE * n + p;
      PowProduct(2, 5, p);
      TwoAdd(BIGIT_SIZE * n, p);
      TwoAdd(BIGIT_SIZE * (n - 1), p);
      MulAssociate(Two(x), Pow(5, p), Two(p));
      MulLess(d, P(n), Two(p));
      FirstDigit(d, x, p, n, e);
    }
  }

  lemma FirstDigit(d: nat, x: nat, p: nat, n: nat, e: nat)
    requires n > 0 && p <= 350 && d * Two(p) == Two(x) * Pow10(p) && d * Two(p) < Two(e)
    requires P(n - 1) * BASE * Two(p) == Two(e)
    ensures d < (BASE - 1) * P(n - 1)
  {
    hide Pow, P;
    MulLess(1, Pow10(p), Two(x));
    Pow2Less(x, e);
    var m := e - x;
    TwoAdd(x, m);
    MulLess(Pow10(p), Two(m), Two(x));
    if p > 0 {
      TensBelow(p, m);
      NoFractionBetween(m, p);
      NotClose(p, m);
    } else {
      TenIs();
      TwoSucc(m - 1);
    }
    Shifted(d, Two(p), Two(x), Pow10(p), Two(m), P(n - 1));
  }

  lemma Shifted(d: nat, twos: nat, low: nat, ten: nat, high: nat, place: nat)
    requires d * twos == low * ten && place * BASE * twos == low * high && BASE * ten < (BASE - 1) * high
    requires twos > 0 && low > 0
    ensures d < (BASE - 1) * place
  {
    MulLess(BASE * ten, (BASE - 1) * high, low);
    MulAssociate(BASE, ten, low);
    MulAssociate(BASE - 1, high, low);
    MulAssociate(BASE, d, twos);
    MulAssociate(BASE - 1, place * BASE, twos);
    MulAssociate(BASE - 1, place, BASE);
    MulLess(BASE * d, (BASE - 1) * (place * BASE), twos);
  }

  /** The denominators of all modes, of fixed mode also after one more factor of ten, meet the
      division's assertions: together with a numerator below ten denominators both hold. */
  lemma DenominatorsNotFull(d64: nat, estimate: int, d: nat)
    requires 0 < d64 < INFINITY && EstimateOk(d64, estimate)
    requires PowerProduct(d, if estimate > 0 then estimate else 0)
    ensures NotFull(d) && NotFull(10 * d)
  {
    hide Two, Pow, PowerProduct, NotFull, EstimateOk;
    var p := if estimate > 0 then estimate else 0;
    SmallEstimate(d64, estimate);
    ProductNotFull(d, p);
    TenMore(d, p);
    ProductNotFull(10 * d, p + 1);
  }

  lemma TenMore(d: nat, p: nat)
    requires PowerProduct(d, p)
    ensures PowerProduct(10 * d, p + 1)
  {
    PowSteps(5, p);
    hide Pow;
    var x: nat :| d == Two(x) * Pow(5, p);
    TwoSucc(x);
    MulAssociate(2, Two(x), 5 * Pow(5, p));
    MulAssociate(Two(x), 5, Pow(5, p));
    MulAssociate(5, Two(x), Pow(5, p));
    assert 10 * d == Two(x + 1) * Pow(5, p + 1);
  }

  lemma SmallEstimate(d64: nat, estimate: int)
    requires 0 < d64 < INFINITY && EstimateOk(d64, estimate)
    ensures estimate < 340
  {
    hide Two, Pow, Units, Upper;
    FineBounds(d64);
    TwoAdd(2100, FINE - UNIT);
    MulLess(Units(d64), Two(2100), Two(FINE - UNIT));
    if estimate >= 340 {
      TenIs();
      TenSucc(estimate - 1);
      TwoAdd(1025, UNIT);
      MulAssociate(10, Pow10(estimate - 1), Two(UNIT));
      MulLess(Pow10(estimate - 1), Two(1025), Two(UNIT));
      TensBelow(estimate - 1, 1025);
    }
  }
}
