/** The estimate of a double's power of ten (NormalizedExponent and EstimatePower of bignum-dtoa.cc) is
    never too high and at most one too low.  No power of ten up to 10^350 is as close to a power of
    two as 10^146 is to 2^485 from above and 10^205 to 2^681 from below; so linear bounds decide. */
module Estimates {
  import opened Words
  import opened Decimal
  import opened Powers
  import opened Ieee
  import opened ScaledStart
  import opened DoubleDtoa
  import opened PowerGaps
  import opened CachedPowers

  // ----- powers of two and ten -----

  lemma {:induction false} PowBaseLess(a: nat, b: nat, n: nat)
    requires 0 < a < b && n > 0
    ensures Pow(a, n) < Pow(b, n)
  {
    PowBaseMonotone(a, b, n - 1);
    MulLess(a, b, Pow(a, n - 1));
    MulLess(Pow(a, n - 1), Pow(b, n - 1), b);
  }

  lemma BelowTwos()
    ensures Two(485) < Pow10(146)
  {
    hide Two, Pow10;
    PowersTo150();
    var lo, step, ten := 207908195312897984370608091613638127351, Two(1746), Pow10(150);
    TenIs();
    TenNumerals();
    TenAdd(146, 4);
    TwoAdd(485, FINE);
    TwoAdd(114, 1746);
    SmallNumerals();
    TwoAdd(64, 32);
    TwoAdd(96, 16);
    TwoSucc(112);
    TwoSucc(113);
    MulLess(10000 * Two(114), lo, step);
    MulAssociate(10000, Two(114), step);
    MulAssociate(10000, Two(485), Two(FINE));
    MulLess(10000 * Two(485), ten, Two(FINE));
  }

  lemma AboveTwos()
    ensures Pow10(205) < Two(681)
  {
    hide Two, Pow10;
    PowersTo210();
    var hi, step, ten := 258763175164940474024358370140027266109, Two(1945), Pow10(210);
    TenIs();
    TenNumerals();
    TenAdd(205, 5);
    TwoAdd(681, FINE);
    TwoAdd(111, 1945);
    SmallNumerals();
    TwoAdd(64, 32);
    TwoAdd(96, 16);
    TwoSucc(111);
    MulLess(hi, 100000 * Two(111), step);
    MulAssociate(100000, Two(111), step);
    MulAssociate(100000, Two(681), Two(FINE));
    MulLess(ten, 100000 * Two(681), Two(FINE));
  }

  lemma TwosBelow(n: nat, j: nat)
    requires j > 0 && Two(n) <= Pow10(j)
    ensures 205 * n < 681 * j
  {
    hide Pow;
    AboveTwos();
    PowMul(2, n, 205);
    PowMul(10, j, 205);
    PowBaseMonotone(Pow(2, n), Pow(10, j), 205);
    PowMul(10, 205, j);
    PowMul(2, 681, j);
    PowBaseLess(Pow(10, 205), Pow(2, 681), j);
    Pow2Less(n * 205, 681 * j);
  }

  lemma TensBelow(j: nat, n: nat)
    requires j > 0 && Pow10(j) <= Two(n)
    ensures 485 * j < 146 * n
  {
    hide Pow;
    BelowTwos();
    PowMul(2, n, 146);
    PowMul(10, j, 146);
    PowBaseMonotone(Pow(10, j), Pow(2, n), 146);
    PowMul(10, 146, j);
    PowMul(2, 485, j);
    PowBaseLess(Pow(2, 485), Pow(10, 146), j);
    Pow2Less(485 * j, n * 146);
  }

  /** 2^n is less than 10^j. */
  ghost predicate TwoLessTen(n: int, j: int) {
    TwoUp(n) * TenDown(j) < TenUp(j) * TwoDown(n)
  }

  ghost predicate TenLessTwo(j: int, n: int) {
    TenUp(j) * TwoDown(n) < TwoUp(n) * TenDown(j)
  }

  /** Up to 350 there is no fraction between 485 / 146 and 681 / 205. */
  lemma NoFractionBetween(n: nat, j: nat)
    requires j <= 350
    ensures 205 * n < 681 * j ==> 146 * n <= 485 * j
    ensures 485 * j < 146 * n ==> 681 * j <= 205 * n
  {}

  lemma TwoLessTenBound(n: int, j: int, error: real)
    requires TwoLessTen(n, j) && -350 <= j <= 350 && Tiny(error)
    ensures n as real * 0.30102999566398114 - 0.0000000001 + error <= j as real
  {
    hide Two, Pow10;
    TwoNone();
    TenIs();
    if j >= 0 && n > 0 {
      if j == 0 { TwoAtLeast(n); } else { TwosBelow(n, j); }
      NoFractionBetween(n, j);
      UnderScaled(n, j, error);
    } else if j < 0 {
      if n >= 0 {
        MulMonotone(1, 1, Two(n), Pow10(-j));
      } else {
        TensBelow(-j, -n);
        NoFractionBetween(-n, -j);
        UnderScaled(n, j, error);
      }
    }
  }

  lemma UnderScaled(n: int, j: int, error: real)
    requires Tiny(error) && -350 <= j <= 350
    requires if n >= 0 then 146 * n <= 485 * j else 681 * j >= 205 * n
    ensures n as real * 0.30102999566398114 - 0.0000000001 + error <= j as real
  {
    var x, y := n as real, j as real;
    if n >= 0 { assert 146.0 * x <= 485.0 * y; } else { assert 681.0 * y >= 205.0 * x; }
  }

  lemma TenLessTwoBound(j: int, n: int, error: real)
    requires TenLessTwo(j, n) && -350 <= j <= 350 && Tiny(error)
    ensures j as real - 1.0 < (n - 1) as real * 0.30102999566398114 - 0.0000000001 + error
  {
    hide Two, Pow10;
    TwoNone();
    TenIs();
    if j > 0 {
      if n <= 0 {
        MulMonotone(1, 1, Pow10(j), Two(-n));
      } else {
        TensBelow(j, n);
        NoFractionBetween(n, j);
        OverScaled(j, n, error);
      }
    } else if j == 0 {
      if n < 0 { TwoAtLeast(-n); }
    } else {
      if n < 0 {
        TwosBelow(-n, -j);
        NoFractionBetween(-n, -j);
      }
      OverScaled(j, n, error);
    }
  }

  lemma OverScaled(j: int, n: int, error: real)
    requires Tiny(error) && -350 <= j <= 350
    requires n >= 0 ==> 681 * j <= 205 * n
    requires n < 0 ==> 146 * n >= 485 * j
    ensures j as real - 1.0 < (n - 1) as real * 0.30102999566398114 - 0.0000000001 + error
  {
    var x, y := n as real, j as real;
    if n >= 0 { assert 681.0 * y <= 205.0 * x; } else { assert 146.0 * x >= 485.0 * y; }
  }

  lemma TwoAtLeast(n: nat)
    requires n > 0
    ensures Two(n) >= 2
  {
    hide Two;
    TwoSucc(n - 1);
  }

  // ----- the estimate -----

  /** Errors of the floating-point operations on numbers of this size are far smaller; the code
      allows for twice as much. */
  predicate Tiny(error: real) {
    -0.00000000005 <= error <= 0.00000000005
  }

  method NormalizedExponent(significand: uint64, exponent: int) returns (normalized: int)
    requires 0 < significand < 2 * HIDDEN_BIT
    ensures normalized <= exponent && HIDDEN_BIT <= significand * Two(exponent - normalized) < 2 * HIDDEN_BIT
  {
    hide Two;
    TwoNone();
    var f: uint64 := significand;
    normalized := exponent;
    while f / HIDDEN_BIT % 2 == 0
      invariant normalized <= exponent && 0 < f < 2 * HIDDEN_BIT && f == significand * Two(exponent - normalized)
      decreases 2 * HIDDEN_BIT - f
    {
      ghost var s := exponent - normalized;
      TwoSucc(s);
      MulAssociate(significand, 2, Two(s));
      MulAssociate(2, significand, Two(s));
      f := f * 2;
      normalized := normalized - 1;
    }
  }

  function EstimatePower(exponent: int, error: real): int {
    Ceiling((exponent + 52) as real * 0.30102999566398114 - 0.0000000001 + error)
  }

  /** A positive double lies between 2^n and 2^(n + 1), its upper boundary included. */
  lemma Magnitude(d64: nat, s: nat)
    requires 0 < d64 < INFINITY && HIDDEN_BIT <= Significand(d64) * Two(s) < 2 * HIDDEN_BIT
    ensures
      var n := Exponent(d64) - s + 52;
      -1074 <= n <= 1023 && Two(n + UNIT) <= Units(d64) && Upper(d64) < Two(n + 1 + UNIT)
  {
    hide Two, Significand, Exponent;
    Ranges(d64);
    var f, e := Significand(d64), Exponent(d64);
    FiftyTwo();
    if s > 52 {
      TwoStrict(52, s);
      MulMonotone(1, Two(s), f, Two(s));
      TwoMonotone(53, s);
    }
    if e > DENORMAL_EXPONENT && s > 0 {
      TwoSucc(s - 1);
      MulMonotone(HIDDEN_BIT, 2, f, Two(s));
      TwoMonotone(1, s);
    }
    TwoAdd(52 - s, s);
    TwoAdd(53 - s, s);
    MulLess(f, Two(52 - s), Two(s));
    MulLess(f, Two(53 - s), Two(s));
    TwoAdd(52 - s, e + UNIT);
    MulMonotone(Two(52 - s), Two(e + UNIT), f, Two(e + UNIT));
    TwoSucc(53 - s);
    TwoAdd(54 - s, e + 1074);
    MulLess(2 * f + 1, Two(54 - s), Two(e + 1074));
  }

  lemma FiftyTwo()
    ensures Two(52) == HIDDEN_BIT && Two(53) == 2 * HIDDEN_BIT
  {
    hide Two;
    SmallNumerals();
    TwoAdd(32, 16);
    TwoAdd(48, 4);
    TwoSucc(52);
  }

  /** The estimate is never too high and at most one too low. */
  lemma EstimateHolds(d64: nat, s: nat, error: real)
    requires 0 < d64 < INFINITY && HIDDEN_BIT <= Significand(d64) * Two(s) < 2 * HIDDEN_BIT && Tiny(error)
    ensures EstimateOk(d64, EstimatePower(Exponent(d64) - s, error))
  {
    hide Two, Units, Upper, TwoUp, TwoDown, TenUp, TenDown, TwoLessTen, TenLessTwo, Significand, Exponent;
    Magnitude(d64, s);
    var n := Exponent(d64) - s + 52;
    var x := n as real * 0.30102999566398114 - 0.0000000001 + error;
    var k := Ceiling(x);
    assert k as real - 1.0 < x <= k as real;
    assert -330 < k < 330;
    if TwoLessTen(n, k - 1) { TwoLessTenBound(n, k - 1, error); }
    if TenLessTwo(k + 1, n + 1) { TenLessTwoBound(k + 1, n + 1, error); }
    InUnitsLow(d64, n, k);
    InUnitsHigh(d64, n, k);
  }

  lemma TwoBalance(n: int)
    requires n + UNIT >= 0
    ensures Two(n + UNIT) * TwoDown(n) == TwoUp(n) * Two(UNIT)
  {
    hide Two;
    TwoNone();
    if n < 0 { TwoAdd(n + UNIT, -n); } else { TwoAdd(n, UNIT); }
  }

  lemma InUnitsLow(d64: nat, n: int, k: int)
    requires d64 < INFINITY && n + UNIT >= 0 && Two(n + UNIT) <= Units(d64) && !TwoLessTen(n, k - 1)
    ensures TenUp(k) * Two(UNIT) <= 10 * Units(d64) * TenDown(k)
  {
    hide Two, Units, TwoUp, TwoDown, TenUp, TenDown, Pow10;
    TenIs();
    TenShift(k, k - 1, 10);
    TwoBalance(n);
    CrossLow(TenUp(k), TenDown(k), TenUp(k - 1), TenDown(k - 1), TwoUp(n), TwoDown(n), Two(UNIT), Two(n + UNIT), Units(d64));
  }

  lemma CrossLow(up: nat, down: nat, up1: nat, down1: nat, u: nat, v: nat, w: nat, z: nat, x: nat)
    requires up * down1 == (down * 10) * up1 && z * v == u * w && up1 * v <= u * down1 && z <= x
    requires down > 0 && down1 > 0 && v > 0 && w > 0
    ensures up * w <= 10 * x * down
  {
    var d := down1 * v;
    MulPositive(down1, v);
    calc {
      (up * w) * d;
      { Regroup(up, w, down1, v); }
      (up * down1) * (w * v);
      { MulAssociate(down * 10, up1, w * v); MulAssociate(up1, v, w); }
      (down * 10) * ((up1 * v) * w);
    }
    MulLess(up1 * v, u * down1, w);
    MulLess((up1 * v) * w, (u * down1) * w, down * 10);
    calc {
      (down * 10) * ((u * down1) * w);
      { Regroup3(u, down1, w); MulAssociate(down * 10, u * w, down1); }
      ((down * 10) * (z * v)) * down1;
      { MulAssociate(down * 10, z, v); MulAssociate((down * 10) * z, v, down1); }
      ((down * 10) * z) * d;
    }
    MulLess(z, x, down * 10);
    MulLess((down * 10) * z, (down * 10) * x, d);
    MulAssociate(10, x, down);
    MulAssociate(down, 10, x);
    MulLess(up * w, (down * 10) * x, d);
  }

  lemma InUnitsHigh(d64: nat, n: int, k: int)
    requires d64 < INFINITY && n + 1 + UNIT >= 0 && Upper(d64) < Two(n + 1 + UNIT) && !TenLessTwo(k + 1, n + 1)
    ensures Upper(d64) * TenDown(k) < 10 * (TenUp(k) * Two(UNIT))
  {
    hide Two, Upper, TwoUp, TwoDown, TenUp, TenDown, Pow10;
    TenIs();
    TenShift(k + 1, k, 10);
    TwoBalance(n + 1);
    CrossHigh(TenUp(k + 1), TenDown(k + 1), TenUp(k), TenDown(k), TwoUp(n + 1), TwoDown(n + 1), Two(UNIT), Two(n + 1 + UNIT), Upper(d64));
  }

  lemma CrossHigh(up1: nat, down1: nat, up: nat, down: nat, u: nat, v: nat, w: nat, z: nat, x: nat)
    requires up1 * down == (down1 * 10) * up && z * v == u * w && u * down1 <= up1 * v && x < z
    requires down > 0 && down1 > 0 && v > 0 && w > 0
    ensures x * down < 10 * (up * w)
  {
    var d := down1 * v;
    MulPositive(down1, v);
    MulLess(x, z, down);
    MulLess(x * down, z * down, d);
    calc {
      (z * down) * d;
      { Regroup(z, down, v, down1); MulAssociate(down1, v, 1); }
      (z * v) * (down * down1);
      { Regroup(u, w, down1, down); MulAssociate(down, down1, 1); }
      (u * down1) * (w * down);
    }
    MulPositive(w, down);
    MulLess(u * down1, up1 * v, w * down);
    calc {
      (up1 * v) * (w * down);
      { Regroup(up1, v, down, w); }
      (up1 * down) * (v * w);
      { Regroup(down1 * 10, up, v, w); MulAssociate(down1, 10, v); MulAssociate(10, down1, v); }
      (10 * d) * (up * w);
      { MulAssociate(10, d, up * w); MulAssociate(10, up * w, d); }
      (10 * (up * w)) * d;
    }
    MulLess(x * down, 10 * (up * w), d);
  }
}
