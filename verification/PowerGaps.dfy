/** No double lies just below a power of ten: the gap is at least one part in 2^62 of the power.  The
    powers are kept between two 128-bit numbers times a power of two, and for each of them the last
    double below is written down. */
module PowerGaps {
  import opened Words
  import opened Decimal
  import opened Powers
  import opened Ieee
  import opened ScaledStart

  /** A power of ten lies above the double by less than one part in 2^62. */
  ghost predicate JustBelowTen(d64: nat, k: int)
    requires d64 < INFINITY
  {
    && Units(d64) * TenDown(k) < TenUp(k) * Two(UNIT)
    && (TWO64 / 4 - 1) * (TenUp(k) * Two(UNIT)) < (TWO64 / 4 * Units(d64)) * TenDown(k)
  }

  /** All comparisons are made 300 binary places below the units of the doubles. */
  const FINE: nat := 1375

  /** 10^k lies between lo and hi, in steps of 2^b. */
  ghost predicate Between(k: int, lo: nat, hi: nat, b: nat) {
    && (lo * Two(b)) * TenDown(k) <= TenUp(k) * Two(FINE)
    && TenUp(k) * Two(FINE) <= (hi * Two(b)) * TenDown(k)
  }

  // ----- one power -----

  /** p is so far below l, and the next multiple of unit (or of 2 * unit, if l has 54 bits in units)
      so high that no number of 53 bits fits just below the range from l to h. */
  predicate Gap(l: nat, h: nat, p: nat, unit: nat, even: bool) {
    && (l - p) * 0x4000_0000_0000_0000 >= l
    && 0x10_0000_0000_0000 * unit <= l
    && h <= (if even && l >= 0x20_0000_0000_0000 * unit then p + 2 * unit else p + unit)
  }

  /** A significand f at 2^a times the step: too coarse, or one of the multiples. */
  lemma NoMultiple(f: nat, step: nat, unit: nat, l: nat, h: nat, g: nat)
    requires f < 0x20_0000_0000_0000 && Gap(l, h, g * unit, unit, g % 2 == 0) && unit > 0
    requires step == 1 || step % 2 == 0
    ensures (f * step) * unit < h ==> 0x3FFF_FFFF_FFFF_FFFF * l >= 0x4000_0000_0000_0000 * ((f * step) * unit)
  {
    var n := f * step;
    MulLess(n, g, unit);
    MulDistribute(g, 1, unit);
    MulLess(g + 1, n, unit);
    if step == 1 {
      MulLess(n, 0x20_0000_0000_0000 - 1, unit);
    } else {
      EvenFactor(f, step);
      MulDistribute(g, 2, unit);
      MulLess(g + 2, n, unit);
    }
  }

  lemma EvenFactor(f: nat, step: nat)
    requires step % 2 == 0
    ensures f * step % 2 == 0
  {
    var half := step / 2;
    assert f * step == 2 * (f * half);
  }

  /** The same over powers of two. */
  lemma NoDoubleBetween(f: nat, e: nat, b: nat, u: nat, l: nat, h: nat, g: nat)
    requires f < 0x20_0000_0000_0000 && Gap(l, h, g * Two(u), Two(u), g % 2 == 0)
    ensures f * Two(e) < h * Two(b) ==>
      0x3FFF_FFFF_FFFF_FFFF * (l * Two(b)) >= 0x4000_0000_0000_0000 * (f * Two(e))
  {
    hide Two, Gap;
    if e >= b + u {
      var step, unit, t := Two(e - b - u), Two(u), Two(b);
      TwoAdd(e - b - u, u);
      TwoAdd(e - b, b);
      MulAssociate(f, step, unit);
      MulAssociate(f, step * unit, t);
      StepShape(e - b - u);
      var n := (f * step) * unit;
      MulLess(n, h, t);
      MulAssociate(0x3FFF_FFFF_FFFF_FFFF, l, t);
      MulAssociate(0x4000_0000_0000_0000, n, t);
      MulLess(0x3FFF_FFFF_FFFF_FFFF * l, 0x4000_0000_0000_0000 * n, t);
      NoMultiple(f, step, unit, l, h, g);
    } else {
      var rest, t := Two(b + u - e - 1), Two(e);
      TwoAdd(b + u - e - 1, e);
      TwoSucc(b + u - 1);
      TwoAdd(u, b);
      TooCoarse(f, t, rest, Two(u), Two(b), l, h, g);
    }
  }

  lemma StepShape(n: nat)
    ensures Two(n) == 1 || Two(n) % 2 == 0
  {
    if n > 0 { TwoSucc(n - 1); } else { TwoNone(); }
  }

  lemma TooCoarse(f: nat, t: nat, rest: nat, unit: nat, s: nat, l: nat, h: nat, g: nat)
    requires f < 0x20_0000_0000_0000 && Gap(l, h, g * unit, unit, g % 2 == 0)
    requires t > 0 && rest > 0 && s > 0 && unit * s == 2 * (rest * t)
    ensures 0x3FFF_FFFF_FFFF_FFFF * (l * s) >= 0x4000_0000_0000_0000 * (f * t)
  {
    MulLess(0x10_0000_0000_0000 * unit, l, s);
    MulAssociate(0x10_0000_0000_0000, unit, s);
    MulLess(1, rest, t);
    MulLess(f, 0x20_0000_0000_0000 - 1, t);
  }

  /** The double's position in fine steps, against the bounds of the power. */
  lemma FinePosition(d64: nat, k: int, lo: nat, hi: nat, b: nat)
    requires d64 < INFINITY && JustBelowTen(d64, k) && Between(k, lo, hi, b)
    ensures
      var m := Units(d64) * Two(FINE - UNIT);
      m < hi * Two(b) && 0x3FFF_FFFF_FFFF_FFFF * (lo * Two(b)) < 0x4000_0000_0000_0000 * m
  {
    hide Two, TenUp, TenDown, Units;
    var U, t, up, down, fine := Units(d64), Two(FINE - UNIT), TenUp(k), TenDown(k), Two(FINE);
    TwoAdd(UNIT, FINE - UNIT);
    var m := U * t;
    Regroup3(U, down, t);
    MulAssociate(up, Two(UNIT), t);
    MulLess(U * down, up * Two(UNIT), t);
    MulLess(m, hi * Two(b), down);
    var x := lo * Two(b);
    MulAssociate(0x3FFF_FFFF_FFFF_FFFF, up * Two(UNIT), t);
    MulAssociate(0x4000_0000_0000_0000, U, down);
    MulAssociate(0x4000_0000_0000_0000, U * down, t);
    MulLess(0x3FFF_FFFF_FFFF_FFFF * (up * Two(UNIT)), 0x4000_0000_0000_0000 * (U * down), t);
    MulAssociate(0x3FFF_FFFF_FFFF_FFFF, x, down);
    MulAssociate(0x4000_0000_0000_0000, m, down);
    MulLess(0x3FFF_FFFF_FFFF_FFFF * x, 0x4000_0000_0000_0000 * m, down);
  }

  lemma Regroup3(x: int, y: int, z: int)
    ensures (x * y) * z == (x * z) * y
  {
    MulAssociate(x, y, z);
    MulAssociate(x, z, y);
  }

  ghost predicate NoneBelow(k: int) {
    forall d64: nat :: d64 < INFINITY ==> !JustBelowTen(d64, k)
  }

  lemma GapMeans(k: int, l: nat, h: nat, b: nat, u: nat, g: nat)
    requires Between(k, l, h, b) && Gap(l, h, g * Two(u), Two(u), g % 2 == 0)
    ensures NoneBelow(k)
  {
    hide Two, JustBelowTen, Between, Gap, Significand, Exponent;
    forall d64: nat | d64 < INFINITY ensures !JustBelowTen(d64, k) {
      var f, e := Significand(d64), Exponent(d64) + 1075;
      Ranges(d64);
      TwoAdd(e, FINE - UNIT);
      MulAssociate(f, Two(e), Two(FINE - UNIT));
      NoDoubleBetween(f, e + FINE - UNIT, b, u, l, h, g);
      if JustBelowTen(d64, k) { FinePosition(d64, k, l, h, b); }
    }
  }

  // ----- from one power to the next -----

  lemma NextPower(k: int, lo: nat, hi: nat, b: nat)
    requires Between(k, lo, hi, b)
    ensures Between(k + 1, 10 * lo, 10 * hi, b)
  {
    hide Two;
    var t, fine := Two(b), Two(FINE);
    MulAssociate(10, lo, t);
    MulAssociate(10, hi, t);
    if k >= 0 {
      TenSucc(k);
      MulAssociate(10, Pow10(k), fine);
    } else {
      TenSucc(-k - 1);
      Regroup3(lo * t, 10, TenDown(k + 1));
      Regroup3(hi * t, 10, TenDown(k + 1));
      MulAssociate(10, lo * t, TenDown(k + 1));
      MulAssociate(10, hi * t, TenDown(k + 1));
      MulAssociate(lo * t, 10, TenDown(k + 1));
      MulAssociate(hi * t, 10, TenDown(k + 1));
    }
  }

  lemma PreviousPower(k: int, lo: nat, hi: nat, b: nat)
    requires Between(k, 10 * lo, 10 * hi, b)
    ensures Between(k - 1, lo, hi, b)
  {
    hide Two;
    var t, fine := Two(b), Two(FINE);
    MulAssociate(10, lo, t);
    MulAssociate(10, hi, t);
    if k > 0 {
      TenSucc(k - 1);
      MulAssociate(10, Pow10(k - 1), fine);
    } else {
      TenSucc(-k);
      MulAssociate(10, lo * t, TenDown(k));
      MulAssociate(10, hi * t, TenDown(k));
      MulAssociate(lo * t, 10, TenDown(k));
      MulAssociate(hi * t, 10, TenDown(k));
    }
  }

  lemma {:induction false} HigherPower(k: int, lo: nat, hi: nat, b: nat, n: nat)
    requires Between(k, lo, hi, b)
    ensures Between(k + n, Pow10(n) * lo, Pow10(n) * hi, b)
    decreases n
  {
    hide Between;
    if n > 0 {
      HigherPower(k, lo, hi, b, n - 1);
      NextPower(k + n - 1, Pow10(n - 1) * lo, Pow10(n - 1) * hi, b);
      TenSucc(n - 1);
      MulAssociate(10, Pow10(n - 1), lo);
      MulAssociate(10, Pow10(n - 1), hi);
    } else {
      TenIs();
    }
  }

  lemma {:induction false} LowerPower(k: int, lo: nat, hi: nat, b: nat, n: nat)
    requires Between(k, Pow10(n) * lo, Pow10(n) * hi, b)
    ensures Between(k - n, lo, hi, b)
    decreases n
  {
    hide Between;
    if n > 0 {
      TenSucc(n - 1);
      MulAssociate(10, Pow10(n - 1), lo);
      MulAssociate(10, Pow10(n - 1), hi);
      PreviousPower(k, Pow10(n - 1) * lo, Pow10(n - 1) * hi, b);
      LowerPower(k - 1, lo, hi, b, n - 1);
    } else {
      TenIs();
    }
  }

  /** Wider bounds in steps of another size. */
  lemma Resize(k: int, lo: nat, hi: nat, b: nat, lo2: nat, hi2: nat, b2: nat)
    requires Between(k, lo, hi, b) && b2 <= b && lo2 <= lo * Two(b - b2) && hi * Two(b - b2) <= hi2
    ensures Between(k, lo2, hi2, b2)
  {
    hide Two, TenUp, TenDown;
    var t, s, down := Two(b - b2), Two(b2), TenDown(k);
    TwoAdd(b - b2, b2);
    MulAssociate(lo, t, s);
    MulAssociate(hi, t, s);
    MulLess(lo2, lo * t, s);
    MulLess(hi * t, hi2, s);
    MulLess(lo2 * s, (lo * t) * s, down);
    MulLess((hi * t) * s, hi2 * s, down);
  }

  lemma Coarsen(k: int, lo: nat, hi: nat, b: nat, lo2: nat, hi2: nat, b2: nat)
    requires Between(k, lo, hi, b) && b <= b2 && lo2 * Two(b2 - b) <= lo && hi <= hi2 * Two(b2 - b)
    ensures Between(k, lo2, hi2, b2)
  {
    hide Two, TenUp, TenDown;
    var t, s, down := Two(b2 - b), Two(b), TenDown(k);
    TwoAdd(b2 - b, b);
    MulAssociate(lo2, t, s);
    MulAssociate(hi2, t, s);
    MulLess(lo2 * t, lo, s);
    MulLess(hi, hi2 * t, s);
    MulLess((lo2 * t) * s, lo * s, down);
    MulLess(hi * s, (hi2 * t) * s, down);
  }

  lemma SmallNumerals()
    ensures Two(8) == 0x100 && Two(16) == 0x1_0000 && Two(32) == 0x1_0000_0000
    ensures Two(33) == 0x2_0000_0000 && Two(34) == 0x4_0000_0000 && Two(64) == 0x1_0000_0000_0000_0000
    ensures Two(2) == 4 && Two(3) == 8 && Two(4) == 16
  {
    hide Pow;
    TwoNone();
    TwoSucc(0);
    TwoSucc(1);
    TwoSucc(2);
    TwoSucc(3);
    TwoAdd(4, 4);
    TwoAdd(8, 8);
    TwoAdd(16, 16);
    TwoSucc(32);
    TwoSucc(33);
    TwoAdd(32, 32);
  }

  lemma Numerals()
    ensures Two(75) == 0x800_0000_0000_0000_0000 && Two(78) == 0x4000_0000_0000_0000_0000
    ensures Two(81) == 0x2_0000_0000_0000_0000_0000 && Two(84) == 0x10_0000_0000_0000_0000_0000
    ensures Two(88) == 0x100_0000_0000_0000_0000_0000 && Two(91) == 0x800_0000_0000_0000_0000_0000
    ensures Two(94) == 0x4000_0000_0000_0000_0000_0000 && Two(98) == 0x4_0000_0000_0000_0000_0000_0000
    ensures Two(101) == 0x20_0000_0000_0000_0000_0000_0000 && Two(104) == 0x100_0000_0000_0000_0000_0000_0000
  {
    hide Two;
    SmallNumerals();
    TwoAdd(8, 3);
    TwoAdd(64, 11);
    TwoAdd(75, 3);
    TwoAdd(78, 3);
    TwoAdd(81, 3);
    TwoAdd(84, 4);
    TwoAdd(88, 3);
    TwoAdd(91, 3);
    TwoAdd(94, 4);
    TwoAdd(98, 3);
    TwoAdd(101, 3);
  }

  lemma TenNumerals()
    ensures Pow10(0) == 1
    ensures Pow10(1) == 10
    ensures Pow10(2) == 100
    ensures Pow10(3) == 1000
    ensures Pow10(4) == 10000
    ensures Pow10(5) == 100000
    ensures Pow10(6) == 1000000
    ensures Pow10(7) == 10000000
    ensures Pow10(8) == 100000000
    ensures Pow10(9) == 1000000000
    ensures Pow10(10) == 10000000000
  {
    hide Pow10;
    TenIs();
    TenSucc(0);
    TenSucc(1);
    TenSucc(2);
    TenSucc(3);
    TenSucc(4);
    TenSucc(5);
    TenSucc(6);
    TenSucc(7);
    TenSucc(8);
    TenSucc(9);
  }

  // ----- ten powers -----

  ghost predicate Clear(from: int, to: int) {
    forall k :: from <= k < to ==> NoneBelow(k)
  }

  lemma Join(from: int, mid: int, to: int)
    requires Clear(from, mid) && Clear(mid, to)
    ensures Clear(from, to)
  {}

  /** Of ten powers in a row, each with the last multiple of the unit below it. */
  lemma TenGaps(k: int, lo: nat, hi: nat, b: nat, g0: nat, g1: nat, g2: nat, g3: nat, g4: nat,
      g5: nat, g6: nat, g7: nat, g8: nat, g9: nat)
    requires Between(k, lo, hi, b)
    requires Gap(lo, hi, g0 * 0x800_0000_0000_0000_0000, 0x800_0000_0000_0000_0000, g0 % 2 == 0)
    requires Gap(10 * lo, 10 * hi, g1 * 0x4000_0000_0000_0000_0000, 0x4000_0000_0000_0000_0000, g1 % 2 == 0)
    requires Gap(100 * lo, 100 * hi, g2 * 0x2_0000_0000_0000_0000_0000, 0x2_0000_0000_0000_0000_0000, g2 % 2 == 0)
    requires Gap(1000 * lo, 1000 * hi, g3 * 0x10_0000_0000_0000_0000_0000, 0x10_0000_0000_0000_0000_0000, g3 % 2 == 0)
    requires Gap(10000 * lo, 10000 * hi, g4 * 0x100_0000_0000_0000_0000_0000, 0x100_0000_0000_0000_0000_0000, g4 % 2 == 0)
    requires Gap(100000 * lo, 100000 * hi, g5 * 0x800_0000_0000_0000_0000_0000, 0x800_0000_0000_0000_0000_0000, g5 % 2 == 0)
    requires Gap(1000000 * lo, 1000000 * hi, g6 * 0x4000_0000_0000_0000_0000_0000, 0x4000_0000_0000_0000_0000_0000, g6 % 2 == 0)
    requires Gap(10000000 * lo, 10000000 * hi, g7 * 0x4_0000_0000_0000_0000_0000_0000, 0x4_0000_0000_0000_0000_0000_0000, g7 % 2 == 0)
    requires Gap(100000000 * lo, 100000000 * hi, g8 * 0x20_0000_0000_0000_0000_0000_0000, 0x20_0000_0000_0000_0000_0000_0000, g8 % 2 == 0)
    requires Gap(1000000000 * lo, 1000000000 * hi, g9 * 0x100_0000_0000_0000_0000_0000_0000, 0x100_0000_0000_0000_0000_0000_0000, g9 % 2 == 0)
    ensures Clear(k, k + 10)
  {
    hide Two, Pow10, Between, Gap, NoneBelow;
    Numerals();
    TenNumerals();
    HigherPowers(k, lo, hi, b);
    GapMeans(k, lo, hi, b, 75, g0);
    GapMeans(k + 1, 10 * lo, 10 * hi, b, 78, g1);
    GapMeans(k + 2, 100 * lo, 100 * hi, b, 81, g2);
    GapMeans(k + 3, 1000 * lo, 1000 * hi, b, 84, g3);
    GapMeans(k + 4, 10000 * lo, 10000 * hi, b, 88, g4);
    GapMeans(k + 5, 100000 * lo, 100000 * hi, b, 91, g5);
    GapMeans(k + 6, 1000000 * lo, 1000000 * hi, b, 94, g6);
    GapMeans(k + 7, 10000000 * lo, 10000000 * hi, b, 98, g7);
    GapMeans(k + 8, 100000000 * lo, 100000000 * hi, b, 101, g8);
    GapMeans(k + 9, 1000000000 * lo, 1000000000 * hi, b, 104, g9);
  }

  lemma HigherPowers(k: int, lo: nat, hi: nat, b: nat)
    requires Between(k, lo, hi, b)
    ensures Between(k + 1, 10 * lo, 10 * hi, b)
    ensures Between(k + 2, 100 * lo, 100 * hi, b)
    ensures Between(k + 3, 1000 * lo, 1000 * hi, b)
    ensures Between(k + 4, 10000 * lo, 10000 * hi, b)
    ensures Between(k + 5, 100000 * lo, 100000 * hi, b)
    ensures Between(k + 6, 1000000 * lo, 1000000 * hi, b)
    ensures Between(k + 7, 10000000 * lo, 10000000 * hi, b)
    ensures Between(k + 8, 100000000 * lo, 100000000 * hi, b)
    ensures Between(k + 9, 1000000000 * lo, 1000000000 * hi, b)
  {
    hide Pow10, Between;
    TenNumerals();
    HigherPower(k, lo, hi, b, 1);
    HigherPower(k, lo, hi, b, 2);
    HigherPower(k, lo, hi, b, 3);
    HigherPower(k, lo, hi, b, 4);
    HigherPower(k, lo, hi, b, 5);
    HigherPower(k, lo, hi, b, 6);
    HigherPower(k, lo, hi, b, 7);
    HigherPower(k, lo, hi, b, 8);
    HigherPower(k, lo, hi, b, 9);
  }

  /** Ten powers up, and the bounds of the next. */
  lemma Ascend(k: int, lo: nat, hi: nat, b: nat, lo2: nat, hi2: nat, b2: nat)
    requires Between(k, lo, hi, b)
    requires (b2 == b + 33 && lo2 * 0x2_0000_0000 <= 10000000000 * lo && 10000000000 * hi <= hi2 * 0x2_0000_0000)
          || (b2 == b + 34 && lo2 * 0x4_0000_0000 <= 10000000000 * lo && 10000000000 * hi <= hi2 * 0x4_0000_0000)
    ensures Between(k + 10, lo2, hi2, b2)
  {
    hide Two, Pow10, Between;
    SmallNumerals();
    TenNumerals();
    HigherPower(k, lo, hi, b, 10);
    Coarsen(k + 10, 10000000000 * lo, 10000000000 * hi, b, lo2, hi2, b2);
  }

  lemma Descend(k: int, lo: nat, hi: nat, b: nat, lo2: nat, hi2: nat, b2: nat)
    requires Between(k, lo, hi, b)
    requires (b == b2 + 33 && 10000000000 * lo2 <= lo * 0x2_0000_0000 && hi * 0x2_0000_0000 <= 10000000000 * hi2)
          || (b == b2 + 34 && 10000000000 * lo2 <= lo * 0x4_0000_0000 && hi * 0x4_0000_0000 <= 10000000000 * hi2)
    ensures Between(k - 10, lo2, hi2, b2)
  {
    hide Two, Pow10, Between;
    SmallNumerals();
    TenNumerals();
    Resize(k, lo, hi, b, 10000000000 * lo2, 10000000000 * hi2, b2);
    LowerPower(k, lo2, hi2, b2, 10);
  }

  // ----- all powers -----

  lemma Start()
    ensures Between(0, 0x8000_0000_0000_0000_0000_0000_0000_0000, 0x8000_0000_0000_0000_0000_0000_0000_0000, 1248)
  {
    hide Two;
    TopBit();
    TwoAdd(127, 1248);
    TenIs();
  }

  lemma TopBit()
    ensures Two(127) == 0x8000_0000_0000_0000_0000_0000_0000_0000
  {
    hide Two;
    SmallNumerals();
    TwoSucc(127);
    TwoAdd(64, 64);
  }

  lemma PowersTo30()
    ensures Clear(0, 30)
    ensures Between(30, 268435456000000000000000000000000000000, 268435456000000000000000000000000000000, 1347)
  {
    hide Between, NoneBelow;
    Start();
    TenGaps(0, 170141183460469231731687303715884105728, 170141183460469231731687303715884105728, 1248,
      4503599627370495, 5629499534213119, 7036874417766399, 8796093022207999, 5497558138879999,
      6871947673599999, 8589934591999999, 5368709119999999, 6710886399999999, 8388607999999999);
    Ascend(0, 170141183460469231731687303715884105728, 170141183460469231731687303715884105728, 1248,
      198070406285660843983859875840000000000, 198070406285660843983859875840000000000, 1281);
    TenGaps(10, 198070406285660843983859875840000000000, 198070406285660843983859875840000000000, 1281,
      5242879999999999, 6553599999999999, 8191999999999999, 10239999999999998, 6399999999999999,
      7999999999999999, 9999999999999998, 6249999999999999, 7812499999999999, 9765624999999998);
    Join(0, 10, 20);
    Ascend(10, 198070406285660843983859875840000000000, 198070406285660843983859875840000000000, 1281,
      230584300921369395200000000000000000000, 230584300921369395200000000000000000000, 1314);
    TenGaps(20, 230584300921369395200000000000000000000, 230584300921369395200000000000000000000, 1314,
      6103515624999999, 7629394531249999, 9536743164062498, 11920928955078124, 7450580596923828,
      9313225746154784, 11641532182693480, 7275957614183425, 9094947017729282, 11368683772161602);
    Join(0, 20, 30);
    Ascend(20, 230584300921369395200000000000000000000, 230584300921369395200000000000000000000, 1314,
      268435456000000000000000000000000000000, 268435456000000000000000000000000000000, 1347);
  }

  lemma PowersTo60()
    ensures Clear(0, 60)
    ensures Between(60, 211758236813575084767080625169910490512, 211758236813575084767080625169910490513, 1447)
  {
    hide Between, NoneBelow;
    PowersTo30();
    TenGaps(30, 268435456000000000000000000000000000000, 268435456000000000000000000000000000000, 1347,
      7105427357601001, 8881784197001252, 11102230246251564, 13877787807814456, 8673617379884035,
      10842021724855044, 13552527156068804, 8470329472543003, 10587911840678754, 13234889800848442);
    Join(0, 30, 40);
    Ascend(30, 268435456000000000000000000000000000000, 268435456000000000000000000000000000000, 1347,
      312500000000000000000000000000000000000, 312500000000000000000000000000000000000, 1380);
    TenGaps(40, 312500000000000000000000000000000000000, 312500000000000000000000000000000000000, 1380,
      8271806125530276, 10339757656912844, 12924697071141056, 16155871338926320, 10097419586828950,
      12621774483536188, 15777218104420236, 9860761315262646, 12325951644078308, 15407439555097886);
    Join(0, 40, 50);
    Ascend(40, 312500000000000000000000000000000000000, 312500000000000000000000000000000000000, 1380,
      181898940354585647583007812500000000000, 181898940354585647583007812500000000000, 1414);
    TenGaps(50, 181898940354585647583007812500000000000, 181898940354585647583007812500000000000, 1414,
      4814824860968089, 6018531076210112, 7523163845262640, 9403954806578300, 5877471754111437,
      7346839692639296, 9183549615799120, 5739718509874450, 7174648137343063, 8968310171678829);
    Join(0, 50, 60);
    Ascend(50, 181898940354585647583007812500000000000, 181898940354585647583007812500000000000, 1414,
      211758236813575084767080625169910490512, 211758236813575084767080625169910490513, 1447);
  }

  lemma PowersTo90()
    ensures Clear(0, 90)
    ensures Between(90, 334095588761524455767567058393935234849, 334095588761524455767567058393935234854, 1546)
  {
    hide Between, NoneBelow;
    PowersTo60();
    TenGaps(60, 211758236813575084767080625169910490512, 211758236813575084767080625169910490513, 1447,
      5605193857299268, 7006492321624085, 8758115402030106, 10947644252537632, 6842277657836020,
      8552847072295026, 10691058840368782, 6681911775230489, 8352389719038111, 10440487148797638);
    Join(0, 60, 70);
    Ascend(60, 211758236813575084767080625169910490512, 211758236813575084767080625169910490513, 1447,
      246519032881566189191165176650870696771, 246519032881566189191165176650870696774, 1480);
    TenGaps(70, 246519032881566189191165176650870696771, 246519032881566189191165176650870696774, 1480,
      6525304467998524, 8156630584998155, 10195788231247694, 12744735289059618, 7965459555662261,
      9956824444577826, 12446030555722282, 7778769097326427, 9723461371658032, 12154326714572542);
    Join(0, 70, 80);
    Ascend(70, 246519032881566189191165176650870696771, 246519032881566189191165176650870696774, 1480,
      286985925493722536125179818657774823684, 286985925493722536125179818657774823688, 1513);
    TenGaps(80, 286985925493722536125179818657774823684, 286985925493722536125179818657774823688, 1513,
      7596454196607838, 9495567745759798, 11869459682199748, 14836824602749684, 9273015376718552,
      11591269220898190, 14489086526122738, 9055679078826712, 11319598848533390, 14149498560666738);
    Join(0, 80, 90);
    Ascend(80, 286985925493722536125179818657774823684, 286985925493722536125179818657774823688, 1513,
      334095588761524455767567058393935234849, 334095588761524455767567058393935234854, 1546);
  }

  lemma PowersTo120()
    ensures Clear(0, 120)
    ensures Between(120, 263554948580763080608714351281750475189, 263554948580763080608714351281750475196, 1646)
  {
    hide Between, NoneBelow;
    PowersTo90();
    TenGaps(90, 334095588761524455767567058393935234849, 334095588761524455767567058393935234854, 1546,
      8843436600416711, 11054295750520888, 13817869688151110, 17272337110188888, 10795210693868054,
      13494013367335068, 16867516709168836, 10542197943230522, 13177747429038154, 16472184286297692);
    Join(0, 90, 100);
    Ascend(90, 334095588761524455767567058393935234849, 334095588761524455767567058393935234854, 1546,
      194469227433160678348252001680628882516, 194469227433160678348252001680628882520, 1580);
    TenGaps(100, 194469227433160678348252001680628882516, 194469227433160678348252001680628882520, 1580,
      5147557589468028, 6434446986835036, 8043058733543795, 10053823416929742, 6283639635581089,
      7854549544476362, 9818186930595452, 6136366831622158, 7670458539527697, 9588073174409622);
    Join(0, 100, 110);
    Ascend(100, 194469227433160678348252001680628882516, 194469227433160678348252001680628882520, 1580,
      226391976970667809187727982272194794514, 226391976970667809187727982272194794519, 1613);
    TenGaps(110, 226391976970667809187727982272194794514, 226391976970667809187727982272194794519, 1613,
      5992545734006013, 7490682167507517, 9363352709384396, 11704190886730494, 7315119304206559,
      9143899130258198, 11429873912822748, 7143671195514218, 8929588994392773, 11161986242990966);
    Join(0, 110, 120);
    Ascend(110, 226391976970667809187727982272194794514, 226391976970667809187727982272194794519, 1613,
      263554948580763080608714351281750475189, 263554948580763080608714351281750475196, 1646);
  }

  lemma PowersTo150()
    ensures Clear(0, 150)
    ensures Between(150, 207908195312897984370608091613638127351, 207908195312897984370608091613638127359, 1746)
  {
    hide Between, NoneBelow;
    PowersTo120();
    TenGaps(120, 263554948580763080608714351281750475189, 263554948580763080608714351281750475196, 1646,
      6976241401869354, 8720301752336692, 10900377190420864, 13625471488026082, 8515919680016301,
      10644899600020376, 13306124500025470, 8316327812515919, 10395409765644898, 12994262207056124);
    Join(0, 120, 130);
    Ascend(120, 263554948580763080608714351281750475189, 263554948580763080608714351281750475196, 1646,
      306818341581107909568485747186642227681, 306818341581107909568485747186642227690, 1679);
    TenGaps(130, 306818341581107909568485747186642227681, 306818341581107909568485747186642227690, 1679,
      8121413879410077, 10151767349262596, 12689709186578246, 15862136483222806, 9913835302014254,
      12392294127517818, 15490367659397272, 9681479787123294, 12101849733904118, 15127312167380148);
    Join(0, 130, 140);
    Ascend(130, 306818341581107909568485747186642227681, 306818341581107909568485747186642227690, 1679,
      178591779887855465971216179422709524911, 178591779887855465971216179422709524917, 1713);
    TenGaps(140, 178591779887855465971216179422709524911, 178591779887855465971216179422709524917, 1713,
      4727285052306296, 5909106315382870, 7386382894228588, 9232978617785734, 5770611636116084,
      7213264545145106, 9016580681431382, 5635362925894614, 7044203657368267, 8805254571710334);
    Join(0, 140, 150);
    Ascend(140, 178591779887855465971216179422709524911, 178591779887855465971216179422709524917, 1713,
      207908195312897984370608091613638127351, 207908195312897984370608091613638127359, 1746);
  }

  lemma PowersTo180()
    ensures Clear(0, 180)
    ensures Between(180, 328021294314799255458543241647960309052, 328021294314799255458543241647960309068, 1845)
  {
    hide Between, NoneBelow;
    PowersTo150();
    TenGaps(150, 207908195312897984370608091613638127351, 207908195312897984370608091613638127359, 1746,
      5503284107318959, 6879105134148698, 8598881417685873, 10748601772107342, 6717876107567088,
      8397345134458860, 10496681418073576, 6560425886295985, 8200532357869981, 10250665447337476);
    Join(0, 150, 160);
    Ascend(150, 207908195312897984370608091613638127351, 207908195312897984370608091613638127359, 1746,
      242036994678082392051126914580396990467, 242036994678082392051126914580396990477, 1779);
    TenGaps(160, 242036994678082392051126914580396990467, 242036994678082392051126914580396990477, 1779,
      6406665904585922, 8008332380732403, 10010415475915504, 12513019344894380, 7820637090558987,
      9775796363198734, 12219745453998418, 7637340908749011, 9546676135936264, 11933345169920330);
    Join(0, 160, 170);
    Ascend(160, 242036994678082392051126914580396990467, 242036994678082392051126914580396990477, 1779,
      281768146294730706199918541335962934497, 281768146294730706199918541335962934510, 1812);
    TenGaps(170, 281768146294730706199918541335962934497, 281768146294730706199918541335962934510, 1812,
      7458340731200206, 9322925914000258, 11653657392500322, 14567071740625402, 9104419837890876,
      11380524797363596, 14225655996704494, 8891034997940309, 11113793747425386, 13892242184281734);
    Join(0, 170, 180);
    Ascend(170, 281768146294730706199918541335962934497, 281768146294730706199918541335962934510, 1812,
      328021294314799255458543241647960309052, 328021294314799255458543241647960309068, 1845);
  }

  lemma PowersTo210()
    ensures Clear(0, 210)
    ensures Between(210, 258763175164940474024358370140027266093, 258763175164940474024358370140027266109, 1945)
  {
    hide Between, NoneBelow;
    PowersTo180();
    TenGaps(180, 328021294314799255458543241647960309052, 328021294314799255458543241647960309068, 1845,
      8682651365176083, 10853314206470104, 13566642758087630, 16958303447609538, 10598939654755960,
      13248674568444952, 16560843210556190, 10350527006597618, 12938158758247022, 16172698447808778);
    Join(0, 180, 190);
    Ascend(180, 328021294314799255458543241647960309052, 328021294314799255458543241647960309068, 1845,
      190933522718725292628248712075851106231, 190933522718725292628248712075851106241, 1879);
    TenGaps(190, 190933522718725292628248712075851106231, 190933522718725292628248712075851106241, 1879,
      5053968264940243, 6317460331175304, 7896825413969130, 9871031767461412, 6169394854663383,
      7711743568329229, 9639679460411536, 6024799662757210, 7530999578446512, 9413749473058140);
    Join(0, 190, 200);
    Ascend(190, 190933522718725292628248712075851106231, 190933522718725292628248712075851106241, 1879,
      222275874948507748344271341427056009684, 222275874948507748344271341427056009697, 1912);
    TenGaps(200, 222275874948507748344271341427056009684, 222275874948507748344271341427056009697, 1912,
      5883593420661338, 7354491775826672, 9193114719783340, 11491393399729176, 7182120874830735,
      8977651093538418, 11222063866923022, 7013789916826889, 8767237396033612, 10959046745042014);
    Join(0, 200, 210);
    Ascend(200, 222275874948507748344271341427056009684, 222275874948507748344271341427056009697, 1912,
      258763175164940474024358370140027266093, 258763175164940474024358370140027266109, 1945);
  }

  lemma PowersTo240()
    ensures Clear(0, 240)
    ensures Between(240, 204128152598478183127259193653345185569, 204128152598478183127259193653345185584, 2045)
  {
    hide Between, NoneBelow;
    PowersTo210();
    TenGaps(210, 258763175164940474024358370140027266093, 258763175164940474024358370140027266109, 1945,
      6849404215651259, 8561755269564074, 10702194086955092, 13377742608693866, 8361089130433666,
      10451361413042082, 13064201766302602, 8165126103939127, 10206407629923908, 12758009537404886);
    Join(0, 210, 220);
    Ascend(210, 258763175164940474024358370140027266093, 258763175164940474024358370140027266109, 1945,
      301239983137860514717593754339063617043, 301239983137860514717593754339063617063, 1978);
    TenGaps(220, 301239983137860514717593754339063617043, 301239983137860514717593754339063617063, 1978,
      7973755960878054, 9967194951097566, 12458993688871958, 15573742111089948, 9733588819431218,
      12166986024289022, 15208732530361278, 9505457831475798, 11881822289344748, 14852277861680936);
    Join(0, 220, 230);
    Ascend(220, 301239983137860514717593754339063617043, 301239983137860514717593754339063617063, 1978,
      175344747920672243180215448571289666604, 175344747920672243180215448571289666616, 2012);
    TenGaps(230, 175344747920672243180215448571289666604, 175344747920672243180215448571289666616, 2012,
      4641336831775292, 5801671039719115, 7252088799648894, 9065110999561118, 5665694374725698,
      7082117968407123, 8852647460508904, 5532904662818065, 6916130828522581, 8645163535653227);
    Join(0, 230, 240);
    Ascend(230, 175344747920672243180215448571289666604, 175344747920672243180215448571289666616, 2012,
      204128152598478183127259193653345185569, 204128152598478183127259193653345185584, 2045);
  }

  lemma PowersTo270()
    ensures Clear(0, 270)
    ensures Between(270, 322057438479856665411351825168442625246, 322057438479856665411351825168442625274, 2144)
  {
    hide Between, NoneBelow;
    PowersTo240();
    TenGaps(240, 204128152598478183127259193653345185569, 204128152598478183127259193653345185584, 2045,
      5403227209783266, 6754034012229083, 8442542515286354, 10553178144107942, 6595736340067464,
      8244670425084330, 10305838031355412, 6441148769597133, 8051435961996416, 10064294952495520);
    Join(0, 240, 250);
    Ascend(240, 204128152598478183127259193653345185569, 204128152598478183127259193653345185584, 2045,
      237636445786894977939384050729387888648, 237636445786894977939384050729387888667, 2078);
    TenGaps(250, 237636445786894977939384050729387888648, 237636445786894977939384050729387888667, 2078,
      6290184345309700, 7862730431637125, 9828413039546406, 12285516299433008, 7678447687145630,
      9598059608932038, 11997574511165046, 7498484069478154, 9373105086847692, 11716381358559616);
    Join(0, 250, 260);
    Ascend(250, 237636445786894977939384050729387888648, 237636445786894977939384050729387888667, 2078,
      276645233140903266541874095249674153337, 276645233140903266541874095249674153360, 2111);
    TenGaps(260, 276645233140903266541874095249674153337, 276645233140903266541874095249674153360, 2111,
      7322738349099760, 9153422936374700, 11441778670468374, 14302223338085468, 8938889586303418,
      11173611982879272, 13967014978599090, 8729384361624432, 10911730452030540, 13639663065038174);
    Join(0, 260, 270);
    Ascend(260, 276645233140903266541874095249674153337, 276645233140903266541874095249674153360, 2111,
      322057438479856665411351825168442625246, 322057438479856665411351825168442625274, 2144);
  }

  lemma PowersTo300()
    ensures Clear(0, 300)
    ensures Between(300, 254058522452380049271391022923583936183, 254058522452380049271391022923583936207, 2244)
  {
    hide Between, NoneBelow;
    PowersTo270();
    TenGaps(270, 322057438479856665411351825168442625246, 322057438479856665411351825168442625274, 2144,
      8524789415648859, 10655986769561074, 13319983461951342, 16649979327439178, 10406237079649486,
      13007796349561858, 16259745436952322, 10162340898095200, 12702926122619002, 15878657653273752);
    Join(0, 270, 280);
    Ascend(270, 322057438479856665411351825168442625246, 322057438479856665411351825168442625274, 2144,
      187462101736953869352205554703508169184, 187462101736953869352205554703508169201, 2178);
    TenGaps(280, 187462101736953869352205554703508169184, 187462101736953869352205554703508169201, 2178,
      4962080516648047, 6202600645810059, 7753250807262574, 9691563509078218, 6057227193173886,
      7571533991467358, 9464417489334196, 5915260930833873, 7394076163542341, 9242595204427926);
    Join(0, 280, 290);
    Ascend(280, 187462101736953869352205554703508169184, 187462101736953869352205554703508169201, 2178,
      218234609040610805796698614376955862604, 218234609040610805796698614376955862624, 2211);
    TenGaps(290, 218234609040610805796698614376955862604, 218234609040610805796698614376955862624, 2211,
      5776622002767454, 7220777503459318, 9025971879324146, 11282464849155184, 7051540530721990,
      8814425663402488, 11018032079253110, 6886270049533193, 8607837561916492, 10759796952395614);
    Join(0, 290, 300);
    Ascend(290, 218234609040610805796698614376955862604, 218234609040610805796698614376955862624, 2211,
      254058522452380049271391022923583936183, 254058522452380049271391022923583936207, 2244);
  }

  lemma PowersTo310()
    ensures Clear(0, 310)
    ensures Between(310, 295763046541693677743187899379506632898, 295763046541693677743187899379506632927, 2277)
  {
    hide Between, NoneBelow;
    PowersTo300();
    TenGaps(300, 254058522452380049271391022923583936183, 254058522452380049271391022923583936207, 2244,
      6724873095247259, 8406091369059074, 10507614211323842, 13134517764154802, 8209073602596752,
      10261342003245940, 12826677504057424, 8016673440035891, 10020841800044862, 12526052250056078);
    Join(0, 300, 310);
    Ascend(300, 254058522452380049271391022923583936183, 254058522452380049271391022923583936207, 2244,
      295763046541693677743187899379506632898, 295763046541693677743187899379506632927, 2277);
  }

  lemma PowersDownTo30()
    ensures Clear(-30, 0)
    ensures Between(-30, 215679573337205118357336120696157045388, 215679573337205118357336120696157045390, 1148)
  {
    hide Between, NoneBelow;
    Start();
    Descend(0, 170141183460469231731687303715884105728, 170141183460469231731687303715884105728, 1248,
      292300327466180583640736966543256603931, 292300327466180583640736966543256603932, 1214);
    TenGaps(-10, 292300327466180583640736966543256603931, 292300327466180583640736966543256603932, 1214,
      7737125245533626, 9671406556917032, 12089258196146290, 15111572745182864, 9444732965739290,
      11805916207174112, 14757395258967640, 9223372036854774, 11529215046068468, 14411518807585586);
    Descend(-10, 292300327466180583640736966543256603931, 292300327466180583640736966543256603932, 1214,
      251084069415467230553431576928306656643, 251084069415467230553431576928306656645, 1181);
    TenGaps(-20, 251084069415467230553431576928306656643, 251084069415467230553431576928306656645, 1181,
      6646139978924579, 8307674973655724, 10384593717069654, 12980742146337068, 8112963841460668,
      10141204801825834, 12676506002282294, 7922816251426433, 9903520314283042, 12379400392853802);
    Join(-20, -10, 0);
    Descend(-20, 251084069415467230553431576928306656643, 251084069415467230553431576928306656645, 1181,
      215679573337205118357336120696157045388, 215679573337205118357336120696157045390, 1148);
    TenGaps(-30, 215679573337205118357336120696157045388, 215679573337205118357336120696157045390, 1148,
      5708990770823839, 7136238463529799, 8920298079412249, 11150372599265310, 6968982874540819,
      8711228593176024, 10889035741470030, 6805647338418769, 8507059173023461, 10633823966279326);
    Join(-30, -20, 0);
  }

  lemma PowersDownTo60()
    ensures Clear(-60, 0)
    ensures Between(-60, 273406340597876490546562778389702670667, 273406340597876490546562778389702670673, 1048)
  {
    hide Between, NoneBelow;
    PowersDownTo30();
    Descend(-30, 215679573337205118357336120696157045388, 215679573337205118357336120696157045390, 1148,
      185267342779705912677713576013900652564, 185267342779705912677713576013900652567, 1115);
    TenGaps(-40, 185267342779705912677713576013900652564, 185267342779705912677713576013900652567, 1115,
      4903985730770844, 6129982163463555, 7662477704329444, 9578097130411804, 5986310706507378,
      7482888383134222, 9353610478917778, 5846006549323611, 7307508186654514, 9134385233318142);
    Join(-40, -30, 0);
    Descend(-40, 185267342779705912677713576013900652564, 185267342779705912677713576013900652567, 1115,
      318286871302263450979444638813965337662, 318286871302263450979444638813965337668, 1081);
    TenGaps(-50, 318286871302263450979444638813965337662, 318286871302263450979444638813965337668, 1081,
      8424983333484574, 10531229166855718, 13164036458569648, 16455045573212060, 10284403483257536,
      12855504354071922, 16069380442589902, 10043362776618688, 12554203470773360, 15692754338466700);
    Join(-50, -40, 0);
    Descend(-50, 318286871302263450979444638813965337662, 318286871302263450979444638813965337668, 1081,
      273406340597876490546562778389702670667, 273406340597876490546562778389702670673, 1048);
    TenGaps(-60, 273406340597876490546562778389702670667, 273406340597876490546562778389702670673, 1048,
      7237005577332262, 9046256971665326, 11307821214581658, 14134776518227074, 8834235323891921,
      11042794154864902, 13803492693581126, 8627182933488204, 10783978666860254, 13479973333575318);
    Join(-60, -50, 0);
  }

  lemma PowersDownTo90()
    ensures Clear(-90, 0)
    ensures Between(-90, 173291855882550928723650886508942731462, 173291855882550928723650886508942731468, 949)
  {
    hide Between, NoneBelow;
    PowersDownTo60();
    Descend(-60, 273406340597876490546562778389702670667, 273406340597876490546562778389702670673, 1048,
      234854258277383322788948059678933702735, 234854258277383322788948059678933702741, 1015);
    TenGaps(-70, 234854258277383322788948059678933702735, 234854258277383322788948059678933702741, 1015,
      6216540455122333, 7770675568902916, 9713344461128644, 12141680576410806, 7588550360256754,
      9485687950320942, 11857109937901178, 7410693711188236, 9263367138985294, 11579208923731618);
    Join(-70, -60, 0);
    Descend(-70, 234854258277383322788948059678933702735, 234854258277383322788948059678933702741, 1015,
      201738271725539733566868685312735302679, 201738271725539733566868685312735302685, 982);
    TenGaps(-80, 201738271725539733566868685312735302679, 201738271725539733566868685312735302685, 982,
      5339967589802275, 6674959487252844, 8343699359066055, 10429624198832568, 6518515124270355,
      8148143905337944, 10185179881672430, 6365737426045269, 7957171782556586, 9946464728195732);
    Join(-80, -70, 0);
    Descend(-80, 201738271725539733566868685312735302679, 201738271725539733566868685312735302685, 982,
      173291855882550928723650886508942731462, 173291855882550928723650886508942731468, 949);
    TenGaps(-90, 173291855882550928723650886508942731462, 173291855882550928723650886508942731468, 949,
      4586997231980143, 5733746539975178, 7167183174968973, 8958978968711216, 5599361855444510,
      6999202319305638, 8749002899132047, 5468126811957529, 6835158514946912, 8543948143683640);
    Join(-90, -80, 0);
  }

  lemma PowersDownTo120()
    ensures Clear(-120, 0)
    ensures Between(-120, 219673525124179510879420825570604582948, 219673525124179510879420825570604582957, 849)
  {
    hide Between, NoneBelow;
    PowersDownTo90();
    Descend(-90, 173291855882550928723650886508942731462, 173291855882550928723650886508942731468, 949,
      297713141471480582369003031710926657266, 297713141471480582369003031710926657277, 915);
    TenGaps(-100, 297713141471480582369003031710926657266, 297713141471480582369003031710926657277, 915,
      7880401239278895, 9850501549098618, 12313126936373274, 15391408670466592, 9619630419041620,
      12024538023802026, 15030672529752532, 9394170331095332, 11742712913869166, 14678391142336456);
    Join(-100, -90, 0);
    Descend(-100, 297713141471480582369003031710926657266, 297713141471480582369003031710926657277, 915,
      255733641241886083594780445064656183762, 255733641241886083594780445064656183772, 882);
    TenGaps(-110, 255733641241886083594780445064656183762, 255733641241886083594780445064656183772, 882,
      6769213120412145, 8461516400515182, 10576895500643976, 13221119375804970, 8263199609878107,
      10328999512347634, 12911249390434542, 8069530869021589, 10086913586276986, 12608641982846232);
    Join(-110, -100, 0);
    Descend(-110, 255733641241886083594780445064656183762, 255733641241886083594780445064656183772, 882,
      219673525124179510879420825570604582948, 219673525124179510879420825570604582957, 849);
    TenGaps(-120, 219673525124179510879420825570604582948, 219673525124179510879420825570604582957, 849,
      5814709794364855, 7268387242956068, 9085484053695086, 11356855067118856, 7098034416949286,
      8872543021186607, 11090678776483258, 6931674235302037, 8664592794127546, 10830740992659432);
    Join(-120, -110, 0);
  }

  lemma PowersDownTo150()
    ensures Clear(-150, 0)
    ensures Between(-150, 278469275977917188637766821636980671677, 278469275977917188637766821636980671692, 749)
  {
    hide Between, NoneBelow;
    PowersDownTo120();
    Descend(-120, 219673525124179510879420825570604582948, 219673525124179510879420825570604582957, 849,
      188698121241077067612077729049413444541, 188698121241077067612077729049413444550, 816);
    TenGaps(-130, 188698121241077067612077729049413444541, 188698121241077067612077729049413444550, 816,
      4994797680505587, 6243497100631984, 7804371375789980, 9755464219737474, 6097165137335922,
      7621456421669902, 9526820527087378, 5954262829429611, 7442828536787014, 9303535670983768);
    Join(-130, -120, 0);
    Descend(-130, 188698121241077067612077729049413444541, 188698121241077067612077729049413444550, 816,
      324180903818827574883781864350871964914, 324180903818827574883781864350871964930, 782);
    TenGaps(-140, 324180903818827574883781864350871964914, 324180903818827574883781864350871964930, 782,
      8580997075163262, 10726246343954076, 13407807929942596, 16759759912428246, 10474849945267652,
      13093562431584566, 16366953039480708, 10229345649675442, 12786682062094304, 15983352577617880);
    Join(-140, -130, 0);
    Descend(-140, 324180903818827574883781864350871964914, 324180903818827574883781864350871964930, 782,
      278469275977917188637766821636980671677, 278469275977917188637766821636980671692, 749);
    TenGaps(-150, 278469275977917188637766821636980671677, 278469275977917188637766821636980671692, 749,
      7371020360979572, 9213775451224466, 11517219314030582, 14396524142538228, 8997827589086392,
      11247284486357990, 14059105607947488, 8786941004967180, 10983676256208974, 13729595320261218);
    Join(-150, -140, 0);
  }

  lemma PowersDownTo180()
    ensures Clear(-180, 0)
    ensures Between(-180, 176500872419263593559319302637789241453, 176500872419263593559319302637789241465, 650)
  {
    hide Between, NoneBelow;
    PowersDownTo150();
    Descend(-150, 278469275977917188637766821636980671677, 278469275977917188637766821636980671692, 749,
      239203286653190548679094257880939433807, 239203286653190548679094257880939433821, 716);
    TenGaps(-160, 239203286653190548679094257880939433807, 239203286653190548679094257880939433821, 716,
      6331658277711476, 7914572847139345, 9893216058924180, 12366520073655226, 7729075046034516,
      9661343807543144, 12076679759428932, 7547924849643082, 9434906062053852, 11793632577567316);
    Join(-160, -150, 0);
    Descend(-160, 239203286653190548679094257880939433807, 239203286653190548679094257880939433821, 716,
      205474058654233340126601167300005025991, 205474058654233340126601167300005026004, 683);
    TenGaps(-170, 205474058654233340126601167300005025991, 205474058654233340126601167300005026004, 683,
      5438853046443695, 6798566308054618, 8498207885068273, 10622759856335340, 6639224910209588,
      8299031137761985, 10373788922202482, 6483618076376551, 8104522595470689, 10130653244338360);
    Join(-170, -160, 0);
    Descend(-170, 205474058654233340126601167300005025991, 205474058654233340126601167300005026004, 683,
      176500872419263593559319302637789241453, 176500872419263593559319302637789241465, 650);
    TenGaps(-180, 176500872419263593559319302637789241453, 176500872419263593559319302637789241465, 650,
      4671939192445127, 5839923990556409, 7299904988195512, 9124881235244390, 5703050772027744,
      7128813465034680, 8911016831293350, 5569385519558343, 6961731899447929, 8702164874309912);
    Join(-180, -170, 0);
  }

  lemma PowersDownTo210()
    ensures Clear(-210, 0)
    ensures Between(-210, 223741436863085634409521749481834675699, 223741436863085634409521749481834675717, 550)
  {
    hide Between, NoneBelow;
    PowersDownTo180();
    Descend(-180, 176500872419263593559319302637789241453, 176500872419263593559319302637789241465, 650,
      303226189902482213896285056340332530312, 303226189902482213896285056340332530334, 616);
    TenGaps(-190, 303226189902482213896285056340332530312, 303226189902482213896285056340332530334, 616,
      8026330416180989, 10032913020226236, 12541141275282796, 15676426594103494, 9797766621314684,
      12247208276643356, 15309010345804194, 9568131466127620, 11960164332659526, 14950205415824408);
    Join(-190, -180, 0);
    Descend(-190, 303226189902482213896285056340332530312, 303226189902482213896285056340332530334, 616,
      260469313784369307581244210575049132690, 260469313784369307581244210575049132710, 583);
    TenGaps(-200, 260469313784369307581244210575049132690, 260469313784369307581244210575049132710, 583,
      6894565328877484, 8618206661096855, 10772758326371068, 13465947907963836, 8416217442477397,
      10520271803096746, 13150339753870932, 8218962346169333, 10273702932711666, 12842128665889582);
    Join(-200, -190, 0);
    Descend(-200, 260469313784369307581244210575049132690, 260469313784369307581244210575049132710, 583,
      223741436863085634409521749481834675699, 223741436863085634409521749481834675717, 550);
    TenGaps(-210, 223741436863085634409521749481834675699, 223741436863085634409521749481834675717, 550,
      5922386521532855, 7402983151916069, 9253728939895086, 11567161174868858, 7229475734293036,
      9036844667866294, 11296055834832868, 7060034896770543, 8825043620963179, 11031304526203974);
    Join(-210, -200, 0);
  }

  lemma PowersDownTo240()
    ensures Clear(-240, 0)
    ensures Between(-240, 283625966735416996535885333662014114391, 283625966735416996535885333662014114417, 450)
  {
    hide Between, NoneBelow;
    PowersDownTo210();
    Descend(-210, 223741436863085634409521749481834675699, 223741436863085634409521749481834675717, 550,
      192192430817400325887261637005036975641, 192192430817400325887261637005036975657, 517);
    TenGaps(-220, 192192430817400325887261637005036975641, 192192430817400325887261637005036975657, 517,
      5087291284850963, 6359114106063703, 7948892632579629, 9936115790724536, 6210072369202835,
      7762590461503544, 9703238076879430, 6064523798049644, 7580654747562055, 9475818434452568);
    Join(-220, -210, 0);
    Descend(-220, 192192430817400325887261637005036975641, 192192430817400325887261637005036975657, 517,
      330184081959790778970212365572822879059, 330184081959790778970212365572822879088, 483);
    TenGaps(-230, 330184081959790778970212365572822879059, 330184081959790778970212365572822879088, 483,
      8739899877464282, 10924874846830352, 13656093558537940, 17070116948172426, 10668823092607766,
      13336028865759708, 16670036082199634, 10418772551374772, 13023465689218464, 16279332111523080);
    Join(-230, -220, 0);
    Descend(-230, 330184081959790778970212365572822879059, 330184081959790778970212365572822879088, 483,
      283625966735416996535885333662014114391, 283625966735416996535885333662014114417, 450);
    TenGaps(-240, 283625966735416996535885333662014114391, 283625966735416996535885333662014114417, 450,
      7507516828804700, 9384396036005874, 11730495045007344, 14663118806259180, 9164449253911986,
      11455561567389984, 14319451959237480, 8949657474523425, 11187071843154280, 13983839803942852);
    Join(-240, -230, 0);
  }

  lemma PowersDownTo270()
    ensures Clear(-270, 0)
    ensures Between(-270, 179769313486231590772930519078902473352, 179769313486231590772930519078902473371, 351)
  {
    hide Between, NoneBelow;
    PowersDownTo240();
    Descend(-240, 283625966735416996535885333662014114391, 283625966735416996535885333662014114417, 450,
      243632850284999977008834559696879707759, 243632850284999977008834559696879707783, 417);
    TenGaps(-250, 243632850284999977008834559696879707759, 243632850284999977008834559696879707783, 417,
      6448907850777163, 8061134813471454, 10076418516839318, 12595523146049146, 7872201966280717,
      9840252457850896, 12300315572313620, 7687697232696013, 9609621540870016, 12012026926087520);
    Join(-250, -240, 0);
    Descend(-250, 243632850284999977008834559696879707759, 243632850284999977008834559696879707783, 417,
      209279024841067836122739267394531603614, 209279024841067836122739267394531603635, 384);
    TenGaps(-260, 209279024841067836122739267394531603614, 209279024841067836122739267394531603635, 384,
      5539569662801113, 6924462078501391, 8655577598126739, 10819471997658424, 6762169998536515,
      8452712498170643, 10565890622713304, 6603681639195815, 8254602048994769, 10318252561243460);
    Join(-260, -250, 0);
    Descend(-260, 209279024841067836122739267394531603614, 209279024841067836122739267394531603635, 384,
      179769313486231590772930519078902473352, 179769313486231590772930519078902473371, 351);
    TenGaps(-270, 179769313486231590772930519078902473352, 179769313486231590772930519078902473371, 351,
      4758454107128905, 5948067633911132, 7435084542388915, 9293855677986144, 5808659798741340,
      7260824748426675, 9076030935533342, 5672519334708339, 7090649168385424, 8863311460481781);
    Join(-270, -260, 0);
  }

  lemma PowersDownTo300()
    ensures Clear(-300, 0)
    ensures Between(-300, 227884678143438210606695688214919443449, 227884678143438210606695688214919443475, 251)
  {
    hide Between, NoneBelow;
    PowersDownTo270();
    Descend(-270, 179769313486231590772930519078902473352, 179769313486231590772930519078902473371, 351,
      308841328899094571460716776609676066648, 308841328899094571460716776609676066681, 317);
    TenGaps(-280, 308841328899094571460716776609676066648, 308841328899094571460716776609676066681, 317,
      8174961907854212, 10218702384817764, 12773377981022206, 15966722476277758, 9979201547673598,
      12474001934591998, 15592502418239998, 9745314011399998, 12181642514249998, 15227053142812498);
    Join(-280, -270, 0);
    Descend(-280, 308841328899094571460716776609676066648, 308841328899094571460716776609676066681, 317,
      265292681454958173686982700851419292681, 265292681454958173686982700851419292710, 284);
    TenGaps(-290, 265292681454958173686982700851419292681, 265292681454958173686982700851419292710, 284,
      7022238808055921, 8777798510069901, 10972248137587376, 13715310171984220, 8572068857490138,
      10715086071862672, 13393857589828340, 8371160993642713, 10463951242053390, 13079939052566738);
    Join(-290, -280, 0);
    Descend(-290, 265292681454958173686982700851419292681, 265292681454958173686982700851419292710, 284,
      227884678143438210606695688214919443449, 227884678143438210606695688214919443475, 251);
    TenGaps(-300, 227884678143438210606695688214919443449, 227884678143438210606695688214919443475, 251,
      6032057205060440, 7540071506325551, 9425089382906938, 11781361728633672, 7363351080396045,
      9204188850495056, 11505236063118820, 7190772539449263, 8988465674311579, 11235582092889474);
    Join(-300, -290, 0);
  }

  lemma PowersDownTo330()
    ensures Clear(-330, 0)
    ensures Between(-330, 288878149031346317441449898160257412858, 288878149031346317441449898160257412894, 151)
  {
    hide Between, NoneBelow;
    PowersDownTo300();
    Descend(-300, 227884678143438210606695688214919443449, 227884678143438210606695688214919443475, 251,
      195751447977110622310503659901458325777, 195751447977110622310503659901458325800, 218);
    TenGaps(-310, 195751447977110622310503659901458325777, 195751447977110622310503659901458325800, 218,
      5181497684667151, 6476872105833939, 8096090132292424, 10120112665365530, 6325070415853456,
      7906338019816821, 9882922524771026, 6176826577981891, 7721033222477364, 9651291528096704);
    Join(-310, -300, 0);
    Descend(-310, 195751447977110622310503659901458325777, 195751447977110622310503659901458325800, 218,
      336298426882534191759128470626028036767, 336298426882534191759128470626028036808, 184);
    TenGaps(-320, 336298426882534191759128470626028036767, 336298426882534191759128470626028036808, 184,
      8901745239978055, 11127181549972568, 13908976937465710, 17386221171832138, 10866388232395086,
      13582985290493858, 16978731613117322, 10611707258198326, 13264634072747908, 16580792590934884);
    Join(-320, -310, 0);
    Descend(-320, 336298426882534191759128470626028036767, 336298426882534191759128470626028036808, 184,
      288878149031346317441449898160257412858, 288878149031346317441449898160257412894, 151);
    TenGaps(-330, 288878149031346317441449898160257412858, 288878149031346317441449898160257412894, 151,
      7646540936605883, 9558176170757354, 11947720213446692, 14934650266808366, 9334156416755228,
      11667695520944036, 14584619401180044, 9115387125737528, 11394233907171910, 14242792383964888);
    Join(-330, -320, 0);
  }

  /** Beyond the largest double. */
  lemma AboveAll(d64: nat, k: int)
    requires d64 < INFINITY && k >= 310
    ensures !JustBelowTen(d64, k)
  {
    hide Two, Pow10, Between, JustBelowTen, Units;
    PowersTo310();
    var lo, hi, n := 295763046541693677743187899379506632898, 295763046541693677743187899379506632927, Pow10(k - 310);
    HigherPower(310, lo, hi, 2277, k - 310);
    TopBit();
    MulLess(1, n, lo);
    TooHigh(d64, k, n * lo, n * hi, 2277);
  }

  lemma TooHigh(d64: nat, k: int, lo: nat, hi: nat, b: nat)
    requires d64 < INFINITY && Between(k, lo, hi, b) && lo >= Two(127) && b >= 2274
    ensures !JustBelowTen(d64, k)
  {
    hide Two, Between, JustBelowTen, Units;
    FineBounds(d64);
    TwoAdd(127, b);
    MulLess(Two(127), lo, Two(b));
    TwoSucc(2400);
    TwoLess(2401, b + 127);
    if JustBelowTen(d64, k) { FinePosition(d64, k, lo, hi, b); }
  }

  /** Beyond the smallest. */
  lemma BelowAll(d64: nat, k: int)
    requires d64 < INFINITY && k < -330
    ensures !JustBelowTen(d64, k)
  {
    hide Two, Pow10, Between, JustBelowTen, Units;
    PowersDownTo330();
    var hi := 288878149031346317441449898160257412894;
    SmallerPower(-330, k, 288878149031346317441449898160257412858, hi, 151);
    FineBounds(d64);
    TopBit();
    TwoSucc(127);
    TwoAdd(128, 151);
    TwoLess(279, 300);
    MulLess(hi, Two(128), Two(151));
    MulZero(Two(151));
    if JustBelowTen(d64, k) { FinePosition(d64, k, 0, hi, 151); }
  }

  /** All doubles in fine steps. */
  lemma FineBounds(d64: nat)
    requires d64 < INFINITY
    ensures
      var m := Units(d64) * Two(FINE - UNIT);
      m <= Two(2400) && (m > 0 ==> m >= Two(300))
  {
    hide Two, Significand, Exponent;
    Ranges(d64);
    var f, e := Significand(d64), Exponent(d64) + 1075;
    TwoAdd(e, FINE - UNIT);
    MulAssociate(f, Two(e), Two(FINE - UNIT));
    var s := Two(e + FINE - UNIT);
    TwoLess(e + FINE - UNIT, 2346);
    TwoLess(300, e + FINE - UNIT);
    FiftyFour();
    TwoAdd(54, 2346);
    MulMonotone(f, s, Two(54), Two(2346));
    MulZero(s);
    if f > 0 { MulLess(1, f, s); }
  }

  lemma TwoLess(m: nat, n: nat)
    ensures Two(m) < Two(n) <==> m < n
    ensures Two(m) <= Two(n) <==> m <= n
  {
    hide Pow;
    Pow2Less(m, n);
  }

  lemma FiftyFour()
    ensures Two(54) == 4 * HIDDEN_BIT
  {
    hide Two;
    SmallNumerals();
    TwoAdd(32, 16);
    TwoAdd(48, 4);
    TwoAdd(52, 2);
  }

  lemma SmallerPower(from: int, k: int, lo: nat, hi: nat, b: nat)
    requires k <= from <= 0 && Between(from, lo, hi, b)
    ensures Between(k, 0, hi, b)
  {
    hide Two, Pow10;
    TenIs();
    TenMonotone(-from, -k);
    MulZero(Two(b));
    MulZero(TenDown(k));
    MulMonotone(hi * Two(b), TenDown(from), hi * Two(b), TenDown(k));
  }

  /** No double lies less than one part in 2^62 below a power of ten. */
  lemma NoneJustBelowTen(d64: nat, k: int)
    requires d64 < INFINITY
    ensures !JustBelowTen(d64, k)
  {
    hide JustBelowTen, Between;
    if k >= 310 {
      AboveAll(d64, k);
    } else if k < -330 {
      BelowAll(d64, k);
    } else {
      PowersTo310();
      PowersDownTo330();
      assert NoneBelow(k);
    }
  }
}
