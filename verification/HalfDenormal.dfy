/** Decimals so close above 2^-1075, half the smallest denormal, that the error bound of the fast
    conversion does not tell which side they are on (strtod.cc).  Their leading digits are known, so
    the conversion of those digits decides: it comes out at exactly 2^-1075, not below. */
module HalfDenormal {
  import opened Words
  import opened Decimal
  import opened Ieee
  import opened Powers
  import opened ScaledStart
  import opened DiyFps
  import opened Strtod
  import opened ErrorTracking
  import opened PowerGaps

  /** s * 10^x is more than 2^-1075. */
  ghost predicate AboveHalf(s: nat, x: int) {
    1 * TenDown(x) < s * (TenUp(x) * Two(UNIT))
  }

  /** It is less than 23 parts in 2^64 more. */
  ghost predicate JustAboveHalf(s: nat, x: int) {
    && AboveHalf(s, x)
    && (s * TWO64) * (TenUp(x) * Two(UNIT)) < (TWO64 + 23) * TenDown(x)
  }

  // ----- the digits of 2^-1075 -----

  const SIGNIFICAND: nat := 2470328229206232721

  /** How 2^1075 compares with 10^341: 2^-1075 is 247032822920623272.088... * 10^-341. */
  lemma HalfDigits()
    ensures
      var t, z := Two(UNIT), Pow10(341);
      && 247032822920623272 * t <= z && 4940656458412465441 * t <= 20 * z && TWO64 * t <= 100 * z
      && (TWO64 + 23) * z <= (247032822920623273 * TWO64) * t
  {
    hide Two, Pow10, Between;
    PowersDownTo330();
    TenIs();
    TenAdd(330, 11);
    TenNumerals();
    TenSucc(10);
    HalfBounds();
  }

  lemma HalfBounds()
    requires Between(-330, 288878149031346317441449898160257412858, 288878149031346317441449898160257412894, 151)
    ensures 288878149031346317441449898160257412858 * Pow10(330) <= Two(UNIT) * 0x20_0000_0000_0000_0000_0000_0000_0000_0000_0000
    ensures Two(UNIT) * 0x20_0000_0000_0000_0000_0000_0000_0000_0000_0000 <= 288878149031346317441449898160257412894 * Pow10(330)
  {
    hide Two, Pow10;
    var lo, hi, step, rest, y := 288878149031346317441449898160257412858, 288878149031346317441449898160257412894, Two(151), Two(149), Pow10(330);
    TenIs();
    RestIs();
    TwoAdd(UNIT, 300);
    TwoAdd(149, 151);
    MulAssociate(Two(UNIT), rest, step);
    Regroup3(lo, step, y);
    Regroup3(hi, step, y);
    MulLess(lo * y, Two(UNIT) * rest, step);
    MulLess(Two(UNIT) * rest, hi * y, step);
  }

  lemma RestIs()
    ensures Two(149) == 0x20_0000_0000_0000_0000_0000_0000_0000_0000_0000
  {
    hide Two;
    SmallNumerals();
    TwoAdd(64, 64);
    TwoAdd(16, 4);
    TwoSucc(20);
    TwoAdd(128, 21);
  }

  // ----- the digits read -----

  /** f * 10^e, where e is the exponent of the last digit read, is within half a unit of the decimal,
      or exact if all digits were read. */
  lemma DigitsRead(f: nat, s: nat, r: nat, e: int, limit: nat)
    requires JustAboveHalf(s, e - r) && f < TWO64 && Near(f, s, Pow10(r), if r == 0 then 0 else 4)
    requires r > 0 ==> f > limit && limit >= 247032822920623273
    ensures e == -342 && f >= SIGNIFICAND
  {
    hide Two, Pow10, TenUp, TenDown;
    var half := if r == 0 then 0 else 1;
    Halves(f, s, r, e, half);
    if e >= -341 {
      TooCoarsePlace(f, e, half);
    } else if e <= -343 {
      TooFinePlace(2 * f + half, e);
    } else {
      RightPlace(2 * f + half);
    }
  }

  /** The bounds of the decimal, for the digits read. */
  lemma Halves(f: nat, s: nat, r: nat, e: int, half: nat)
    requires JustAboveHalf(s, e - r) && Near(f, s, Pow10(r), if r == 0 then 0 else 4)
    requires half == (if r == 0 then 0 else 1) && (half == 1 ==> f > 0)
    ensures 2 * TenDown(e) < (2 * f + half) * (TenUp(e) * Two(UNIT))
    ensures ((2 * f - half) * TWO64) * (TenUp(e) * Two(UNIT)) < (2 * (TWO64 + 23)) * TenDown(e)
  {
    hide Two, Pow10, TenUp, TenDown;
    var L, x, t := Pow10(r), e - r, Two(UNIT);
    var a, y := TenUp(x) * t, TenDown(x);
    MulPositive(TenUp(x), t);
    TenIs();
    MulDistribute(2 * f, half, L);
    MulAssociate(2, f, L);
    MulAssociate(2, s, a);
    MulLess(2 * s, (2 * f + half) * L, a);
    RescaleOrder(2, 2 * f + half, e, x, L, t);
    MulLess((2 * f - half) * L, 2 * s, TWO64);
    MulAssociate(2, s, TWO64);
    MulLess(((2 * f - half) * L) * TWO64, 2 * (s * TWO64), a);
    MulAssociate(2, s * TWO64, a);
    MulAssociate(2, TWO64 + 23, y);
    Regroup3(2 * f - half, L, TWO64);
    RescaleOrder(2 * (TWO64 + 23), (2 * f - half) * TWO64, e, x, L, t);
  }

  /** Fewer places are too few to be so close to 2^-1075. */
  lemma TooCoarsePlace(f: nat, e: int, half: nat)
    requires e >= -341 && half <= 1 && (half == 1 ==> f >= 247032822920623274)
    requires 2 * TenDown(e) < (2 * f + half) * (TenUp(e) * Two(UNIT))
    ensures ((2 * f - half) * TWO64) * (TenUp(e) * Two(UNIT)) >= (2 * (TWO64 + 23)) * TenDown(e)
  {
    hide Two, Pow10;
    var L, t, z := Pow10(e + 341), Two(UNIT), Pow10(341);
    TenIs();
    HalfDigits();
    RescaleOrder(2, 2 * f + half, e, -341, L, t);
    RescaleOrder(2 * (TWO64 + 23), (2 * f - half) * TWO64, e, -341, L, t);
    var b := (2 * f - half) * L;
    MulAssociate(2 * f - half, TWO64, L);
    MulAssociate(2 * f - half, L, TWO64);
    if half == 1 {
      MulMonotone(2 * f - half, 1, 2 * f - half, L);
    } else {
      MulAssociate(2, f, L);
      MulLess(2 * 247032822920623272, b, t);
    }
    MulLess(2 * (247032822920623273 * TWO64), b * TWO64, t);
  }

  /** More places would not fit 64 bits. */
  lemma TooFinePlace(a: nat, e: int)
    requires e <= -343 && a < 2 * TWO64
    ensures 2 * TenDown(e) >= a * (TenUp(e) * Two(UNIT))
  {
    hide Two, Pow10;
    var t := Two(UNIT);
    TenIs();
    HalfDigits();
    TenMonotone(343, -e);
    TenSucc(341);
    TenSucc(342);
    MulLess(a, 2 * TWO64, t);
    MulAssociate(2, TWO64, t);
  }

  lemma RightPlace(a: nat)
    requires 2 * TenDown(-342) < a * (TenUp(-342) * Two(UNIT))
    ensures a > 4940656458412465441
  {
    hide Two, Pow10;
    TenIs();
    HalfDigits();
    TenSucc(341);
    MulLess(4940656458412465441, a, Two(UNIT));
  }

  // ----- their conversion -----

  /** The digits, normalized by j places, times 10^6, times the first power of the table, and
      normalized again by i places: the shifts are no more than two in all. */
  lemma ExactlyHalf(f: nat, j: nat, f1: uint64, f2: int, f3: int, i: nat, f4: uint64)
    requires f >= SIGNIFICAND && f1 == f * Two(j) && f1 >= UINT64_MSB
    requires f2 == RoundedProduct(f1, 0xf424000000000000) && f3 == RoundedProduct(f2, 0xfa8fd5a0081c0288)
    requires f4 == f3 * Two(i)
    ensures j + i <= 2
  {
    hide Two;
    SmallNumerals();
    TwoSucc(0);
    TwoNone();
    if j >= 3 {
      AtLeastShift(f, j, 3);
    }
    if j == 2 {
      if i >= 1 { AtLeastShift(f3, i, 1); }
    } else if i >= 2 {
      AtLeastShift(f3, i, 2);
    }
  }

  lemma AtLeastShift(f: nat, j: nat, least: nat)
    requires least <= j
    ensures f * Two(j) >= f * Two(least)
  {
    TwoMonotone(least, j);
    MulMonotone(f, Two(least), f, Two(j));
  }
}
