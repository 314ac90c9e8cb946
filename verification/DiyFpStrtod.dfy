/** The approximation Strtod tries first (ReadUint64, ReadDiyFp, AdjustmentPowerOfTen and DiyFpStrtod
    of strtod.cc, DiyFpToUint64 of ieee.h), and Strtod with it. */
module DiyFpStrtods {
  import opened Words
  import opened Decimal
  import opened Ieee
  import opened Powers
  import opened ScaledStart
  import opened DoubleDtoa
  import opened DiyFps
  import opened Strtod
  import opened Grisu
  import opened ErrorTracking
  import opened HalfDenormal

  const READ_LIMIT: int := 1844674407370955160
  const MIN_DECIMAL_EXPONENT: int := -348

  // ----- reading the leading digits -----

  method ReadUint64(buffer: seq<char>) returns (result: uint64, number_of_read_digits: nat)
    requires AllDigits(buffer)
    ensures number_of_read_digits <= |buffer| && result == Dec(buffer[..number_of_read_digits])
    ensures result <= 10 * READ_LIMIT + 9
    ensures number_of_read_digits < |buffer| ==> result > READ_LIMIT && number_of_read_digits > 18
    ensures buffer != [] && buffer[0] != '0' ==> number_of_read_digits <= 20
  {
    hide Dec, Pow10;
    result := 0;
    var i := 0;
    assert Dec([]) == 0 by { DecZeros([]); }
    while i < |buffer| && result <= READ_LIMIT
      invariant 0 <= i <= |buffer| && result == Dec(buffer[..i]) && result <= 10 * READ_LIMIT + 9
      invariant i > 0 ==> Dec(buffer[..i - 1]) <= READ_LIMIT
    {
      DecAppend(buffer[..i], buffer[i]);
      assert buffer[..i + 1] == buffer[..i] + [buffer[i]];
      result := 10 * result + DigitOf(buffer[i]);
      i := i + 1;
    }
    number_of_read_digits := i;
    if i <= 18 && i < |buffer| { ShortPrefix(buffer, i); }
    if buffer != [] && buffer[0] != '0' && i > 20 { LongPrefix(buffer, i - 1); }
  }

  lemma ShortPrefix(s: seq<char>, i: nat)
    requires AllDigits(s) && i <= |s| && i <= 18
    ensures Dec(s[..i]) <= READ_LIMIT
  {
    hide Pow10, Dec;
    DecBounds(s[..i]);
    TenMonotone(i, 18);
    TenConstants();
    TenAdd(17, 1);
  }

  lemma LongPrefix(s: seq<char>, i: nat)
    requires AllDigits(s) && 20 <= i <= |s| && s[0] != '0'
    ensures Dec(s[..i]) > READ_LIMIT
  {
    hide Pow10, Dec;
    DecLeading(s[..i]);
    TenMonotone(19, i - 1);
    TenConstants();
    TenAdd(17, 1);
    TenAdd(18, 1);
  }

  /** The leading digits that fit a word, rounded half up on the first digit left out. */
  method ReadDiyFp(buffer: seq<char>) returns (result: DiyFp, remaining_decimals: nat)
    requires Trimmed(buffer) && buffer != []
    ensures fresh(result) && result.e == 0 && 0 < result.f
    ensures Near(result.f, Dec(buffer), Pow10(remaining_decimals), if remaining_decimals == 0 then 0 else 4)
    ensures remaining_decimals <= |buffer| <= remaining_decimals + 20
    ensures remaining_decimals > 0 ==> result.f > READ_LIMIT && |buffer| > 18
  {
    hide Dec, Pow10;
    var significand, read_digits := ReadUint64(buffer);
    remaining_decimals := |buffer| - read_digits;
    if |buffer| == read_digits {
      assert buffer[..read_digits] == buffer;
      TenIs();
      DecBounds(buffer[..|buffer| - 1]);
      LastNonZero(buffer);
      result := new DiyFp(significand, 0);
    } else {
      RoundedPrefix(buffer, read_digits);
      if buffer[read_digits] >= '5' {
        significand := significand + 1;
      }
      result := new DiyFp(significand, 0);
    }
  }

  lemma RoundedPrefix(s: seq<char>, n: nat)
    requires AllDigits(s) && n < |s|
    ensures Near(Dec(s[..n]) + (if s[n] >= '5' then 1 else 0), Dec(s), Pow10(|s| - n), 4)
  {
    hide Dec, Pow10;
    var h, t, tail := Dec(s[..n]), Dec(s[n..]), s[n + 1..];
    assert s == s[..n] + s[n..];
    DecConcat(s[..n], s[n..]);
    assert s[n..] == [s[n]] + tail;
    DecConcat([s[n]], tail);
    DecSingle([s[n]]);
    DecBounds(tail);
    DecBounds(s[n..]);
    var p := Pow10(|tail|);
    TenSucc(|tail|);
    MulDistribute(h, 1, 10 * p);
    if s[n] >= '5' {
      MulLess(5, DigitOf(s[n]), p);
    } else {
      MulLess(DigitOf(s[n]) + 1, 5, p);
      MulDistribute(DigitOf(s[n]), 1, p);
    }
  }

  // ----- scaling -----

  /** The powers of ten 10^-348, 10^-340, ..., 10^340 as the table holds them: normalized
      significand and binary exponent, to within half a unit.  The first entry is written out: what
      becomes of the decimals around 2^-1075 depends on it. */
  ghost predicate PowersOk(powers: nat -> (uint64, int)) {
    && powers(0) == (0xfa8fd5a0081c0288, -1220)
    && forall i: nat :: i < 87 ==> HalfUnitPower(powers(i).0, powers(i).1, MIN_DECIMAL_EXPONENT + 8 * i)
  }

  method GetCachedPowerForDecimalExponent(powers: nat -> (uint64, int), requested_exponent: int)
      returns (power: DiyFp, found_exponent: int)
    requires PowersOk(powers) && MIN_DECIMAL_EXPONENT <= requested_exponent < 348
    ensures fresh(power) && HalfUnitPower(power.f, power.e, found_exponent)
    ensures found_exponent <= requested_exponent < found_exponent + 8
    ensures requested_exponent < -340 ==> found_exponent == -348 && power.f == 0xfa8fd5a0081c0288 && power.e == -1220
  {
    var index: nat := (requested_exponent + 348) / 8;
    power := new DiyFp(powers(index).0, powers(index).1);
    found_exponent := MIN_DECIMAL_EXPONENT + 8 * index;
  }

  method AdjustmentPowerOfTen(exponent: int) returns (power: DiyFp)
    requires 0 < exponent < 8
    ensures fresh(power) && power.f >= UINT64_MSB && -63 < power.e < 0
    ensures power.f == Pow10(exponent) * Two(0 - power.e)
    ensures exponent == 6 ==> power.f == 0xf424000000000000 && power.e == -44
  {
    SmallPowers();
    match exponent
    case 1 => power := new DiyFp(0xa000000000000000, -60);
    case 2 => power := new DiyFp(0xc800000000000000, -57);
    case 3 => power := new DiyFp(0xfa00000000000000, -54);
    case 4 => power := new DiyFp(0x9c40000000000000, -50);
    case 5 => power := new DiyFp(0xc350000000000000, -47);
    case 6 => power := new DiyFp(0xf424000000000000, -44);
    case 7 => power := new DiyFp(0x9896800000000000, -40);
  }

  lemma SmallPowers()
    ensures Pow10(1) == 10 && Pow10(2) == 100 && Pow10(3) == 1000 && Pow10(4) == 10000
    ensures Pow10(5) == 100000 && Pow10(6) == 1000000 && Pow10(7) == 10000000
    ensures Two(40) == 0x100_0000_0000 && Two(44) == 0x1000_0000_0000 && Two(47) == 0x8000_0000_0000
    ensures Two(50) == 0x4_0000_0000_0000 && Two(54) == 0x40_0000_0000_0000
    ensures Two(57) == 0x200_0000_0000_0000 && Two(60) == 0x1000_0000_0000_0000
  {
    hide Two, Pow10;
    TenIs();
    TenSucc(1);
    TenSucc(2);
    TenSucc(3);
    TenSucc(4);
    TenSucc(5);
    TenSucc(6);
    TwoTens();
    TwoAdd(1, 1);
    TwoAdd(2, 1);
    TwoAdd(2, 2);
    TwoAdd(10, 10);
    TwoAdd(20, 20);
    TwoAdd(40, 4);
    TwoAdd(44, 3);
    TwoAdd(47, 3);
    TwoAdd(50, 4);
    TwoAdd(54, 3);
    TwoAdd(57, 3);
  }

  /** f * 2^e approximates s * 10^k through the exact fraction N / D. */
  ghost predicate Tracks(f: int, e: int, error: int, N: nat, D: nat, s: nat, k: int) {
    D > 0 && Near(f, N, D, error) && Exact(N, D, e, s, k)
  }

  /** Normalization scales significand and error alike. */
  method NormalizeTracked(input: DiyFp, error: uint64, limit: nat, ghost N: nat, ghost D: nat, ghost s: nat, ghost k: int)
      returns (scaled: uint64, ghost N2: nat)
    requires Tracks(input.f, input.e, error, N, D, s, k)
    requires 0 < input.f && limit <= 63 && (error > 0 ==> error < 1000 && limit <= 3 && input.f * Two(limit + 1) >= TWO64)
    modifies input
    ensures input.f >= UINT64_MSB && Tracks(input.f, input.e, scaled, N2, D, s, k)
    ensures Nearer(old(input.f), N, D, error) ==> Nearer(input.f, N2, D, scaled)
    ensures scaled <= error * Two(limit)
    ensures input.e <= old(input.e) && input.f == old(input.f) * Two(old(input.e) - input.e)
  {
    hide Two, TwoUp, TwoDown, TenUp, TenDown, Near, Nearer, Exact;
    ghost var f0 := input.f;
    var old_e := input.e;
    input.Normalize();
    var j: nat := old_e - input.e;
    if error > 0 {
      FewerShifts(f0, j, limit);
      SmallShift(error, j, limit);
    } else {
      MulZero(Two(j));
    }
    scaled := error * Two(j);
    NearShift(f0, N, D, error, Two(j));
    ExactOne(j);
    ExactTimes(N, D, old_e, s, k, Two(j), 1, 0 - j, 0);
    N2 := N * Two(j);
  }

  lemma FewerShifts(f: nat, j: nat, limit: nat)
    requires f * Two(limit + 1) >= TWO64 > f * Two(j)
    ensures j <= limit
  {
    hide Two;
    if j > limit {
      TwoMonotone(limit + 1, j);
      MulMonotone(f, Two(limit + 1), f, Two(j));
    }
  }

  lemma SmallShift(error: nat, j: nat, limit: nat)
    requires error < 1000 && j <= limit <= 3
    ensures 0 <= error * Two(j) <= error * Two(limit) < TWO64
  {
    hide Two;
    TwoMonotone(j, limit);
    TwoMonotone(limit, 3);
    TwoTens();
    TwoAdd(1, 1);
    TwoAdd(2, 1);
    MulPositive(error, Two(j));
    MulMonotone(error, Two(j), error, Two(limit));
    MulMonotone(error, Two(limit), 1000, Two(3));
  }

  /** Multiplying by the exact power between two cached ones; no error is added when the exact
      product fits 64 bits. */
  method Adjust(input: DiyFp, adjustment_exponent: int, length: nat, error: uint64,
      ghost N: nat, ghost D: nat, ghost s: nat, ghost k: int) returns (grown: uint64, ghost N2: nat, ghost D2: nat)
    requires 0 < adjustment_exponent < 8 && input.f >= UINT64_MSB && error <= 32
    requires Tracks(input.f, input.e, error, N, D, s, k)
    requires length <= 18 ==> error == 0 && input.e <= 0 && s < Pow10(length) && input.f == s * Two(0 - input.e)
    modifies input
    ensures input.f >= UINT64_MSB / 2 && grown <= error + 4
    ensures Tracks(input.f, input.e, grown, N2, D2, s, k + adjustment_exponent)
    ensures adjustment_exponent == 6 ==> input.e == old(input.e) + 20 && input.f == RoundedProduct(old(input.f), 0xf424000000000000)
  {
    hide Two, TwoUp, TwoDown, TenUp, TenDown, Near, Exact, RoundedProduct, Pow10;
    var adjustment_power := AdjustmentPowerOfTen(adjustment_exponent);
    ghost var f0, e0, b, g := input.f, input.e, adjustment_power.f, adjustment_power.e;
    input.Multiply(adjustment_power);
    N2, D2 := AdjustExact(N, D, e0, s, k, b, g, adjustment_exponent);
    ProductLarge(f0, b);
    if 19 - length >= adjustment_exponent {
      ProductIsEven(f0, s, 0 - e0, b, adjustment_exponent, 0 - g, length);
      ExactProduct(f0, b, N, D);
      grown := error;
    } else {
      NearTimesExact(f0, N, D, error, b);
      grown := error + 4;
    }
  }

  lemma AdjustExact(N: nat, D: nat, e: int, s: nat, k: int, b: nat, g: int, a: nat) returns (N2: nat, D2: nat)
    requires Exact(N, D, e, s, k) && g < 0 && b == Pow10(a) * Two(0 - g)
    ensures N2 == N * b && D2 == D * TWO64 > 0 && Exact(N2, D2, e + g + 64, s, k + a)
  {
    hide Two, Pow10, TwoUp, TwoDown, TenUp, TenDown, Exact;
    TwoNone();
    TenIs();
    assert Exact(b, 1, g, 1, a) by { ExactAdjustment(b, g, a); }
    SixtyThree();
    ExactOne(64);
    ExactTimes(N, D, e, s, k, b, 1, g, a);
    ExactTimes(N * b, D, e + g, s, k + a, 1, TWO64, 64, 0);
    N2, D2 := N * b, D * TWO64;
  }

  lemma ExactAdjustment(b: nat, g: int, a: nat)
    requires g < 0 && b == Pow10(a) * Two(0 - g)
    ensures Exact(b, 1, g, 1, a)
  {
    hide Two, Pow10;
    TwoNone();
    TenIs();
  }

  lemma ProductLarge(a: int, b: int)
    requires UINT64_MSB <= a && UINT64_MSB <= b
    ensures RoundedProduct(a, b) >= UINT64_MSB / 2
  {
    MulMonotone(UINT64_MSB, UINT64_MSB, a, b);
    DivModDefinition(a * b + UINT64_MSB, TWO64);
  }

  /** When s * 10^a fits 64 bits, the normalized factors have at least 64 zero bits together. */
  lemma ProductIsEven(f: nat, s: nat, j: nat, b: nat, a: nat, g: nat, length: nat)
    requires UINT64_MSB <= f == s * Two(j) && UINT64_MSB <= b == Pow10(a) * Two(g)
    requires a > 0 && length + a <= 19 && s < Pow10(length)
    ensures f * b % TWO64 == 0
  {
    hide Two, Pow10;
    var v := s * Pow10(a);
    Regroup(s, Two(j), Pow10(a), Two(g));
    TwoAdd(j, g);
    assert f * b == v * Two(j + g);
    SmallProduct(s, a, length);
    MulMonotone(UINT64_MSB, UINT64_MSB, f, b);
    ManyZeros(v, j + g);
    TenSucc(a - 1);
    MulAssociate(s, 10, Pow10(a - 1));
    MulAssociate(s, 5, Pow10(a - 1));
    EvenTimesTwos(v, 5 * (s * Pow10(a - 1)), j + g);
  }

  lemma SmallProduct(s: nat, a: nat, length: nat)
    requires length + a <= 19 && s < Pow10(length)
    ensures 0 <= s * Pow10(a) < TWO64
  {
    hide Pow10;
    MulPositive(s, Pow10(a));
    MulLess(s, Pow10(length), Pow10(a));
    TenAdd(length, a);
    TenMonotone(length + a, 19);
    TenConstants();
    TenAdd(17, 1);
    TenAdd(18, 1);
  }

  lemma ManyZeros(v: nat, n: nat)
    requires v < TWO64 && v * Two(n) >= UINT64_MSB * UINT64_MSB
    ensures n >= 63
  {
    hide Two;
    if n < 63 {
      TwoMonotone(n, 62);
      SixtyThree();
      TwoAdd(62, 1);
      TwoTens();
      MulMonotone(v, Two(n), TWO64 - 1, Two(62));
    }
  }

  lemma EvenTimesTwos(v: nat, half: nat, n: nat)
    requires n >= 63 && v == 2 * half
    ensures v * Two(n) % TWO64 == 0
  {
    hide Two;
    TwoAdd(63, n - 63);
    SixtyThree();
    MulAssociate(v, Two(63), Two(n - 63));
    MulAssociate(half, TWO64, Two(n - 63));
    MulAssociate(half, Two(n - 63), TWO64);
    assert v * Two(n) == (half * TWO64) * Two(n - 63);
    MulAssociate(TWO64, half, Two(n - 63));
    DivModUnique(v * Two(n), TWO64, half * Two(n - 63), 0);
  }

  /** Multiplying by a cached power. */
  method TimesCached(input: DiyFp, cached_power: DiyFp, mk: int, error: uint64,
      ghost N: nat, ghost D: nat, ghost s: nat, ghost k: int) returns (grown: uint64, ghost N2: nat, ghost D2: nat)
    requires UINT64_MSB / 2 <= input.f && error <= 36 && Tracks(input.f, input.e, error, N, D, s, k)
    requires HalfUnitPower(cached_power.f, cached_power.e, mk) && input != cached_power
    modifies input
    ensures input.f >= UINT64_MSB / 4 && grown <= 45
    ensures Tracks(input.f, input.e, grown, N2, D2, s, k + mk) && Nearer(input.f, N2, D2, grown)
    ensures input.e == old(input.e) + cached_power.e + 64 && input.f == RoundedProduct(old(input.f), cached_power.f)
  {
    hide Two, TwoUp, TwoDown, TenUp, TenDown, Near, Nearer, Exact, RoundedProduct, Pow10, PowerNumerator, PowerDenominator;
    ghost var f0, e0, b, ce := input.f, input.e, cached_power.f, cached_power.e;
    ghost var M, C := PowerNumerator(ce, mk), PowerDenominator(ce, mk);
    input.Multiply(cached_power);
    var error_b: uint64 := 4;
    var error_ab: uint64 := if error == 0 then 0 else 1;
    var fixed_error: uint64 := 4;
    grown := error + (error_b + error_ab + fixed_error);
    N2, D2 := CachedExact(N, D, e0, s, k, ce, mk);
    NearTimesCached(f0, N, D, error, b, M, C);
    WiderError(RoundedProduct(f0, b), N2, D2, error + 8, grown);
    CachedLarge(f0, b);
  }

  lemma CachedExact(N: nat, D: nat, e: int, s: nat, k: int, ce: int, mk: int) returns (N2: nat, D2: nat)
    requires Exact(N, D, e, s, k)
    ensures N2 == N * PowerNumerator(ce, mk) && D2 == (D * PowerDenominator(ce, mk)) * TWO64
    ensures 0 < D2 && Exact(N2, D2, e + ce + 64, s, k + mk)
  {
    hide Two, TwoUp, TwoDown, TenUp, TenDown, Exact, PowerNumerator, PowerDenominator;
    var M, C := PowerNumerator(ce, mk), PowerDenominator(ce, mk);
    ExactPower(ce, mk);
    SixtyThree();
    ExactOne(64);
    ExactTimes(N, D, e, s, k, M, C, ce, mk);
    ExactTimes(N * M, D * C, e + ce, s, k + mk, 1, TWO64, 64, 0);
    N2, D2 := N * M, (D * C) * TWO64;
  }

  lemma WiderError(f: int, N: int, D: int, error: int, wider: int)
    requires D > 0 && error <= wider && Nearer(f, N, D, error)
    ensures Nearer(f, N, D, wider) && Near(f, N, D, wider)
  {
    MulLess(error, wider, D);
  }

  lemma CachedLarge(a: int, b: int)
    requires UINT64_MSB / 2 <= a && UINT64_MSB <= b
    ensures RoundedProduct(a, b) >= UINT64_MSB / 4
  {
    MulMonotone(UINT64_MSB / 2, UINT64_MSB, a, b);
    DivModDefinition(a * b + UINT64_MSB, TWO64);
  }

  /** The decimal as a normalized DiyFp whose significand is less than 23 units off, and which is at
      least 2^-1075 if the decimal is more than that. */
  method ScaledInput(buffer: seq<char>, input: DiyFp, remaining_decimals: nat, exponent: int, powers: nat -> (uint64, int))
      returns (error: uint64, ghost N: nat, ghost D: nat)
    requires PowersOk(powers) && MIN_DECIMAL_EXPONENT <= exponent < 348 && AllDigits(buffer) && Dec(buffer) >= 0
    requires input.e == 0 && 0 < input.f
    requires Near(input.f, Dec(buffer), Pow10(remaining_decimals), if remaining_decimals == 0 then 0 else 4)
    requires remaining_decimals > 0 ==> input.f > READ_LIMIT && |buffer| > 18
    modifies input
    ensures input.f >= UINT64_MSB && error <= 180
    ensures D > 0 && Nearer(input.f, N, D, error) && Exact(N, D, input.e, Dec(buffer), exponent - remaining_decimals)
    ensures AboveHalf(Dec(buffer), exponent - remaining_decimals) ==> input.e + 64 >= DENORMAL_EXPONENT
  {
    hide Two, TwoUp, TwoDown, TenUp, TenDown, Near, Nearer, Exact, RoundedProduct, Pow10, PowersOk, HalfUnitPower, Dec, AboveHalf, JustAboveHalf;
    ghost var s, f0 := Dec(buffer), input.f;
    error := if remaining_decimals == 0 then 0 else 4;
    ghost var k := 0 - remaining_decimals;
    StartExact(s, remaining_decimals);
    N, D := s, Pow10(remaining_decimals);
    PowersOfTwoSmall();
    error, N := NormalizeTracked(input, error, if remaining_decimals == 0 then 63 else 3, N, D, s, k);
    ghost var f1, j := input.f, 0 - input.e;
    if |buffer| <= 18 { ExactInput(f0, s, buffer); }
    var cached_power, cached_decimal_exponent := GetCachedPowerForDecimalExponent(powers, exponent);
    if cached_decimal_exponent != exponent {
      error, N, D := Adjust(input, exponent - cached_decimal_exponent, |buffer|, error, N, D, s, k);
      k := k + exponent - cached_decimal_exponent;
    }
    ghost var f2 := input.f;
    error, N, D := TimesCached(input, cached_power, cached_decimal_exponent, error, N, D, s, k);
    ghost var f3, e3 := input.f, input.e;
    error, N := NormalizeTracked(input, error, 2, N, D, s, k + cached_decimal_exponent);
    if AboveHalf(s, exponent - remaining_decimals) && input.e + 64 < DENORMAL_EXPONENT {
      CloseToHalf(input.f, input.e, N, D, error, s, exponent - remaining_decimals);
      DigitsRead(f0, s, remaining_decimals, exponent, READ_LIMIT);
      ExactlyHalf(f0, j, f1, f2, f3, e3 - input.e, input.f);
    }
  }

  lemma ExactInput(f: nat, s: nat, buffer: seq<char>)
    requires AllDigits(buffer) && s == Dec(buffer) && Near(f, s, Pow10(0), 0)
    ensures f == s < Pow10(|buffer|)
  {
    hide Pow10, Dec;
    TenIs();
    DecBounds(buffer);
  }

  lemma StartExact(s: nat, r: nat)
    ensures Exact(s, Pow10(r), 0, s, 0 - r)
  {
    hide Two, Pow10;
    TwoNone();
    TenIs();
    MulAssociate(s, 1, Pow10(r));
  }

  lemma PowersOfTwoSmall()
    ensures Two(2) == 4 && Two(3) == 8 && Two(4) == 16
  {
    hide Two;
    TwoTens();
    TwoAdd(1, 1);
    TwoAdd(2, 1);
    TwoAdd(2, 2);
  }

  // ----- encoding -----

  /** The word of f * 2^e; the value is exact unless it is out of range. */
  method DiyFpToUint64(f: uint64, e: int) returns (d64: uint64)
    ensures forall v: nat :: v < INFINITY && f == Significand(v) && e == Exponent(v) ==> d64 == v
    ensures f <= 2 * HIDDEN_BIT && e >= DENORMAL_EXPONENT && (e > DENORMAL_EXPONENT ==> f >= HIDDEN_BIT) ==> d64 == Word(f, e)
    ensures f < 2 * HIDDEN_BIT && e < DENORMAL_EXPONENT ==> d64 == 0
  {
    var significand: uint64, exponent: int := f, e;
    while significand >= 2 * HIDDEN_BIT
      invariant f < 2 * HIDDEN_BIT ==> significand == f && exponent == e
      invariant f == 2 * HIDDEN_BIT ==> (significand == f && exponent == e) || (significand == HIDDEN_BIT && exponent == e + 1)
    {
      significand := significand / 2;
      exponent := exponent + 1;
    }
    if exponent >= 972 { return INFINITY; }
    if exponent < DENORMAL_EXPONENT { return 0; }
    ghost var f1, e1 := significand, exponent;
    while exponent > DENORMAL_EXPONENT && significand < HIDDEN_BIT
      invariant significand < 2 * HIDDEN_BIT && DENORMAL_EXPONENT <= exponent < 972
      invariant f1 >= HIDDEN_BIT || e1 == DENORMAL_EXPONENT ==> significand == f1 && exponent == e1
      decreases exponent - DENORMAL_EXPONENT
    {
      significand := significand * 2;
      exponent := exponent - 1;
    }
    var biased_exponent: uint64 :=
      if exponent == DENORMAL_EXPONENT && significand < HIDDEN_BIT then 0 else exponent + 1075;
    d64 := significand % HIDDEN_BIT + biased_exponent * HIDDEN_BIT;
  }

  /** Exponent and significand side by side: a significand of 2^53 carries into the exponent, and out
      of the largest finite exponent into infinity. */
  function Word(f: nat, e: int): nat
    requires e >= DENORMAL_EXPONENT
  {
    var w := (e + 1074) * HIDDEN_BIT + f;
    if w > INFINITY then INFINITY else w
  }

  function SignificandSizeForOrderOfMagnitude(order: int): int {
    if order >= DENORMAL_EXPONENT + 53 then 53
    else if order <= DENORMAL_EXPONENT then 0
    else order - DENORMAL_EXPONENT
  }

  // ----- rounding -----

  /** The decimal in units of 2^-1075, from the fraction it is tracked by. */
  lemma InUnitsOf(N: nat, D: nat, e: int, s: nat, x: int, h: nat, g: nat)
    requires Exact(N, D, e, s, x) && e + UNIT + h == g
    ensures (s * (TenUp(x) * Two(UNIT))) * (D * Two(h)) == N * (Two(g) * TenDown(x))
  {
    hide Two, TenUp, TenDown;
    TwoNone();
    var a, b := TwoUp(e), TwoDown(e);
    TwoAdd(UNIT, h);
    if e >= 0 { TwoAdd(UNIT + h, e); } else { TwoAdd(g, -e); }
    UnitsAlgebra(N, D, s, TenUp(x), TenDown(x), a, b, Two(UNIT), Two(h), Two(g));
  }

  lemma UnitsAlgebra(N: nat, D: nat, s: nat, t: nat, y: nat, a: nat, b: nat, W: nat, H: nat, G: nat)
    requires a > 0 && (N * a) * y == (s * t) * (D * b) && (W * H) * a == G * b
    ensures (s * (t * W)) * (D * H) == N * (G * y)
  {
    calc {
      ((s * (t * W)) * (D * H)) * a;
      { MulAssociate(s, t, W); Regroup(s * t, W, D, H); MulAssociate((s * t) * D, W * H, a); }
      ((s * t) * D) * ((W * H) * a);
      ((s * t) * D) * (G * b);
      { Regroup(s * t, D, b, G); MulAssociate(s * t, D, b); MulAssociate((s * t) * D, b, G); }
      ((s * t) * (D * b)) * G;
      ((N * a) * y) * G;
      { MulAssociate(N * a, y, G); MulAssociate(N, a, y * G); MulAssociate(N, y * G, a); }
      (N * (G * y)) * a;
    }
    MulLess((s * (t * W)) * (D * H), N * (G * y), a);
  }

  /** Comparing with c * g units is comparing N with c * H * D. */
  lemma CompareUnits(u: nat, y: nat, N: nat, D: nat, H: nat, g: nat, c: nat)
    requires D > 0 && H > 0 && g > 0 && y > 0 && u * (D * H) == N * (g * y)
    ensures u < (c * g) * y <==> N < (c * H) * D
    ensures u > (c * g) * y <==> N > (c * H) * D
  {
    MulPositive(D, H);
    MulPositive(g, y);
    MulLess(u, (c * g) * y, D * H);
    MulLess((c * g) * y, u, D * H);
    MulLess(N, (c * H) * D, g * y);
    MulLess((c * H) * D, N, g * y);
    MulAssociate(c, g, y);
    MulAssociate(c, g * y, D * H);
    MulAssociate(c, H, D);
    MulAssociate(c, D * H, g * y);
  }

  /** Where the exact value lies, from the bits cut off the significand. */
  lemma CutOffBits(f: int, F: int, r: int, H: int, N: int, D: int, error: int)
    requires D > 0 && H > 0 && f == F * (2 * H) + r && 0 <= r < 2 * H && 0 <= error <= 4 * H && Nearer(f, N, D, error)
    ensures 8 * r >= 8 * H + error ==> N > ((2 * F + 1) * H) * D
    ensures 8 * r <= 8 * H - error ==> N < ((2 * F + 1) * H) * D
    ensures 2 * N > ((4 * F - 1) * H) * D && N > ((2 * F - 1) * H) * D && N < ((2 * F + 3) * H) * D
  {
    assert (2 * F + 1) * H == f - r + H && (4 * F - 1) * H == 2 * (f - r) - H;
    assert (2 * F - 1) * H == f - r - H && (2 * F + 3) * H == f - r + 3 * H;
    CutOff(f, N, D, error, f - r + H);
    CutOff(f, N, D, error, f - r - H);
    CutOff(f, N, D, error, f - r + 3 * H);
    CutOff2(f, N, D, error, 2 * (f - r) - H);
  }

  lemma CutOff(f: int, N: int, D: int, error: int, b: int)
    requires D > 0 && Nearer(f, N, D, error)
    ensures 8 * (f - b) >= error ==> N > b * D
    ensures 8 * (b - f) >= error ==> N < b * D
  {
    MulDistribute(f, b, D);
    MulDistribute(b, f, D);
    if 8 * (f - b) >= error { MulLess(error, 8 * (f - b), D); MulAssociate(8, f - b, D); }
    if 8 * (b - f) >= error { MulLess(error, 8 * (b - f), D); MulAssociate(8, b - f, D); }
  }

  lemma CutOff2(f: int, N: int, D: int, error: int, b: int)
    requires D > 0 && Nearer(f, N, D, error) && 4 * (2 * f - b) >= error
    ensures 2 * N > b * D
  {
    MulDistribute(2 * f, b, D);
    MulAssociate(2, f, D);
    MulLess(error, 4 * (2 * f - b), D);
    MulAssociate(4, 2 * f - b, D);
  }

  /** Of two neighbouring doubles around a value, the shared boundary tells which is nearest. */
  lemma Neighbours(w: nat, u: nat, y: nat)
    requires w < INFINITY && y > 0 && (w > 0 ==> Lower(w) * y < u) && (w + 1 < INFINITY ==> u < Upper(w + 1) * y)
    ensures u < Upper(w) * y || (u == Upper(w) * y && w % 2 == 0) ==> RoundsTo(w, u, y)
    ensures u > Upper(w) * y || (u == Upper(w) * y && w % 2 == 1) ==> RoundsTo(w + 1, u, y)
  {
    hide Upper, Lower;
    if w + 1 < INFINITY { Adjacent(w); }
  }

  lemma WordFields(F: nat, E: int)
    requires DENORMAL_EXPONENT <= E < 972 && F < 2 * HIDDEN_BIT && (E > DENORMAL_EXPONENT ==> F >= HIDDEN_BIT)
    ensures
      var w := Word(F, E);
      && w < INFINITY && Significand(w) == F && Exponent(w) == E && Word(F + 1, E) == w + 1
      && (w > 0 ==> F > 0)
  {}

  /** The boundaries of a word and of its successor, in the scale of its significand. */
  lemma BoundariesOf(F: nat, E: int)
    requires DENORMAL_EXPONENT <= E < 972 && F < 2 * HIDDEN_BIT && (E > DENORMAL_EXPONENT ==> F >= HIDDEN_BIT)
    ensures
      var w, G := Word(F, E), E + 1074;
      && w < INFINITY && Upper(w) == (2 * F + 1) * Two(G)
      && (w > 0 ==> F > 0 && (Lower(w) == (2 * F - 1) * Two(G) || (G > 0 && Lower(w) == (4 * F - 1) * Two(G - 1))))
      && (w + 1 < INFINITY ==> Upper(w + 1) >= (2 * F + 3) * Two(G))
  {
    hide Two;
    WordFields(F, E);
    var w, G := Word(F, E), E + 1074;
    if w + 1 < INFINITY {
      NextFields(w);
      TwoSucc(G);
      MulAssociate(2 * HIDDEN_BIT + 1, 2, Two(G));
      MulLess(2 * F + 3, 4 * HIDDEN_BIT + 2, Two(G));
    }
  }

  /** A value close to F and F + 1 units of 2^E rounds to one of the two words. */
  lemma NearFinite(F: nat, E: int, u: nat, y: nat, N: nat, D: nat, H: nat)
    requires DENORMAL_EXPONENT <= E < 972 && F < 2 * HIDDEN_BIT && (E > DENORMAL_EXPONENT ==> F >= HIDDEN_BIT)
    requires D > 0 && H > 0 && y > 0 && u * (D * H) == N * (Two(E + 1074) * y)
    requires 2 * N > ((4 * F - 1) * H) * D && N > ((2 * F - 1) * H) * D && N < ((2 * F + 3) * H) * D
    ensures
      var w := Word(F, E);
      && w < INFINITY && Word(F + 1, E) == w + 1
      && (N < ((2 * F + 1) * H) * D ==> RoundsTo(w, u, y))
      && (N > ((2 * F + 1) * H) * D ==> RoundsTo(w + 1, u, y))
      && (RoundsTo(w, u, y) || RoundsTo(w + 1, u, y))
  {
    hide Two, Upper, Lower, RoundsTo, Word;
    var w, G := Word(F, E), E + 1074;
    WordFields(F, E);
    BoundariesOf(F, E);
    CompareUnits(u, y, N, D, H, Two(G), 2 * F + 1);
    if w > 0 {
      CompareUnits(u, y, N, D, H, Two(G), 2 * F - 1);
      if G > 0 {
        TwoSucc(G - 1);
        MulAssociate(N, 2, Two(G - 1) * y);
        MulAssociate(2, Two(G - 1), y);
        CompareUnits(u, y, 2 * N, D, H, Two(G - 1), 4 * F - 1);
      }
    }
    if w + 1 < INFINITY {
      CompareUnits(u, y, N, D, H, Two(G), 2 * F + 3);
      MulMonotone((2 * F + 3) * Two(G), y, Upper(w + 1), y);
    }
    Neighbours(w, u, y);
  }

  /** From 2^1024 on, less a little, everything rounds to infinity. */
  lemma NearInfinite(F: nat, E: int, u: nat, y: nat, N: nat, D: nat, H: nat)
    requires E >= 972 && F >= HIDDEN_BIT && D > 0 && H > 0 && y > 0 && u * (D * H) == N * (Two(E + 1074) * y)
    requires 2 * N > ((4 * F - 1) * H) * D
    ensures Word(F, E) == INFINITY == Word(F + 1, E) && RoundsTo(INFINITY, u, y)
  {
    hide Two;
    var G := E + 1074;
    TwoSucc(G - 1);
    MulAssociate(N, 2, Two(G - 1) * y);
    MulAssociate(2, Two(G - 1), y);
    CompareUnits(u, y, 2 * N, D, H, Two(G - 1), 4 * F - 1);
    TwoMonotone(2045, G - 1);
    MulMonotone(4 * HIDDEN_BIT - 1, Two(2045), 4 * F - 1, Two(G - 1));
    MulMonotone((4 * HIDDEN_BIT - 1) * Two(2045), y, (4 * F - 1) * Two(G - 1), y);
    assert Upper(INFINITY - 1) == (4 * HIDDEN_BIT - 1) * Two(2045);
  }

  /** What the cut-off bits decide. */
  lemma NearestWord(f: nat, e: int, p: nat, F: nat, r: nat, N: nat, D: nat, error: nat, s: nat, x: int)
    requires p >= 11 && f == F * Two(p) + r && r < Two(p) && error <= 200 && D > 0
    requires Nearer(f, N, D, error) && Exact(N, D, e, s, x)
    requires e + p >= DENORMAL_EXPONENT && F < 2 * HIDDEN_BIT && (e + p > DENORMAL_EXPONENT ==> F >= HIDDEN_BIT)
    ensures
      var H, w, next := Two(p - 1), Word(F, e + p), Word(F + 1, e + p);
      && (8 * r >= 8 * H + error ==> DecimalRoundsTo(next, s, x))
      && (8 * r <= 8 * H - error ==> DecimalRoundsTo(w, s, x))
      && GuessOk((w, false), s, x)
  {
    hide Two, Nearer, Exact, RoundsTo, Word, TenUp, TenDown;
    var H, G := Two(p - 1), e + p + 1074;
    var u, y := s * (TenUp(x) * Two(UNIT)), TenDown(x);
    TwoSucc(p - 1);
    TwoMonotone(10, p - 1);
    TwoTens();
    MulAssociate(F, 2, H);
    CutOffBits(f, F, r, H, N, D, error);
    InUnitsOf(N, D, e, s, x, p - 1, G);
    MulPositive(TenUp(x), Two(UNIT));
    MulPositive(s, TenUp(x) * Two(UNIT));
    if e + p < 972 {
      NearFinite(F, e + p, u, y, N, D, H);
    } else {
      NearInfinite(F, e + p, u, y, N, D, H);
    }
  }

  /** What is approximated below 2^-1075 is not much above it. */
  lemma CloseToHalf(f: nat, e: int, N: nat, D: nat, error: nat, s: nat, x: int)
    requires f < TWO64 && error <= 180 && D > 0 && Nearer(f, N, D, error) && Exact(N, D, e, s, x)
    requires e + 64 < DENORMAL_EXPONENT && AboveHalf(s, x)
    ensures JustAboveHalf(s, x)
  {
    hide Two, Nearer, Exact, TenUp, TenDown;
    var h := 0 - (e + UNIT);
    var u, y := s * (TenUp(x) * Two(UNIT)), TenDown(x);
    InUnitsOf(N, D, e, s, x, h, 0);
    MulPositive(TenUp(x), Two(UNIT));
    MulPositive(s, TenUp(x) * Two(UNIT));
    TwoNone();
    CutOff(f, N, D, error, TWO64 + 23);
    SixtyThree();
    TwoMonotone(64, h);
    // u * 2^h * D == N * y < (2^64 + 23) * y * D
    MulLess(N, (TWO64 + 23) * D, y);
    MulAssociate(TWO64 + 23, D, y);
    MulAssociate(TWO64 + 23, y, D);
    MulAssociate(u, D, Two(h));
    MulAssociate(u, Two(h), D);
    MulLess(u * Two(h), (TWO64 + 23) * y, D);
    MulMonotone(u, TWO64, u, Two(h));
    MulAssociate(s, TWO64, TenUp(x) * Two(UNIT));
    MulAssociate(TWO64, s, TenUp(x) * Two(UNIT));
  }

  /** Up to 2^-1075 the nearest double is 0. */
  lemma HalfRounds(s: nat, x: int)
    requires !AboveHalf(s, x)
    ensures DecimalRoundsTo(0, s, x)
  {
    hide Two, TenUp, TenDown;
    UpperOfZero();
    MulPositive(TenUp(x), Two(UNIT));
    MulPositive(s, TenUp(x) * Two(UNIT));
  }

  /** Moves very small numbers to the right so that the scaled half stays within a word. */
  method MakeRoom(input: DiyFp, error: uint64, precision_digits_count: int,
      ghost N: nat, ghost D: nat, ghost s: nat, ghost x: int)
      returns (room_error: uint64, precision: int, ghost D2: nat)
    requires error <= 180 && 11 <= precision_digits_count <= 64
    requires D > 0 && Nearer(input.f, N, D, error) && Exact(N, D, input.e, s, x)
    modifies input
    ensures 11 <= precision <= 60 && room_error <= 200 && input.e + precision == old(input.e) + precision_digits_count
    ensures D2 > 0 && Nearer(input.f, N, D2, room_error) && Exact(N, D2, input.e, s, x)
    ensures if precision_digits_count <= 60 then precision == precision_digits_count && input.f == old(input.f)
            else precision == 60
  {
    hide Two, Nearer, Exact;
    precision, room_error, D2 := precision_digits_count, error, D;
    if precision_digits_count + 3 >= 64 {
      var shift_amount := precision_digits_count + 3 - 64 + 1;
      ghost var m := Two(shift_amount);
      NearShiftRight(input.f, N, D, error, m);
      ExactOne(shift_amount);
      ExactTimes(N, D, input.e, s, x, 1, m, shift_amount, 0);
      D2 := D * m;
      ShiftedBounds(input.f, m);
      ShiftedBounds(error, m);
      input.f := input.f / Two(shift_amount);
      input.e := input.e + shift_amount;
      room_error := error / Two(shift_amount) + 1 + 8;
      precision := precision_digits_count - shift_amount;
    }
  }

  lemma ShiftedBounds(f: nat, m: nat)
    requires m > 0
    ensures 0 <= f / m <= f
  {
    DivModDefinition(f, m);
    if f / m > f { MulLess(f, f / m, m); MulMonotone(f, 1, f, m); }
    if f / m < 0 { MulLess(f / m, 0, m); MulGap(f / m, 0, m); }
  }

  lemma PrecisionPowers(p: nat)
    requires 11 <= p <= 60
    ensures 1024 <= Two(p - 1) <= 0x800_0000_0000_0000 && Two(p) == 2 * Two(p - 1)
    ensures p == 11 ==> Two(p) == 2048
    ensures p >= 12 ==> Two(p) >= 4096
  {
    hide Two;
    TwoTens();
    TwoSucc(p - 1);
    TwoMonotone(10, p - 1);
    TwoMonotone(p - 1, 59);
    SmallPowers();
    TwoSucc(59);
    if p >= 12 { TwoSucc(10); TwoMonotone(11, p - 1); }
  }

  /** The significand that remains has 53 bits, or fewer for denormals. */
  lemma RemainingBits(f: nat, p: nat, q: nat)
    requires f < TWO64 && q == Two(p) && 11 <= p <= 60
    ensures 0 <= f / q < 2 * HIDDEN_BIT && 0 <= f % q < q && f == (f / q) * q + f % q
    ensures p == 11 && f >= UINT64_MSB ==> f / q >= HIDDEN_BIT
    ensures p > 11 ==> f / q < HIDDEN_BIT
  {
    hide Two;
    PrecisionPowers(p);
    DivModDefinition(f, q);
    if f / q >= 2 * HIDDEN_BIT { MulMonotone(2 * HIDDEN_BIT, 2048, f / q, q); }
    if f / q >= HIDDEN_BIT && p > 11 { MulMonotone(HIDDEN_BIT, 4096, f / q, q); }
    if f / q < 0 { MulGap(f / q, 0, q); MulZero(q); }
  }

  /** Rounds the significand to the precision of its order of magnitude, and says whether the error
      could have changed the outcome. */
  method RoundInput(input: DiyFp, error: uint64, ghost N: nat, ghost D: nat, ghost s: nat, ghost x: int)
      returns (result: uint64, correct: bool)
    requires input.f >= UINT64_MSB && error <= 180
    requires D > 0 && Nearer(input.f, N, D, error) && Exact(N, D, input.e, s, x)
    requires AboveHalf(s, x) ==> input.e + 64 >= DENORMAL_EXPONENT
    modifies input
    ensures result <= INFINITY
    ensures GuessOk((result, correct), s, x)
  {
    hide Two, Nearer, Exact, DecimalRoundsTo, AboveHalf, Significand, Exponent;
    var order_of_magnitude := 64 + input.e;
    var effective_significand_size := SignificandSizeForOrderOfMagnitude(order_of_magnitude);
    var error1, precision_digits_count;
    ghost var D1;
    error1, precision_digits_count, D1 := MakeRoom(input, error, 64 - effective_significand_size, N, D, s, x);
    var one64: uint64 := 1;
    PrecisionPowers(precision_digits_count);
    RemainingBits(input.f, precision_digits_count, Two(precision_digits_count));
    var precision_bits: uint64 := input.f % Two(precision_digits_count);
    var half_way: uint64 := one64 * Two(precision_digits_count - 1);
    ghost var r := precision_bits;
    precision_bits := precision_bits * 8;
    half_way := half_way * 8;
    var rounded_f: uint64, rounded_e: int := input.f / Two(precision_digits_count), input.e + precision_digits_count;
    ghost var F := rounded_f;
    if precision_bits >= half_way + error1 {
      rounded_f := rounded_f + 1;
    }
    result := DiyFpToUint64(rounded_f, rounded_e);
    correct := !(half_way - error1 < precision_bits < half_way + error1);
    if rounded_e >= DENORMAL_EXPONENT {
      NearestWord(input.f, input.e, precision_digits_count, F, r, N, D1, error1, s, x);
    } else {
      HalfRounds(s, x);
    }
  }

  /** If `correct`, the result is the nearest double; otherwise it is that or the one just below. */
  method DiyFpStrtod(buffer: seq<char>, exponent: int, powers: nat -> (uint64, int)) returns (result: uint64, correct: bool)
    requires Trimmed(buffer) && buffer != [] && |buffer| + exponent <= MAX_DECIMAL_POWER && PowersOk(powers)
    ensures Dec(buffer) >= 0 && result <= INFINITY
    ensures GuessOk((result, correct), Dec(buffer), exponent)
  {
    hide Dec, Pow10, Near, Nearer, Exact, DecimalRoundsTo, PowersOk;
    DecBounds(buffer);
    var input, remaining_decimals := ReadDiyFp(buffer);
    var exponent1 := exponent + remaining_decimals;
    if exponent1 < MIN_DECIMAL_EXPONENT {
      TooSmall(buffer, exponent);
      return 0, true;
    }
    var error;
    ghost var N, D;
    error, N, D := ScaledInput(buffer, input, remaining_decimals, exponent1, powers);
    result, correct := RoundInput(input, error, N, D, Dec(buffer), exponent);
  }

  // ----- Strtod -----

  /** What a platform with correctly rounded operations may answer at once for short inputs. */
  ghost predicate DoubleStrtodOk(double_strtod: (seq<char>, int) -> (bool, uint64)) {
    forall t: seq<char>, x: int :: Admissible(t, x) && double_strtod(t, x).0 ==>
      Dec(t) >= 0 && DecimalRoundsTo(double_strtod(t, x).1, Dec(t), x)
  }

  method ComputeGuess(trimmed: seq<char>, exponent: int, double_strtod: (seq<char>, int) -> (bool, uint64),
      powers: nat -> (uint64, int)) returns (guess: uint64, is_correct: bool)
    requires Trimmed(trimmed) && |trimmed| <= MAX_SIGNIFICANT_DIGITS && Dec(trimmed) >= 0
    requires DoubleStrtodOk(double_strtod) && PowersOk(powers)
    ensures guess <= INFINITY
    ensures GuessOk((guess, is_correct), Dec(trimmed), exponent)
    ensures !is_correct ==> Admissible(trimmed, exponent) && guess < INFINITY
  {
    hide Dec, DecimalRoundsTo, PowersOk;
    if |trimmed| == 0 {
      ZeroRounds(exponent);
      return 0, true;
    }
    if exponent + |trimmed| - 1 >= MAX_DECIMAL_POWER {
      TooLarge(trimmed, exponent);
      return INFINITY, true;
    }
    if exponent + |trimmed| <= MIN_DECIMAL_POWER {
      TooSmall(trimmed, exponent);
      return 0, true;
    }
    var exact := double_strtod(trimmed, exponent);
    if exact.0 {
      RoundsToBelow(exact.1, Dec(trimmed), exponent);
      return exact.1, true;
    }
    guess, is_correct := DiyFpStrtod(trimmed, exponent, powers);
    if guess == INFINITY { is_correct := true; }
  }

  lemma RoundsToBelow(d64: nat, s: nat, x: int)
    requires DecimalRoundsTo(d64, s, x)
    ensures d64 <= INFINITY
  {
    MulPositive(TenUp(x), Two(UNIT));
    MulPositive(s, TenUp(x) * Two(UNIT));
  }

  /** The double nearest to buffer * 10^exponent, ties to even; every digit string is accepted. */
  method ReadDouble(buffer: seq<char>, exponent: int, double_strtod: (seq<char>, int) -> (bool, uint64),
      powers: nat -> (uint64, int)) returns (result: uint64)
    requires AllDigits(buffer) && DoubleStrtodOk(double_strtod) && PowersOk(powers)
    ensures Dec(buffer) >= 0 && result <= INFINITY
    ensures DecimalRoundsTo(result, Dec(buffer), exponent)
  {
    hide Dec, DecimalRoundsTo, Two, TenUp, TenDown, Upper, Pow10, DoubleStrtodOk, PowersOk;
    var trimmed, exp := TrimAndCut(buffer, exponent);
    var guess, is_correct := ComputeGuess(trimmed, exp, double_strtod, powers);
    if is_correct { return guess; }
    Ranges(guess);
    TwoConstants();
    var comparison := CompareBufferWithDiyFp(trimmed, exp, 2 * Significand(guess) + 1, Exponent(guess) - 1);
    BoundaryDecides(guess, Dec(trimmed), exp, comparison);
    if comparison < 0 {
      return guess;
    } else if comparison > 0 {
      return NextDouble(guess);
    } else if Significand(guess) % 2 == 0 {
      return guess;
    } else {
      return NextDouble(guess);
    }
  }
}
