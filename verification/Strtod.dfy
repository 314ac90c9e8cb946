/** Reading a decimal string as the nearest double (strtod.cc): trimming, cutting long inputs, the
    exact comparison with a boundary, and the final choice. */
module Strtod {
  import opened Words
  import opened Bigits
  import opened Bignums
  import opened BignumArithmetic
  import opened Decimal
  import opened Powers
  import opened Ieee
  import opened ScaledStart
  import opened DoubleDtoa

  const MAX_SIGNIFICANT_DIGITS: nat := 780
  const BOUNDARY_DIGITS: nat := 771
  const MAX_DECIMAL_POWER: int := 309
  const MIN_DECIMAL_POWER: int := -324

  /** The same decimal with a lower exponent. */
  lemma RescaleRoundsTo(d64: nat, s: nat, k: int, z: int)
    requires z <= k
    ensures 0 <= s * Pow10(k - z)
    ensures DecimalRoundsTo(d64, s, k) <==> DecimalRoundsTo(d64, s * Pow10(k - z), z)
  {
    hide Two, TenUp, TenDown, Pow10, Upper, Lower;
    var L, u := Pow10(k - z), Two(UNIT);
    MulPositive(s, L);
    forall w: nat
      ensures w * TenDown(k) < s * (TenUp(k) * u) <==> w * TenDown(z) < (s * L) * (TenUp(z) * u)
      ensures w * TenDown(k) == s * (TenUp(k) * u) <==> w * TenDown(z) == (s * L) * (TenUp(z) * u)
    {
      RescaleOrder(w, s, k, z, L, u);
    }
  }

  lemma RescaleOrder(w: nat, s: nat, k: int, z: int, L: nat, u: nat)
    requires z <= k && L == Pow10(k - z)
    ensures w * TenDown(k) < s * (TenUp(k) * u) <==> w * TenDown(z) < (s * L) * (TenUp(z) * u)
    ensures w * TenDown(k) == s * (TenUp(k) * u) <==> w * TenDown(z) == (s * L) * (TenUp(z) * u)
  {
    hide TenUp, TenDown, Pow10;
    TenShift(k, z, L);
    var uk, dk, uz, dz := TenUp(k), TenDown(k), TenUp(z), TenDown(z);
    MulLess(w * dk, s * (uk * u), dz);
    MulLess(w * dz, (s * L) * (uz * u), dk);
    CrossRescale(w, s, uk, dk, uz, dz, L, u);
  }

  lemma CrossRescale(w: nat, s: nat, uk: nat, dk: nat, uz: nat, dz: nat, L: nat, u: nat)
    requires uk * dz == (dk * L) * uz
    ensures (w * dk) * dz == (w * dz) * dk
    ensures (s * (uk * u)) * dz == ((s * L) * (uz * u)) * dk
  {
    MulAssociate(w, dk, dz);
    MulAssociate(w, dz, dk);
    calc {
      (s * (uk * u)) * dz;
      { MulAssociate(s, uk * u, dz); Regroup5(u, uk, 1, dz); MulAssociate(uk, u, dz); MulAssociate(uk, dz, u); }
      s * ((uk * dz) * u);
      s * (((dk * L) * uz) * u);
      { MulAssociate(dk * L, uz, u); MulAssociate(dk, L, uz * u); }
      s * (dk * (L * (uz * u)));
      { MulAssociate(s, L * (uz * u), dk); }
      (s * (L * (uz * u))) * dk;
      { MulAssociate(s, L, uz * u); }
      ((s * L) * (uz * u)) * dk;
    }
  }

  // ----- trimming -----

  method TrimLeadingZeros(buffer: seq<char>) returns (trimmed: seq<char>)
    requires AllDigits(buffer)
    ensures AllDigits(trimmed) && Dec(trimmed) == Dec(buffer) && |trimmed| <= |buffer|
    ensures trimmed != [] ==> trimmed[0] != '0' && trimmed[|trimmed| - 1] == buffer[|buffer| - 1]
  {
    for i := 0 to |buffer|
      invariant forall j :: 0 <= j < i ==> buffer[j] == '0'
    {
      if buffer[i] != '0' {
        DropLeading(buffer, i);
        return buffer[i..];
      }
    }
    DecZeros(buffer);
    return [];
  }

  lemma DropLeading(s: seq<char>, i: nat)
    requires i <= |s| && forall j :: 0 <= j < i ==> s[j] == '0'
    ensures Dec(s[i..]) == Dec(s)
  {
    assert s == s[..i] + s[i..];
    DecZeros(s[..i]);
    DecConcat(s[..i], s[i..]);
    MulZero(Pow10(|s| - i));
  }

  method TrimTrailingZeros(buffer: seq<char>) returns (trimmed: seq<char>)
    requires AllDigits(buffer)
    ensures AllDigits(trimmed) && |trimmed| <= |buffer| && trimmed <= buffer
    ensures Dec(buffer) == Dec(trimmed) * Pow10(|buffer| - |trimmed|)
    ensures trimmed != [] ==> trimmed[|trimmed| - 1] != '0'
  {
    var i := |buffer|;
    while i > 0
      invariant 0 <= i <= |buffer| && forall j :: i <= j < |buffer| ==> buffer[j] == '0'
    {
      if buffer[i - 1] != '0' {
        DropTrailing(buffer, i);
        return buffer[..i];
      }
      i := i - 1;
    }
    DecZeros(buffer);
    MulZero(Pow10(|buffer|));
    return [];
  }

  lemma DropTrailing(s: seq<char>, i: nat)
    requires i <= |s| && forall j :: i <= j < |s| ==> s[j] == '0'
    ensures Dec(s) == Dec(s[..i]) * Pow10(|s| - i)
  {
    assert s == s[..i] + s[i..];
    DecZeros(s[i..]);
    DecConcat(s[..i], s[i..]);
  }

  // ----- cutting -----

  /** All but the first 779 digits are replaced by a single 1. */
  method CutToMaxSignificantDigits(buffer: seq<char>, exponent: int)
      returns (significant_buffer: seq<char>, significant_exponent: int)
    requires AllDigits(buffer) && |buffer| > MAX_SIGNIFICANT_DIGITS
    requires buffer[0] != '0' && buffer[|buffer| - 1] != '0'
    ensures significant_buffer == buffer[..MAX_SIGNIFICANT_DIGITS - 1] + ['1']
    ensures significant_exponent == exponent + |buffer| - MAX_SIGNIFICANT_DIGITS
  {
    significant_buffer := [];
    for i := 0 to MAX_SIGNIFICANT_DIGITS - 1
      invariant significant_buffer == buffer[..i]
    {
      significant_buffer := significant_buffer + [buffer[i]];
    }
    significant_buffer := significant_buffer + ['1'];
    significant_exponent := exponent + (|buffer| - MAX_SIGNIFICANT_DIGITS);
  }

  /** A string longer than its leading n digits compares with every number of at most n significant
      digits as those n digits followed by a 1 do.  Both sides are taken over 10^z. */
  lemma CutCompares(s: seq<char>, n: nat, x: int, b: nat, j: int, z: int)
    requires AllDigits(s) && 0 < n < |s| && s[0] != '0' && Dec(s[n..]) > 0
    requires z <= x && z <= j && b < Pow10(n)
    ensures
      var cut, cx := s[..n] + ['1'], x + |s| - n - 1;
      Sign(Dec(s) * Pow10(x - z) - b * Pow10(j - z)) == Sign(Dec(cut) * Pow10(cx - z) - b * Pow10(j - z))
      && Sign(Dec(s) * Pow10(x - z) - b * Pow10(j - z)) != 0
  {
    hide Pow10, Dec;
    var m := |s| - n;
    var h, t := Dec(s[..n]), Dec(s[n..]);
    assert s == s[..n] + s[n..];
    DecConcat(s[..n], s[n..]);
    DecBounds(s[n..]);
    DecBounds(s[..n]);
    DecLeading(s[..n]);
    DecAppend(s[..n], '1');
    var big, small, unit := Pow10(x + m - z), Pow10(x + m - 1 - z), Pow10(x - z);
    TenAdd(m, x - z);
    TenAdd(1, x + m - 1 - z);
    TenIs();
    // h * big < both < (h + 1) * big
    MulDistribute(h * Pow10(m), t, unit);
    MulAssociate(h, Pow10(m), unit);
    MulLess(t, Pow10(m), unit);
    MulPositive(t, unit);
    MulDistribute(10 * h, 1, small);
    MulAssociate(h, 10, small);
    MulAssociate(10, h, small);
    NotBetween(h, n, b, j - z, x + m - z);
  }

  lemma LastNonZero(t: seq<char>)
    requires AllDigits(t) && |t| > 0 && t[|t| - 1] != '0'
    ensures Dec(t) > 0
  {
    DecBounds(t[..|t| - 1]);
  }

  /** A number b * 10^j of at most n digits is a multiple of 10^q, or below any n-digit multiple. */
  lemma NotBetween(h: nat, n: nat, b: nat, j: nat, q: nat)
    requires 0 < n && Pow10(n - 1) <= h && b < Pow10(n)
    ensures b * Pow10(j) <= h * Pow10(q) || (h + 1) * Pow10(q) <= b * Pow10(j)
    ensures h * Pow10(q) + Pow10(q) == (h + 1) * Pow10(q)
  {
    hide Pow10;
    MulDistribute(h, 1, Pow10(q));
    if j >= q {
      TenAdd(j - q, q);
      var c := b * Pow10(j - q);
      MulAssociate(b, Pow10(j - q), Pow10(q));
      if c <= h { MulLess(c, h, Pow10(q)); } else { MulLess(h + 1, c, Pow10(q)); }
    } else {
      MulLess(b, Pow10(n), Pow10(j));
      TenAdd(n, j);
      TenAdd(n - 1, q);
      PowMonotone(10, n + j, n - 1 + q);
      assert Pow10(n + j) <= Pow10(n - 1 + q) by { TenMonotone(n + j, n - 1 + q); }
      MulLess(Pow10(n - 1), h, Pow10(q));
    }
  }

  // ----- boundaries are short decimals -----

  lemma LargePowers()
    ensures Two(1024) <= Pow10(309) && Two(UNIT) <= Pow10(324)
    ensures Pow(5, 1075) <= Pow10(753) && Two(54) <= Pow10(17)
  {
    hide Pow;
    TwoConstants();
    TenConstants();
    FiveConstants();
    PowBaseMonotone(Two(93), Pow10(28), 11);
    PowMul(2, 93, 11);
    PowMul(10, 28, 11);
    TenAdd(308, 1);
    TwoAdd(1023, 1);
    MulMonotone(Two(1023), Two(1), Pow10(308), Pow10(1));
    TenAdd(308, 16);
    TwoAdd(1023, 53);
    MulMonotone(Two(1023), Two(53), Pow10(308), Pow10(16));
    TwoMonotone(UNIT, 1076);
    PowBaseMonotone(Pow(5, 10), Pow10(7), 107);
    PowMul(5, 10, 107);
    PowMul(10, 7, 107);
    PowAdd(5, 1070, 5);
    TenAdd(749, 4);
    MulMonotone(Pow(5, 1070), Pow(5, 5), Pow10(749), Pow10(4));
  }

  lemma TwoConstants()
    ensures Two(1) == 2 && Two(53) == 2 * HIDDEN_BIT && Two(54) == 4 * HIDDEN_BIT
    ensures Two(93) == 9903520314283042199192993792
  {
    hide Pow;
    PowOne(2);
    TwoAdd(1, 1);
    TwoAdd(2, 1);
    TwoAdd(3, 10);
    TwoTen();
    TwoAdd(10, 10);
    TwoAdd(20, 20);
    TwoAdd(40, 13);
    TwoAdd(53, 1);
    TwoAdd(53, 40);
  }

  lemma TenConstants()
    ensures Pow10(1) == 10 && Pow10(4) == 10000 && Pow10(7) == 10000000
    ensures Pow10(16) == 10000000000000000 && Pow10(17) == 100000000000000000
    ensures Pow10(28) == 10000000000000000000000000000
  {
    hide Pow;
    PowOne(10);
    TenAdd(1, 1);
    TenAdd(2, 2);
    TenAdd(4, 2);
    TenAdd(6, 1);
    TenAdd(4, 4);
    TenAdd(8, 8);
    TenAdd(16, 1);
    TenAdd(16, 8);
    TenAdd(24, 4);
  }

  lemma FiveConstants()
    ensures Pow(5, 5) == 3125 && Pow(5, 10) == 9765625
  {
    hide Pow;
    PowOne(5);
    PowAdd(5, 1, 1);
    PowAdd(5, 2, 2);
    PowAdd(5, 4, 1);
    PowAdd(5, 5, 5);
  }

  /** Every boundary between doubles is b * 10^j for some b of at most 771 digits. */
  lemma BoundaryDigits(d64: nat) returns (b: nat, j: int)
    requires d64 < INFINITY
    ensures b < Pow10(BOUNDARY_DIGITS) && j <= 0
    ensures Scaled(b, Upper(d64), 1, j)
  {
    hide Two, Pow10, Pow, Scaled;
    Ranges(d64);
    TwoConstants();
    var f, e := 2 * Significand(d64) + 1, Exponent(d64) - 1;
    if e >= 0 {
      b := IntegerBoundary(f, e);
      j := 0;
    } else {
      b := FractionBoundary(f, 0 - e);
      j := e;
    }
  }

  lemma IntegerBoundary(f: nat, e: nat) returns (b: nat)
    requires f <= Two(54) && e <= 970
    ensures b < Pow10(BOUNDARY_DIGITS) && Scaled(b, f * Two(e + UNIT), 1, 0)
  {
    hide Two, Pow10, Pow;
    LargePowers();
    PowNone(10);
    assert TenUp(0) == 1 && TenDown(0) == 1 by { TenIs(); }
    b := f * Two(e);
    TwoAdd(e, UNIT);
    MulAssociate(f, Two(e), Two(UNIT));
    TwoBound(54, e, f, Two(e));
    TwoMonotone(54 + e, 1024);
    TenStrict(309, BOUNDARY_DIGITS);
  }

  lemma FractionBoundary(f: nat, q: nat) returns (b: nat)
    requires f <= Two(54) && 0 < q <= 1075
    ensures b < Pow10(BOUNDARY_DIGITS) && Scaled(b, f * Two(UNIT - q), 1, 0 - q)
  {
    hide Two, Pow10, Pow;
    LargePowers();
    assert TenUp(0 - q) == 1 by { TenIs(); }
    b := f * Pow(5, q);
    PowMonotone(5, q, 1075);
    MulMonotone(f, Pow(5, q), Pow10(17), Pow10(753));
    TenAdd(17, 753);
    TenStrict(770, BOUNDARY_DIGITS);
    MulPositive(f, Pow(5, q));
    FivesAndTwos(q);
    TwoAdd(UNIT - q, q);
    FractionDigits(f, Pow(5, q), Two(q), Two(UNIT - q));
  }

  lemma FivesAndTwos(q: nat)
    ensures Pow10(q) == Pow(5, q) * Two(q)
  {
    PowProduct(5, 2, q);
  }

  lemma TenStrict(m: nat, n: nat)
    requires m < n
    ensures Pow10(m) < Pow10(n)
  {
    PowStrict(10, m, n);
  }

  lemma FractionDigits(f: nat, five: nat, two: nat, w: nat)
    ensures (f * five) * (1 * (w * two)) == (f * w) * ((five * two) * 1)
  {
    Regroup(f, five, w, two);
  }

  // ----- cutting does not change the rounding -----

  ghost function CutString(s: seq<char>): seq<char> {
    if |s| > MAX_SIGNIFICANT_DIGITS then s[..MAX_SIGNIFICANT_DIGITS - 1] + ['1'] else s
  }

  ghost function CutExponent(s: seq<char>, x: int): int {
    if |s| > MAX_SIGNIFICANT_DIGITS then x + |s| - MAX_SIGNIFICANT_DIGITS else x
  }

  ghost predicate Trimmed(s: seq<char>) {
    AllDigits(s) && (s != [] ==> s[0] != '0' && s[|s| - 1] != '0')
  }

  /** Cut after enough digits and marked with a 1, a string is on the same side of every boundary as
      the original, and on none. */
  lemma CutBoundary(g: nat, s: seq<char>, n: nat, x: int)
    requires g < INFINITY && BOUNDARY_DIGITS <= n < |s| && AllDigits(s) && s[0] != '0' && Dec(s[n..]) > 0
    ensures Dec(s) >= 0 && Dec(s[..n] + ['1']) >= 0
    ensures
      var w, c, cx := Upper(g), Dec(s[..n] + ['1']), x + |s| - n - 1;
      && (w * TenDown(x) < Dec(s) * (TenUp(x) * Two(UNIT)) <==> w * TenDown(cx) < c * (TenUp(cx) * Two(UNIT)))
      && w * TenDown(x) != Dec(s) * (TenUp(x) * Two(UNIT))
      && w * TenDown(cx) != c * (TenUp(cx) * Two(UNIT))
  {
    hide Pow10, Two, TenUp, TenDown, Upper, Scaled, Dec;
    DecBounds(s);
    DecBounds(s[..n] + ['1']);
    var b, j := BoundaryDigits(g);
    TenMonotone(BOUNDARY_DIGITS, n);
    var z := if x < j then x else j;
    var c, cx := Dec(s[..n] + ['1']), x + |s| - n - 1;
    CutCompares(s, n, x, b, j, z);
    MulPositive(Dec(s), Pow10(x - z));
    MulPositive(c, Pow10(cx - z));
    RescaleOrder(Upper(g), Dec(s), x, z, Pow10(x - z), Two(UNIT));
    RescaleOrder(Upper(g), c, cx, z, Pow10(cx - z), Two(UNIT));
    CompareScaled(b, Upper(g), 1, j, Pow10(j - z), Dec(s) * Pow10(x - z), z);
    CompareScaled(b, Upper(g), 1, j, Pow10(j - z), c * Pow10(cx - z), z);
  }

  /** Cutting does not change the rounding. */
  lemma CutRoundsAt(d64: nat, s: seq<char>, n: nat, x: int)
    requires BOUNDARY_DIGITS <= n < |s| && AllDigits(s) && s[0] != '0' && Dec(s[n..]) > 0
    ensures Dec(s) >= 0 && Dec(s[..n] + ['1']) >= 0
    ensures DecimalRoundsTo(d64, Dec(s), x) <==> DecimalRoundsTo(d64, Dec(s[..n] + ['1']), x + |s| - n - 1)
  {
    hide Pow10, Two, TenUp, TenDown, Upper, Lower, Dec;
    DecBounds(s);
    DecBounds(s[..n] + ['1']);
    if d64 <= INFINITY {
      if d64 > 0 {
        CutBoundary(d64 - 1, s, n, x);
        if d64 < INFINITY { Adjacent(d64 - 1); }
      }
      if d64 < INFINITY { CutBoundary(d64, s, n, x); }
    }
  }

  lemma CutRounds(d64: nat, s: seq<char>, x: int)
    requires Trimmed(s)
    ensures Dec(s) >= 0 && Dec(CutString(s)) >= 0
    ensures DecimalRoundsTo(d64, Dec(s), x) <==> DecimalRoundsTo(d64, Dec(CutString(s)), CutExponent(s, x))
  {
    hide Dec, DecimalRoundsTo;
    DecBounds(s);
    if |s| > MAX_SIGNIFICANT_DIGITS {
      LastNonZero(s[MAX_SIGNIFICANT_DIGITS - 1..]);
      CutRoundsAt(d64, s, MAX_SIGNIFICANT_DIGITS - 1, x);
    }
  }

  lemma UpperOfZero()
    ensures Upper(0) == 1
  {
    TwoNone();
  }

  method TrimAndCut(buffer: seq<char>, exponent: int) returns (trimmed: seq<char>, updated_exponent: int)
    requires AllDigits(buffer)
    ensures Trimmed(trimmed) && |trimmed| <= MAX_SIGNIFICANT_DIGITS
    ensures Dec(buffer) >= 0 && Dec(trimmed) >= 0
    ensures forall d64 :: DecimalRoundsTo(d64, Dec(buffer), exponent)
                     <==> DecimalRoundsTo(d64, Dec(trimmed), updated_exponent)
  {
    hide Pow10, Two, TenUp, TenDown, Upper, Lower, Dec, DecimalRoundsTo;
    DecBounds(buffer);
    var left_trimmed := TrimLeadingZeros(buffer);
    var right_trimmed := TrimTrailingZeros(left_trimmed);
    var exp := exponent + (|left_trimmed| - |right_trimmed|);
    DecBounds(right_trimmed);
    DecBounds(CutString(right_trimmed));
    forall d64 ensures DecimalRoundsTo(d64, Dec(buffer), exponent)
                  <==> DecimalRoundsTo(d64, Dec(CutString(right_trimmed)), CutExponent(right_trimmed, exp)) {
      RescaleRoundsTo(d64, Dec(right_trimmed), exp, exponent);
      CutRounds(d64, right_trimmed, exp);
    }
    if |right_trimmed| > MAX_SIGNIFICANT_DIGITS {
      trimmed, updated_exponent := CutToMaxSignificantDigits(right_trimmed, exp);
    } else {
      trimmed, updated_exponent := right_trimmed, exp;
    }
  }

  // ----- the exact comparison -----

  /** The sign of buffer * 10^exponent - f * 2^e. */
  method CompareBufferWithDiyFp(buffer: seq<char>, exponent: int, f: uint64, e: int) returns (comparison: int)
    requires AllDigits(buffer) && |buffer| <= MAX_SIGNIFICANT_DIGITS && |buffer| > 0 && f > 0
    requires |buffer| + exponent <= MAX_DECIMAL_POWER + 1 && |buffer| + exponent > MIN_DECIMAL_POWER
    requires -1075 <= e <= 970
    ensures comparison == Sign((Dec(buffer) * TenUp(exponent)) * TwoDown(e) - (f * TenDown(exponent)) * TwoUp(e))
  {
    hide P, Pow10, Two, Dec, TenUp, TenDown, TwoUp, TwoDown, Bignum.Value, Bignum.Valid, Bignum.Clamped;
    var buffer_bignum := new Bignum();
    var diy_fp_bignum := new Bignum();
    StringRoom(buffer);
    buffer_bignum.AssignDecimalString(buffer);
    diy_fp_bignum.AssignUInt64(f);
    ScaleByTen(buffer_bignum, diy_fp_bignum, exponent, |buffer|);
    ScaleByTwo(buffer_bignum, diy_fp_bignum, e);
    comparison := Bignum.Compare(buffer_bignum, diy_fp_bignum);
  }

  ghost predicate Pair(a: Bignum, b: Bignum)
    reads a, a.bigits, b, b.bigits
  {
    a.Apart(b) && a.Ok() && b.Ok()
  }

  /** Brings the power of ten to whichever side keeps both integers. */
  method ScaleByTen(buffer_bignum: Bignum, diy_fp_bignum: Bignum, exponent: int, ghost digits: nat)
    requires Pair(buffer_bignum, diy_fp_bignum) && buffer_bignum.exponent == 0 && diy_fp_bignum.exponent == 0
    requires buffer_bignum.Value() < Pow10(digits) < P(CAPACITY - 2) && 0 < diy_fp_bignum.Value() < TWO64
    requires digits + exponent <= 310 && exponent >= -1103
    modifies buffer_bignum, buffer_bignum.bigits, diy_fp_bignum, diy_fp_bignum.bigits
    ensures Pair(buffer_bignum, diy_fp_bignum)
    ensures buffer_bignum.Value() == old(buffer_bignum.Value()) * TenUp(exponent)
    ensures diy_fp_bignum.Value() == old(diy_fp_bignum.Value()) * TenDown(exponent)
    ensures buffer_bignum.used < CAPACITY && diy_fp_bignum.used < CAPACITY
  {
    hide P, Pow, Bignum.Value, Bignum.Valid, Bignum.Clamped;
    PowNone(10);
    if exponent >= 0 {
      WordLength(diy_fp_bignum);
      TimesPowerOfTen(buffer_bignum, exponent, digits);
    } else {
      PLess(CAPACITY - 2, CAPACITY - 1);
      buffer_bignum.LengthBelow(CAPACITY - 1);
      WordTimesPowerOfTen(diy_fp_bignum, -exponent);
    }
  }

  lemma WordLength(x: Bignum)
    requires x.Ok() && x.Value() < TWO64
    ensures x.used < CAPACITY
  {
    hide P, Pow, Bignum.Value, Bignum.Valid, Bignum.Clamped;
    WordPowers();
    TwoMonotone(64, 2900);
    Room(x.Value());
    x.LengthBelow(CAPACITY - 1);
  }

  method ScaleByTwo(buffer_bignum: Bignum, diy_fp_bignum: Bignum, e: int)
    requires Pair(buffer_bignum, diy_fp_bignum) && buffer_bignum.used < CAPACITY && diy_fp_bignum.used < CAPACITY
    modifies buffer_bignum, buffer_bignum.bigits, diy_fp_bignum, diy_fp_bignum.bigits
    ensures Pair(buffer_bignum, diy_fp_bignum)
    ensures buffer_bignum.Value() == old(buffer_bignum.Value()) * TwoDown(e)
    ensures diy_fp_bignum.Value() == old(diy_fp_bignum.Value()) * TwoUp(e)
  {
    hide P, Pow, Bignum.Value, Bignum.Valid, Bignum.Clamped;
    PowNone(2);
    if e > 0 {
      diy_fp_bignum.ShiftLeft(e);
    } else {
      buffer_bignum.ShiftLeft(-e);
    }
  }

  /** Room for a decimal string of up to 780 digits, or a number of up to 310 digits. */
  lemma StringRoom(buffer: seq<char>)
    requires AllDigits(buffer) && |buffer| <= MAX_SIGNIFICANT_DIGITS
    ensures Pow10(|buffer|) < P(CAPACITY - 2) && 0 <= Dec(buffer) < Pow10(|buffer|)
  {
    hide P, Two, Pow;
    DecBounds(buffer);
    TenMonotone(|buffer|, 3 * 260);
    ThousandTen(260);
    Room(Pow10(|buffer|));
  }

  lemma ThousandTen(n: nat)
    requires n <= 290
    ensures Pow10(3 * n) <= Two(10 * n) <= Two(2900)
  {
    hide Pow;
    TwoTen();
    PowOne(10);
    TenAdd(1, 1);
    TenAdd(2, 1);
    PowMul(10, 3, n);
    PowMul(2, 10, n);
    PowBaseMonotone(1000, 1024, n);
    TwoMonotone(10 * n, 2900);
  }

  method TimesPowerOfTen(x: Bignum, exponent: nat, ghost digits: nat)
    requires x.Ok() && x.exponent == 0 && x.Value() < Pow10(digits) && digits + exponent <= 310
    modifies x, x.bigits
    ensures x.Ok() && x.Value() == old(x.Value()) * Pow10(exponent)
    ensures x.used < CAPACITY
  {
    hide P, Eval, Pow, Bignum.Value, Bignum.Valid, Bignum.Clamped;
    ghost var v := x.Value();
    DigitsRoom(v, digits, exponent);
    x.MantissaAtMostValue();
    MulMonotone(x.Mantissa(), Pow(5, exponent), v, Pow(5, exponent));
    x.MultiplyByPowerOfTen(exponent);
    x.LengthBelow(CAPACITY - 1);
  }

  lemma DigitsRoom(v: nat, digits: nat, exponent: nat)
    requires v < Pow10(digits) && digits + exponent <= 310
    ensures 0 <= v * Pow(5, exponent) <= v * Pow10(exponent) < P(CAPACITY - 1)
  {
    hide P, Two, Pow;
    PowBaseMonotone(5, 10, exponent);
    MulMonotone(v, Pow(5, exponent), v, Pow10(exponent));
    MulPositive(v, Pow(5, exponent));
    MulMonotone(v, Pow10(exponent), Pow10(digits), Pow10(exponent));
    TenAdd(digits, exponent);
    TenMonotone(digits + exponent, 3 * 104);
    ThousandTen(104);
    Room(Pow10(digits + exponent));
  }

  method WordTimesPowerOfTen(x: Bignum, exponent: nat)
    requires x.Ok() && x.exponent == 0 && 0 < x.Value() < TWO64 && exponent <= 1103
    modifies x, x.bigits
    ensures x.Ok() && x.Value() == old(x.Value()) * Pow10(exponent)
    ensures x.used < CAPACITY
  {
    hide P, Eval, Pow, Bignum.Value, Bignum.Valid, Bignum.Clamped;
    ghost var v := x.Value();
    WordRoom(v, exponent);
    x.MantissaAtMostValue();
    MulMonotone(x.Mantissa(), Pow(5, exponent), v, Pow(5, exponent));
    x.MultiplyByPowerOfTen(exponent);
    x.LengthBelow(126 + exponent / BIGIT_SIZE);
  }

  /** A 64-bit word times 5^1103 still fits; the factors of two go into the exponent. */
  lemma WordRoom(v: nat, exponent: nat)
    requires v < TWO64 && exponent <= 1103
    ensures 0 <= v * Pow(5, exponent) < P(CAPACITY - 1)
    ensures 0 <= v * Pow10(exponent) < P(126 + exponent / BIGIT_SIZE)
  {
    hide P, Pow;
    WordPowers();
    FivesBelowTwos(exponent);
    TwoBound(64, 7 * 368, v, Pow(5, exponent));
    TwoMonotone(64 + 7 * 368, 2900);
    MulPositive(v, Pow(5, exponent));
    Room(v * Pow(5, exponent));
    FivesAndTwos(exponent);
    MulAssociate(v, Pow(5, exponent), Two(exponent));
    TwoBound(64 + 7 * 368, exponent, v * Pow(5, exponent), Two(exponent));
    MulPositive(v, Pow10(exponent));
    PAsPow2(126 + exponent / BIGIT_SIZE);
    TwoStrict(64 + 7 * 368 + exponent, BIGIT_SIZE * (126 + exponent / BIGIT_SIZE));
  }

  lemma FivesBelowTwos(n: nat)
    requires n <= 1103
    ensures Pow(5, n) <= Two(7 * 368)
  {
    hide Pow;
    PowMonotone(5, n, 3 * 368);
    PowOne(5);
    PowAdd(5, 1, 1);
    PowAdd(5, 2, 1);
    PowMul(5, 3, 368);
    PowMul(2, 7, 368);
    SevenTwos();
    PowBaseMonotone(125, 128, 368);
  }

  lemma SevenTwos()
    ensures Pow(2, 7) == 128
  {
    assert Pow(2, 3) == 8;
    PowAdd(2, 3, 4);
  }

  // ----- the guess and the final choice -----

  /** What the approximation promises of its guess: certain, or possibly one double too low. */
  ghost predicate GuessOk(guess: (nat, bool), s: nat, x: int) {
    && guess.0 <= INFINITY
    && if guess.1 then DecimalRoundsTo(guess.0, s, x)
       else DecimalRoundsTo(guess.0, s, x) || DecimalRoundsTo(NextDouble(guess.0), s, x)
  }

  /** The inputs ComputeGuess hands to the approximation. */
  ghost predicate Admissible(trimmed: seq<char>, exponent: int) {
    && Trimmed(trimmed) && 0 < |trimmed| <= MAX_SIGNIFICANT_DIGITS
    && MIN_DECIMAL_POWER < exponent + |trimmed| <= MAX_DECIMAL_POWER
  }

  lemma ZeroRounds(exponent: int)
    ensures Dec([]) == 0 && DecimalRoundsTo(0, 0, exponent)
  {
    MulZero(TenUp(exponent) * Two(UNIT));
    MulPositive(Upper(0), TenDown(exponent));
  }

  lemma TooLarge(s: seq<char>, x: int)
    requires AllDigits(s) && |s| > 0 && s[0] != '0' && x + |s| - 1 >= MAX_DECIMAL_POWER && Dec(s) >= 0
    ensures DecimalRoundsTo(INFINITY, Dec(s), x)
  {
    hide Pow10, Two, TenUp, TenDown, Dec, Pow;
    DecLeading(s);
    LargePowers();
    TwoConstants();
    var top := Upper(INFINITY - 1);
    assert top == (4 * HIDDEN_BIT - 1) * Two(971 + 1074);
    TwoAdd(54, 2045);
    TwoAdd(1024, UNIT);
    MulLess(4 * HIDDEN_BIT - 1, 4 * HIDDEN_BIT, Two(2045));
    // top <= 2^1024 * 2^1075 <= 10^309 * 2^1075
    MulMonotone(Two(1024), Two(UNIT), Pow10(309), Two(UNIT));
    LargeDecimal(Dec(s), x, |s| - 1);
    MulMonotone(top, TenDown(x), Pow10(309) * Two(UNIT), TenDown(x));
    MulAssociate(Pow10(309), Two(UNIT), TenDown(x));
    MulAssociate(Pow10(309), TenDown(x), Two(UNIT));
    MulMonotone(Pow10(309) * TenDown(x), Two(UNIT), Dec(s) * TenUp(x), Two(UNIT));
    MulAssociate(Dec(s), TenUp(x), Two(UNIT));
  }

  lemma LargeDecimal(s: nat, x: int, n: nat)
    requires Pow10(n) <= s && x + n >= 309
    ensures 0 <= Pow10(309) * TenDown(x) <= s * TenUp(x)
  {
    hide Pow;
    MulPositive(Pow10(309), TenDown(x));
    PowNone(10);
    MulMonotone(Pow10(n), TenUp(x), s, TenUp(x));
    if x >= 0 {
      TenAdd(n, x);
      TenMonotone(309, n + x);
    } else {
      TenAdd(309, -x);
      TenMonotone(309 - x, n);
    }
  }

  lemma TooSmall(s: seq<char>, x: int)
    requires AllDigits(s) && x + |s| <= MIN_DECIMAL_POWER && Dec(s) >= 0
    ensures DecimalRoundsTo(0, Dec(s), x)
  {
    hide Pow, Dec;
    DecBounds(s);
    LargePowers();
    PowNone(10);
    PowNone(2);
    assert Upper(0) == 1;
    MulMonotone(Dec(s), Two(UNIT), Pow10(|s|), Pow10(324));
    TenAdd(|s|, 324);
    TenMonotone(|s| + 324, -x);
  }

  /** The comparison with the upper boundary tells which of the two candidates is right. */
  lemma BoundaryDecides(guess: nat, s: nat, x: int, comparison: int)
    requires guess < INFINITY && GuessOk((guess, false), s, x)
    requires var f, e := 2 * Significand(guess) + 1, Exponent(guess) - 1;
             comparison == Sign((s * TenUp(x)) * TwoDown(e) - (f * TenDown(x)) * TwoUp(e))
    ensures comparison < 0 || (comparison == 0 && guess % 2 == 0) ==> DecimalRoundsTo(guess, s, x)
    ensures comparison > 0 || (comparison == 0 && guess % 2 == 1) ==> DecimalRoundsTo(guess + 1, s, x)
  {
    hide TenUp, TenDown, Two, TwoUp, TwoDown, Upper, Lower, Significand, Exponent, RoundsTo;
    UnitComparison(s, x, 2 * Significand(guess) + 1, Exponent(guess) - 1);
    UpperIs(guess);
    MulPositive(TenUp(x), Two(UNIT));
    Candidates(guess, s * (TenUp(x) * Two(UNIT)), TenDown(x));
  }

  /** Of two neighbouring doubles of which one is nearest, the shared boundary tells which. */
  lemma Candidates(g: nat, u: nat, y: nat)
    requires g < INFINITY && y > 0 && (RoundsTo(g, u, y) || RoundsTo(g + 1, u, y))
    ensures u < Upper(g) * y || (u == Upper(g) * y && g % 2 == 0) ==> RoundsTo(g, u, y)
    ensures u > Upper(g) * y || (u == Upper(g) * y && g % 2 == 1) ==> RoundsTo(g + 1, u, y)
  {
    hide Upper, Lower;
    if g + 1 < INFINITY {
      Adjacent(g);
      Ordered(g + 1);
      MulLess(Upper(g), Upper(g + 1), y);
    }
    if g > 0 {
      Ordered(g);
      MulLess(Lower(g), Upper(g), y);
    }
  }

  lemma UpperIs(d64: nat)
    requires d64 < INFINITY
    ensures Upper(d64) == (2 * Significand(d64) + 1) * Two(Exponent(d64) - 1 + UNIT)
  {}

  /** Comparing over powers of two is comparing in units. */
  lemma UnitComparison(s: nat, x: int, f: nat, e: int)
    requires e >= -1075
    ensures Sign((s * TenUp(x)) * TwoDown(e) - (f * TenDown(x)) * TwoUp(e))
         == Sign(s * (TenUp(x) * Two(UNIT)) - (f * Two(e + UNIT)) * TenDown(x))
  {
    hide TenUp, TenDown, Two;
    PowNone(2);
    var a, b, m := (s * TenUp(x)) * TwoDown(e), (f * TenDown(x)) * TwoUp(e), Two(if e >= 0 then UNIT else UNIT + e);
    TwoNone();
    if e >= 0 { TwoAdd(e, UNIT); } else { TwoAdd(-e, UNIT + e); }
    MulAssociate(s, TenUp(x), Two(UNIT));
    MulAssociate(s * TenUp(x), TwoDown(e), m);
    MulAssociate(f * TenDown(x), TwoUp(e), m);
    Regroup(f, TenDown(x), Two(e + UNIT), 1);
    MulLess(a, b, m);
  }
}
