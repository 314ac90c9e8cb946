/** Printing in fixed and in precision mode (DoubleToAscii of double-conversion.cc): the fast
    conversion when it succeeds, otherwise the exact one, and why it does not matter which. */
module DtoaModes {
  import opened Words
  import opened Decimal
  import opened Ieee
  import opened Powers
  import opened BignumDtoa
  import opened ScaledStart
  import opened DoubleDtoa
  import opened FixedDtoa
  import opened FixedExact
  import opened Grisu
  import opened CountedGrisu
  import opened DoubleConversion

  /** requested_digits places after the point, correctly rounded. */
  method DoubleToAsciiFixed(d64: uint64, requested_digits: nat, estimated_power: int, buffer: array<char>)
      returns (sign: bool, length: nat, point: int)
    requires IsFinite(d64) && buffer.Length >= 36 && estimated_power + 1 + requested_digits <= buffer.Length
    requires d64 % SIGN_MASK > 0 ==> EstimateOk(d64 % SIGN_MASK, estimated_power)
    modifies buffer
    ensures sign <==> d64 >= SIGN_MASK
    ensures length <= buffer.Length && FixedFor(d64 % SIGN_MASK, buffer[..length], point, requested_digits)
    ensures d64 % SIGN_MASK == 0 ==> buffer[..length] == "0" && point == 1
    ensures d64 % SIGN_MASK > 0 ==> StartsRight(buffer[..length], point, requested_digits)
  {
    hide EstimateOk, FixedFor;
    sign := d64 >= SIGN_MASK;
    var v: uint64 := d64 % SIGN_MASK;
    if v == 0 {
      buffer[0] := '0';
      length, point := 1, 1;
      ZeroFixed(buffer[..1], requested_digits);
      return;
    }
    var fast_worked;
    fast_worked, length, point := FastFixedDtoa(v, requested_digits, buffer);
    if fast_worked { return; }
    length, point := BignumDtoaFixed(v, estimated_power, requested_digits, buffer);
  }

  lemma ZeroFixed(s: seq<char>, places: nat)
    requires s == ['0']
    ensures FixedFor(0, s, 1, places)
  {
    hide Pow10, Two;
    DecSingle(s);
    MulZero(Two(1075));
    MulZero(Pow10(places));
  }

  /** requested_digits significant digits, correctly rounded. */
  method DoubleToAsciiPrecision(d64: uint64, requested_digits: nat, estimated_power: int,
      cached: (int, int) -> (uint64, int, int), buffer: array<char>)
      returns (sign: bool, length: nat, point: int, ghost p: int)
    requires IsFinite(d64) && CacheOk(cached) && 0 < buffer.Length && requested_digits <= buffer.Length
    requires d64 % SIGN_MASK > 0 ==> EstimateOk(d64 % SIGN_MASK, estimated_power)
    modifies buffer
    ensures sign <==> d64 >= SIGN_MASK
    ensures requested_digits == 0 ==> length == 0
    ensures requested_digits > 0 && d64 % SIGN_MASK == 0 ==> length == 1 && buffer[..length] == "0" && point == 1
    ensures requested_digits > 0 && d64 % SIGN_MASK > 0 ==>
      length == requested_digits && PrecisionFor(d64 % SIGN_MASK, buffer[..length], point, p)
  {
    hide EstimateOk, CacheOk, PrecisionFor, NearestAt, Units, TenUp, TenDown, Two;
    sign, p := d64 >= SIGN_MASK, 0;
    if requested_digits == 0 { return sign, 0, 0, 0; }
    var v: uint64 := d64 % SIGN_MASK;
    if v == 0 {
      buffer[0] := '0';
      length, point := 1, 1;
      return;
    }
    var fast_worked, decimal_exponent;
    fast_worked, length, decimal_exponent, p := Grisu3Counted(v, requested_digits, cached, buffer);
    if fast_worked {
      point := length + decimal_exponent;
      return;
    }
    length, point, p := BignumDtoaPrecision(v, estimated_power, requested_digits, buffer);
  }

  // ----- only one right answer -----

  /** Correctly rounded digits of a given number are unique. */
  lemma PrecisionAgree(d64: nat, s: seq<char>, point: int, p: int, t: seq<char>, point2: int, p2: int)
    requires d64 < INFINITY && |s| == |t| && PrecisionFor(d64, s, point, p) && PrecisionFor(d64, t, point2, p2)
    ensures s == t && point == point2
  {
    hide Dec, Pow10, TenUp, TenDown, Units, Two, RoundedHalfUp;
    if p < p2 { DecadesApart(Units(d64), Two(UNIT), p, p2 - 1); }
    if p2 < p { DecadesApart(Units(d64), Two(UNIT), p2, p - 1); }
    var f, g := if point == p then 1 else 10, if point2 == p2 then 1 else 10;
    MulPositive(Two(UNIT), TenDown(|s| - p));
    RoundedOnce(Dec(s) * f, Dec(t) * g, Units(d64) * TenUp(|s| - p), Two(UNIT) * TenDown(|s| - p));
    DecBounds(s);
    DecBounds(t);
    DecLeading(s);
    DecLeading(t);
    TenSucc(|s| - 1);
    DecInjective(s, t);
  }

  /** A value has only one leading place. */
  lemma DecadesApart(v: nat, unit: nat, k: int, e: int)
    requires k <= e && unit > 0 && v * TenDown(k) < TenUp(k) * unit
    ensures v * TenDown(e) < TenUp(e) * unit
  {
    hide Pow10, TenUp, TenDown;
    var L := Pow10(e - k);
    TenShift(e, k, L);
    var uk, dk, ue, de := TenUp(k), TenDown(k), TenUp(e), TenDown(e);
    MulLess(v * dk, uk * unit, de);
    MulAssociate(v, dk, de);
    MulAssociate(v, de, dk);
    MulAssociate(uk, unit, de);
    MulAssociate(uk, de, unit);
    // ue * dk == de * L * uk >= de * uk
    MulAssociate(de, L, uk);
    MulLess(1, L, de * uk);
    MulAssociate(L, de, uk);
    MulLess(uk * de, ue * dk, unit);
    MulAssociate(ue, dk, unit);
    MulAssociate(ue, unit, dk);
    MulLess(v * de, ue * unit, dk);
  }
}
