/** Printing a double in shortest mode (DoubleToAscii of double-conversion.cc) and reading the digits
    back (Strtod). */
module DoubleConversion {
  import opened Words
  import opened Decimal
  import opened Ieee
  import opened Powers
  import opened ScaledStart
  import opened DoubleDtoa
  import opened Strtod
  import opened Grisu
  import opened DiyFpStrtods

  const SIGN_MASK: int := 0x8000_0000_0000_0000

  /** The magnitude of a word is its value without the sign bit. */
  predicate IsFinite(d64: uint64) {
    d64 % SIGN_MASK < INFINITY
  }

  /** What the digits of a magnitude are: those of zero, or the shortest ones. */
  ghost predicate Printed(v: nat, s: seq<char>, point: int)
    requires v < INFINITY
  {
    && 0 < |s| <= 17 && AllDigits(s) && Dec(s) >= 0
    && if v == 0 then s == "0" && point == 1
       else s[0] != '0' && ShortestFor(v, Dec(s), point - |s|)
  }

  /** The two digit generators are interchangeable: there is only one right answer. */
  lemma PrintedUnique(v: nat, s1: seq<char>, p1: int, s2: seq<char>, p2: int)
    requires v < INFINITY && Printed(v, s1, p1) && Printed(v, s2, p2)
    ensures s1 == s2 && p1 == p2
  {
    hide ShortestFor, Dec;
    if v > 0 {
      ShortestForUnique(v, Dec(s1), p1 - |s1|, Dec(s2), p2 - |s2|);
      SameLength(s1, s2);
      DecInjective(s1, s2);
    }
  }

  /** FastDtoa: the exponent becomes a decimal point. */
  method FastDtoa(d64: uint64, cached: (int, int) -> (uint64, int, int), buffer: array<char>)
      returns (ok: bool, length: nat, decimal_point: int)
    requires 0 < d64 < INFINITY && CacheOk(cached) && buffer.Length >= 17
    modifies buffer
    ensures length <= 17 && (ok ==> Printed(d64, buffer[..length], decimal_point))
  {
    hide Dec, ShortestFor;
    var decimal_exponent;
    ok, length, decimal_exponent := Grisu3(d64, cached, buffer);
    decimal_point := length + decimal_exponent;
  }

  /** The digits of any finite double: the fast way when it succeeds, otherwise the exact one. */
  method DoubleToAscii(d64: uint64, estimated_power: int, cached: (int, int) -> (uint64, int, int), buffer: array<char>)
      returns (sign: bool, length: nat, point: int)
    requires IsFinite(d64) && CacheOk(cached) && buffer.Length >= 17
    requires d64 % SIGN_MASK > 0 ==> EstimateOk(d64 % SIGN_MASK, estimated_power)
    modifies buffer
    ensures sign <==> d64 >= SIGN_MASK
    ensures length <= 17 && Printed(d64 % SIGN_MASK, buffer[..length], point)
  {
    hide Dec, ShortestFor, EstimateOk, CacheOk;
    sign := d64 >= SIGN_MASK;
    var v: uint64 := d64 % SIGN_MASK;
    if v == 0 {
      buffer[0] := '0';
      length, point := 1, 1;
      DecAppend([], '0');
      assert Dec([]) == 0 by { DecZeros([]); }
      assert buffer[..1] == [] + ['0'] == "0";
      return;
    }
    var fast_worked;
    fast_worked, length, point := FastDtoa(v, cached, buffer);
    if fast_worked { return; }
    length, point := BignumDtoaShortest(v, estimated_power, buffer);
  }

  /** Reading is inverse to printing, for every finite double: the sign and the digits determine the
      word, boundary ties and the closer lower boundaries of powers of two included. */
  method PrintAndRead(d64: uint64, estimated_power: int, cached: (int, int) -> (uint64, int, int),
      double_strtod: (seq<char>, int) -> (bool, uint64), powers: nat -> (uint64, int), buffer: array<char>)
      returns (result: nat)
    requires IsFinite(d64) && CacheOk(cached) && buffer.Length >= 17
    requires d64 % SIGN_MASK > 0 ==> EstimateOk(d64 % SIGN_MASK, estimated_power)
    requires DoubleStrtodOk(double_strtod) && PowersOk(powers)
    modifies buffer
    ensures result == d64
  {
    hide Dec, DecimalRoundsTo, EstimateOk, CacheOk, DoubleStrtodOk, PowersOk, ShortestFor;
    var sign, length, point := DoubleToAscii(d64, estimated_power, cached, buffer);
    var magnitude := ReadDouble(buffer[..length], point - length, double_strtod, powers);
    ghost var s := buffer[..length];
    ghost var v: nat := d64 % SIGN_MASK;
    PrintedRounds(v, s, point);
    ReadsBack(v, magnitude, Dec(s), point - length);
    result := if sign then SIGN_MASK + magnitude else magnitude;
  }

  lemma PrintedRounds(v: nat, s: seq<char>, point: int)
    requires v < INFINITY && Printed(v, s, point)
    ensures DecimalRoundsTo(v, Dec(s), point - |s|)
  {
    hide Dec, DecimalRoundsTo;
    if v == 0 { PrintedZero(s); }
  }

  lemma PrintedZero(s: seq<char>)
    requires s == "0"
    ensures Dec(s) == 0 && DecimalRoundsTo(0, 0, 0)
  {
    ZeroRounds(0);
    DecZeros(s);
  }

  /** Digits that round to a double read back as that double. */
  lemma ReadsBack(v: nat, r: nat, s: nat, k: int)
    requires DecimalRoundsTo(v, s, k) && DecimalRoundsTo(r, s, k)
    ensures v == r
  {
    hide Two, RoundsTo, TenUp, TenDown;
    MulPositive(TenUp(k), Two(UNIT));
    MulPositive(s, TenUp(k) * Two(UNIT));
    RoundsToUnique(v, r, s * (TenUp(k) * Two(UNIT)), TenDown(k));
  }
}
