/** The decimal scanner (StringToIeee of double-conversion.cc, without flags and without infinity and
    NaN symbols) in front of Strtod. */
module StringToDoubles {
  import opened Words
  import opened Decimal
  import opened Ieee
  import opened DoubleDtoa
  import opened Strtod
  import opened DiyFpStrtods
  import opened DoubleConversion
  import opened NumberTexts

  /** Digits kept by the scanner. */
  const KEPT_DIGITS: nat := 772
  const MAX_EXPONENT: int := 0x3FFF_FFFF

  datatype Outcome = Empty | Junk | Value(d64: uint64)

  // ----- digits -----

  /** The buffer holds the leading digits; `nonzero` tells whether a nonzero digit was left out. */
  ghost predicate Kept(digits: string, buffer: string, nonzero: bool) {
    && AllDigits(digits) && (digits != "" ==> digits[0] != '0')
    && |buffer| == (if |digits| < KEPT_DIGITS then |digits| else KEPT_DIGITS) && buffer == digits[..|buffer|]
    && (nonzero <==> Dec(digits[|buffer|..]) > 0)
  }

  lemma KeptAppend(digits: string, buffer: string, nonzero: bool, c: char)
    requires Kept(digits, buffer, nonzero) && IsDigit(c) && (digits == "" ==> c != '0')
    ensures if |buffer| < KEPT_DIGITS then Kept(digits + [c], buffer + [c], nonzero)
            else Kept(digits + [c], buffer, nonzero || c != '0')
  {
    hide Dec;
    assert Dec([]) == 0 by { DecZeros([]); }
    var b := |buffer|;
    if b < KEPT_DIGITS {
      assert digits[b..] == [] && (digits + [c])[b + 1..] == [];
    } else {
      assert (digits + [c])[b..] == digits[b..] + [c];
      DecAppend(digits[b..], c);
      DecBounds(digits[b..]);
    }
  }

  method SkipZeros(input: string, start: nat) returns (current: nat)
    requires start <= |input|
    ensures start <= current <= |input| && (forall k :: start <= k < current ==> input[k] == '0')
    ensures current < |input| ==> input[current] != '0'
  {
    current := start;
    while current < |input| && input[current] == '0'
      invariant start <= current <= |input| && (forall k :: start <= k < current ==> input[k] == '0')
    {
      current := current + 1;
    }
  }

  method IntegerDigits(input: string, start: nat)
      returns (current: nat, buffer: string, insignificant_digits: nat, nonzero_digit_dropped: bool)
    requires start <= |input| && (start < |input| ==> input[start] != '0')
    ensures current == DigitRun(input, start) && Kept(input[start..current], buffer, nonzero_digit_dropped)
    ensures insignificant_digits == current - start - |buffer|
  {
    hide Kept, DigitRun;
    current, buffer, insignificant_digits, nonzero_digit_dropped := start, "", 0, false;
    KeptNone();
    assert input[start..start] == "";
    while current < |input| && IsDigit(input[current])
      invariant start <= current <= |input| && DigitRun(input, start) == DigitRun(input, current)
      invariant Kept(input[start..current], buffer, nonzero_digit_dropped)
      invariant insignificant_digits == current - start - |buffer|
    {
      KeptAppend(input[start..current], buffer, nonzero_digit_dropped, input[current]);
      assert input[start..current + 1] == input[start..current] + [input[current]];
      if |buffer| < KEPT_DIGITS {
        buffer := buffer + [input[current]];
      } else {
        insignificant_digits := insignificant_digits + 1;
        nonzero_digit_dropped := nonzero_digit_dropped || input[current] != '0';
      }
      RunStep(input, current);
      current := current + 1;
    }
    RunStops(input, current);
  }

  lemma KeptNone()
    ensures Kept("", "", false)
  {}

  lemma RunStep(s: string, i: nat)
    requires i < |s| && IsDigit(s[i])
    ensures DigitRun(s, i) == DigitRun(s, i + 1)
  {}

  lemma RunStops(s: string, i: nat)
    requires i <= |s| && (i < |s| ==> !IsDigit(s[i]))
    ensures DigitRun(s, i) == i
  {}

  method FractionDigits(input: string, start: nat, buffer0: string, exponent0: int, dropped0: bool, ghost digits0: string)
      returns (current: nat, buffer: string, exponent: int, nonzero_digit_dropped: bool)
    requires start <= |input| && Kept(digits0, buffer0, dropped0) && (digits0 == "" && start < |input| ==> input[start] != '0')
    ensures current == DigitRun(input, start)
    ensures Kept(digits0 + input[start..current], buffer, nonzero_digit_dropped)
    ensures exponent == exponent0 - (|buffer| - |buffer0|)
  {
    hide Kept, DigitRun;
    current, buffer, exponent, nonzero_digit_dropped := start, buffer0, exponent0, dropped0;
    assert digits0 + input[start..start] == digits0;
    while current < |input| && IsDigit(input[current])
      invariant start <= current <= |input| && DigitRun(input, start) == DigitRun(input, current)
      invariant Kept(digits0 + input[start..current], buffer, nonzero_digit_dropped)
      invariant exponent == exponent0 - (|buffer| - |buffer0|)
    {
      KeptAppend(digits0 + input[start..current], buffer, nonzero_digit_dropped, input[current]);
      assert digits0 + input[start..current + 1] == (digits0 + input[start..current]) + [input[current]];
      if |buffer| < KEPT_DIGITS {
        buffer := buffer + [input[current]];
        exponent := exponent - 1;
      } else {
        nonzero_digit_dropped := nonzero_digit_dropped || input[current] != '0';
      }
      RunStep(input, current);
      current := current + 1;
    }
    RunStops(input, current);
  }

  // ----- the exponent -----

  function Clamp(x: int): int {
    if x > MAX_EXPONENT then MAX_EXPONENT else if x < -MAX_EXPONENT then -MAX_EXPONENT else x
  }

  /** The digits of an exponent; far out of range it saturates. */
  method ScanNumber(input: string, start: nat) returns (current: nat, num: nat)
    requires start <= |input|
    ensures current == DigitRun(input, start) && num == Saturated(Dec(input[start..current]))
  {
    hide Dec, DigitRun;
    current, num := start, 0;
    assert input[start..start] == [];
    assert Dec([]) == 0 by { DecZeros([]); }
    while current < |input| && IsDigit(input[current])
      invariant start <= current <= |input| && DigitRun(input, start) == DigitRun(input, current)
      invariant AllDigits(input[start..current]) && num == Saturated(Dec(input[start..current]))
    {
      var digit := DigitOf(input[current]);
      DecBounds(input[start..current]);
      DecAppend(input[start..current], input[current]);
      assert input[start..current + 1] == input[start..current] + [input[current]];
      if num >= MAX_EXPONENT / 10 && !(num == MAX_EXPONENT / 10 && digit <= MAX_EXPONENT % 10) {
        num := MAX_EXPONENT;
      } else {
        num := num * 10 + digit;
      }
      RunStep(input, current);
      current := current + 1;
    }
    RunStops(input, current);
  }

  /** The exponent part, which has to reach to the end. */
  method ScanExponent(input: string, start: nat) returns (ok: bool, exponent: int)
    requires start < |input| && (input[start] == 'e' || input[start] == 'E')
    ensures ok <==> ParseExponent(input, start).Some?
    ensures ok ==> exponent == Clamp(ExponentOf(ParseExponent(input, start).value))
  {
    hide Dec, DigitRun, ParseExponent, ExponentOf;
    ghost var j := if SignAt(input, start + 1) then start + 2 else start + 1;
    ExponentIs(input, start, j);
    var current := start + 1;
    exponent := 0;
    if current == |input| {
      RunStops(input, current);
      return false, 0;
    }
    var sign := '+';
    if input[current] == '+' || input[current] == '-' {
      sign := input[current];
      current := current + 1;
      if current == |input| {
        RunStops(input, current);
        return false, 0;
      }
    }
    if !IsDigit(input[current]) {
      RunStops(input, current);
      return false, 0;
    }
    var num: int;
    current, num := ScanNumber(input, current);
    exponent := if sign == '-' then 0 - num else num;
    ok := current == |input|;
    if ok {
      assert input[j..current] == input[j..];
      ExponentValue(input, start, j);
    }
  }

  lemma ExponentIs(input: string, start: nat, j: nat)
    requires start < |input| && (input[start] == 'e' || input[start] == 'E')
    requires j == if SignAt(input, start + 1) then start + 2 else start + 1
    ensures j <= |input|
    ensures ParseExponent(input, start) == if DigitRun(input, j) == |input| && j < |input|
              then Some(Exponent(input[start], input[start + 1..j], input[j..])) else None
  {
    hide DigitRun;
  }

  lemma ExponentValue(input: string, start: nat, j: nat)
    requires start + 1 <= j <= |input| && j == if SignAt(input, start + 1) then start + 2 else start + 1
    ensures
      var x := Exponent(input[start], input[start + 1..j], input[j..]);
      ExponentOf(x) == if start + 1 < |input| && input[start + 1] == '-' then 0 - Dec(input[j..]) else Dec(input[j..])
  {
    hide Dec;
    if j == start + 2 { assert input[start + 1..j] == [input[start + 1]]; }
  }

  function Saturated(x: int): int {
    if x > MAX_EXPONENT then MAX_EXPONENT else x
  }

  // ----- the mantissa -----

  /** What has been read of the digits: `digits` without leading zeros, the text's coefficient, and
      the exponent that goes with the buffer. */
  ghost predicate Scanned(input: string, digits: string, buffer: string, exponent: int, insignificant: nat, nonzero: bool) {
    && Kept(digits, buffer, nonzero)
    && |digits| <= |IntegerPart(input) + Fraction(input)|
    && Dec(IntegerPart(input) + Fraction(input)) == Dec(digits)
    && exponent + insignificant == |digits| - |buffer| - |Fraction(input)|
  }

  ghost function IntegerPart(input: string): string {
    input[SignEnd(input)..IntegerEnd(input)]
  }

  ghost predicate HasDigits(input: string) {
    SignEnd(input) < IntegerEnd(input) || IntegerEnd(input) + 1 < FractionEnd(input)
  }

  lemma DigitsThere(input: string)
    ensures HasDigits(input) <==> IntegerPart(input) + Fraction(input) != ""
  {
    hide DigitRun;
    assert |IntegerPart(input) + Fraction(input)| == |IntegerPart(input)| + |Fraction(input)|;
  }

  /** The part from the point on. */
  method ScanFraction(input: string, point: nat, buffer0: string, dropped0: bool, leading_zero: bool, ghost digits0: string)
      returns (has_digits: bool, is_zero: bool, current: nat, buffer: string, exponent: int,
               nonzero_digit_dropped: bool, ghost digits: string, ghost z: nat)
    requires HasPoint(input) && point == IntegerEnd(input) && Kept(digits0, buffer0, dropped0)
    ensures point < current == FractionEnd(input)
    ensures is_zero ==> has_digits && buffer0 == "" && current == |input| && (forall k :: point < k < current ==> input[k] == '0')
                        && point + 1 < current
    ensures !is_zero ==>
      && (has_digits <==> current < |input| || leading_zero || buffer0 != "" || current > point + 1)
      && point + 1 + z <= current && (forall k :: point < k <= point + z ==> input[k] == '0')
      && (z > 0 ==> buffer0 == "") && digits == digits0 + input[point + 1 + z..current]
      && Kept(digits, buffer, nonzero_digit_dropped) && exponent == |buffer0| - |buffer| - z
  {
    hide Kept, DigitRun, Dec;
    KeptShape(digits0, buffer0, dropped0);
    has_digits, is_zero, exponent := true, false, 0;
    buffer, nonzero_digit_dropped, digits, z := buffer0, dropped0, digits0, 0;
    current := point + 1;
    if current == |input| {
      RunStops(input, current);
      assert digits0 + input[current..current] == digits0;
      if |buffer| == 0 && !leading_zero { has_digits := false; }
      return;
    }
    if |buffer| == 0 {
      current := SkipZeros(input, current);
      z := current - point - 1;
      RunSkips(input, point + 1, current);
      if current == |input| {
        RunStops(input, current);
        is_zero := true;
        return;
      }
      exponent := exponent - (current - (point + 1));
    }
    ghost var rest := current;
    current, buffer, exponent, nonzero_digit_dropped :=
      FractionDigits(input, current, buffer, exponent, nonzero_digit_dropped, digits0);
    digits := digits0 + input[rest..current];
  }

  method ScanMantissa(input: string, start: nat)
      returns (has_digits: bool, is_zero: bool, current: nat, buffer: string, exponent: int,
               insignificant_digits: nat, nonzero_digit_dropped: bool, ghost digits: string)
    requires start == SignEnd(input) < |input|
    ensures has_digits <==> HasDigits(input)
    ensures has_digits && is_zero ==> FractionEnd(input) == |input| && Dec(IntegerPart(input) + Fraction(input)) == 0
    ensures has_digits && !is_zero ==>
      && current == FractionEnd(input)
      && Scanned(input, digits, buffer, exponent, insignificant_digits, nonzero_digit_dropped)
  {
    hide Kept, DigitRun, Dec, Fraction, IntegerPart, Scanned;
    exponent, is_zero, has_digits := 0, false, true;
    buffer, insignificant_digits, nonzero_digit_dropped, digits := "", 0, false, "";
    current := start;
    var leading_zero := false;
    if input[current] == '0' {
      current := SkipZeros(input, current);
      RunSkips(input, start, current);
      if current == |input| {
        RunStops(input, current);
        WholeZero(input);
        is_zero := true;
        return;
      }
      leading_zero := true;
    }
    ghost var i1, z := current, 0;
    current, buffer, insignificant_digits, nonzero_digit_dropped := IntegerDigits(input, current);
    digits := input[i1..current];
    KeptShape(digits, buffer, nonzero_digit_dropped);
    if current < |input| && input[current] == '.' {
      has_digits, is_zero, current, buffer, exponent, nonzero_digit_dropped, digits, z :=
        ScanFraction(input, current, buffer, nonzero_digit_dropped, leading_zero, digits);
      if is_zero {
        FractionZero(input);
        return;
      }
      KeptShape(digits, buffer, nonzero_digit_dropped);
    }
    if current < |input| && !leading_zero && exponent == 0 && |buffer| == 0 { has_digits := false; }
    if has_digits { MantissaScanned(input, i1, z, digits, buffer, exponent, insignificant_digits, nonzero_digit_dropped); }
  }

  lemma KeptShape(digits: string, buffer: string, nonzero: bool)
    requires Kept(digits, buffer, nonzero)
    ensures |buffer| == 0 <==> digits == ""
    ensures |buffer| <= |digits| && |buffer| <= KEPT_DIGITS
  {}

  lemma FractionZero(input: string)
    requires HasPoint(input) && FractionEnd(input) == |input| && IntegerEnd(input) + 1 < |input|
    requires forall k :: SignEnd(input) <= k < IntegerEnd(input) ==> input[k] == '0'
    requires forall k :: IntegerEnd(input) < k < |input| ==> input[k] == '0'
    ensures Dec(IntegerPart(input) + Fraction(input)) == 0
  {
    hide DigitRun, Dec;
    DecZeros(IntegerPart(input) + Fraction(input));
  }

  /** The digits are those of the text without the leading zeros. */
  lemma MantissaScanned(input: string, i1: nat, z: nat, digits: string, buffer: string, exponent: int, insignificant: nat, nonzero: bool)
    requires SignEnd(input) <= i1 <= IntegerEnd(input) && (z > 0 ==> HasPoint(input) && i1 == IntegerEnd(input))
    requires HasPoint(input) ==> IntegerEnd(input) + 1 + z <= FractionEnd(input)
    requires forall k :: SignEnd(input) <= k < i1 ==> input[k] == '0'
    requires forall k :: IntegerEnd(input) < k <= IntegerEnd(input) + z ==> k < |input| && input[k] == '0'
    requires digits == input[i1..IntegerEnd(input)]
                       + (if HasPoint(input) then input[IntegerEnd(input) + 1 + z..FractionEnd(input)] else "")
    requires Kept(digits, buffer, nonzero) && exponent + insignificant == IntegerEnd(input) - i1 - |buffer| - z
    ensures Scanned(input, digits, buffer, exponent, insignificant, nonzero)
  {
    hide DigitRun, Dec, Kept;
    ParsedTail(input, i1, z, digits);
    forall j | 0 <= j < i1 - SignEnd(input) + z ensures (IntegerPart(input) + Fraction(input))[j] == '0' {
      LeadingChar(input, i1, z, j);
    }
    DropLeading(IntegerPart(input) + Fraction(input), i1 - SignEnd(input) + z);
  }

  lemma ParsedTail(input: string, i1: nat, z: nat, digits: string)
    requires SignEnd(input) <= i1 <= IntegerEnd(input) && (z > 0 ==> HasPoint(input) && i1 == IntegerEnd(input))
    requires HasPoint(input) ==> IntegerEnd(input) + 1 + z <= FractionEnd(input)
    requires digits == input[i1..IntegerEnd(input)]
                       + (if HasPoint(input) then input[IntegerEnd(input) + 1 + z..FractionEnd(input)] else "")
    ensures i1 - SignEnd(input) + z <= |IntegerPart(input) + Fraction(input)|
    ensures (IntegerPart(input) + Fraction(input))[i1 - SignEnd(input) + z..] == digits
    ensures |digits| == IntegerEnd(input) - i1 + |Fraction(input)| - z
  {
    hide DigitRun, SignEnd, IntegerEnd, FractionEnd, HasPoint;
    var ip, fp := IntegerPart(input), Fraction(input);
    if z > 0 {
      TailOf(ip, fp, |ip| + z);
      FractionTail(input, z);
    } else {
      TailOf(ip, fp, i1 - SignEnd(input));
      IntegerTail(input, i1);
    }
  }

  lemma IntegerTail(input: string, i1: nat)
    requires SignEnd(input) <= i1 <= IntegerEnd(input)
    ensures |IntegerPart(input)| == IntegerEnd(input) - SignEnd(input)
    ensures IntegerPart(input)[i1 - SignEnd(input)..] == input[i1..IntegerEnd(input)]
  {
    hide DigitRun, SignEnd, IntegerEnd;
  }

  lemma FractionTail(input: string, z: nat)
    requires HasPoint(input) && IntegerEnd(input) + 1 + z <= FractionEnd(input)
    ensures |Fraction(input)| == FractionEnd(input) - IntegerEnd(input) - 1
    ensures Fraction(input)[z..] == input[IntegerEnd(input) + 1 + z..FractionEnd(input)]
  {
    hide DigitRun, IntegerEnd, FractionEnd, HasPoint;
  }

  lemma LeadingChar(input: string, i1: nat, z: nat, j: nat)
    requires SignEnd(input) <= i1 <= IntegerEnd(input) && (z > 0 ==> HasPoint(input) && i1 == IntegerEnd(input))
    requires HasPoint(input) ==> IntegerEnd(input) + 1 + z <= FractionEnd(input)
    requires j < i1 - SignEnd(input) + z
    ensures j < |IntegerPart(input) + Fraction(input)|
    ensures (IntegerPart(input) + Fraction(input))[j]
         == input[if SignEnd(input) + j < i1 then SignEnd(input) + j else SignEnd(input) + j + 1]
  {
    hide DigitRun;
    var ip := IntegerPart(input);
    if j < |ip| {
      assert (ip + Fraction(input))[j] == ip[j];
    } else {
      assert (ip + Fraction(input))[j] == Fraction(input)[j - |ip|];
    }
  }

  lemma TailOf(a: string, b: string, k: nat)
    requires k <= |a| + |b|
    ensures (a + b)[k..] == if k <= |a| then a[k..] + b else b[k - |a|..]
  {}

  /** Digits, such as leading zeros, are part of the run they start. */
  lemma {:induction false} RunSkips(s: string, i: nat, z: nat)
    requires i <= z <= |s| && forall k :: i <= k < z ==> IsDigit(s[k])
    ensures DigitRun(s, i) == DigitRun(s, z)
    decreases z - i
  {
    if i < z { RunSkips(s, i + 1, z); }
  }

  lemma WholeZero(input: string)
    requires IntegerEnd(input) == |input| && forall k :: SignEnd(input) <= k < |input| ==> input[k] == '0'
    ensures FractionEnd(input) == |input| && Fraction(input) == ""
    ensures Dec(IntegerPart(input) + Fraction(input)) == 0
  {
    DecZeros(IntegerPart(input) + Fraction(input));
  }

  // ----- rounding -----

  ghost function Marked(buffer: string, nonzero: bool): string {
    if nonzero then buffer + ['1'] else buffer
  }

  /** Dropping digits beyond the 772nd does not change the rounding: if one of them was not zero, a 1
      in their place is enough. */
  lemma KeptRounds(digits: string, buffer: string, nonzero: bool, x: int)
    requires Kept(digits, buffer, nonzero)
    ensures
      var text, e := Marked(buffer, nonzero), x + |digits| - |buffer| - (if nonzero then 1 else 0);
      && AllDigits(text) && Dec(digits) >= 0 && Dec(text) >= 0 && (digits != "" ==> text != "" && text[0] != '0')
      && |text| <= 773
      && (forall d64 :: DecimalRoundsTo(d64, Dec(digits), x) <==> DecimalRoundsTo(d64, Dec(text), e))
  {
    hide Dec, DecimalRoundsTo, Pow10;
    var text, b := Marked(buffer, nonzero), |buffer|;
    DecBounds(digits);
    DecBounds(text);
    assert Dec([]) == 0 by { DecZeros([]); }
    if nonzero {
      forall d64: nat ensures DecimalRoundsTo(d64, Dec(digits), x) <==> DecimalRoundsTo(d64, Dec(text), x + |digits| - b - 1) {
        CutRoundsAt(d64, digits, b, x);
      }
    } else {
      DecBounds(digits[b..]);
      ZeroTail(digits, b);
      forall d64: nat ensures DecimalRoundsTo(d64, Dec(digits), x) <==> DecimalRoundsTo(d64, Dec(text), x + |digits| - b) {
        RescaleRoundsTo(d64, Dec(text), x + |digits| - b, x);
      }
    }
  }

  lemma ZeroTail(digits: string, b: nat)
    requires AllDigits(digits) && b <= |digits| && Dec(digits[b..]) == 0
    ensures Dec(digits) == Dec(digits[..b]) * Pow10(|digits| - b)
  {
    hide Dec, Pow10;
    assert digits == digits[..b] + digits[b..];
    DecConcat(digits[..b], digits[b..]);
  }

  /** A number whose exponent is far out of range is infinity or zero, whether or not the exponent
      was saturated. */
  lemma ExtremeRounds(digits: string, x: int, text: string, e: int, result: nat)
    requires AllDigits(digits) && AllDigits(text) && Dec(digits) >= 0 && Dec(text) >= 0
    requires if digits == "" then text == "" else digits[0] != '0' && text != "" && text[0] != '0'
    requires (x >= 1000 && e >= 1000) || (x + |digits| <= -1000 && e + |text| <= -1000)
    requires DecimalRoundsTo(result, Dec(text), e)
    ensures DecimalRoundsTo(result, Dec(digits), x)
  {
    hide Dec, DecimalRoundsTo;
    var r: nat;
    if digits == "" {
      r := 0;
      ZeroRounds(x);
      ZeroRounds(e);
    } else if x >= 1000 {
      r := INFINITY;
      TooLarge(digits, x);
      TooLarge(text, e);
    } else {
      r := 0;
      TooSmall(digits, x);
      TooSmall(text, e);
    }
    ReadsBack(r, result, Dec(text), e);
  }

  /** What the text of a number is read as: the nearest double to its magnitude, with its sign. */
  ghost predicate Reads(d64: nat, n: Number) {
    && (d64 >= SIGN_MASK <==> n.sign == "-")
    && Coefficient(n) >= 0
    && DecimalRoundsTo(d64 % SIGN_MASK, Coefficient(n), Scale(n))
  }

  /** What the scanner makes of a text: the digits and the exponent for Strtod, or what it can say
      without. */
  datatype Scan = NoText | NotNumber | AllZero(sign: bool) | Digits(sign: bool, buffer: string, exponent: int)

  /** The buffer and the exponent for the number: its digits without leading zeros, those beyond the
      772nd left out or marked by a 1, and its exponent part saturated. */
  ghost predicate HandedOver(n: Number, buffer: string, exponent: int, digits: string, kept: string, nonzero: bool) {
    && Kept(digits, kept, nonzero) && Dec(digits) == Coefficient(n) && |digits| <= |n.ip + n.fp|
    && buffer == Marked(kept, nonzero)
    && exponent == Clamp(ExponentOf(n.exponent)) - |n.fp| + |digits| - |kept| - (if nonzero then 1 else 0)
  }

  /** Scans any text to its end: junk exactly when it is not a number. */
  method ScanDecimal(input: string) returns (scan: Scan, ghost digits: string, ghost kept: string, ghost nonzero: bool)
    requires |input| <= MAX_EXPONENT / 2
    ensures scan.NoText? <==> input == ""
    ensures scan.NotNumber? <==> input != "" && Parse(input) == None
    ensures scan.AllZero? ==> Parse(input).Some? && Coefficient(Parse(input).value) == 0
    ensures scan.Digits? ==> Parse(input).Some? && HandedOver(Parse(input).value, scan.buffer, scan.exponent, digits, kept, nonzero)
    ensures scan.AllZero? || scan.Digits? ==> (scan.sign <==> Parse(input).value.sign == "-")
  {
    hide DigitRun, ParseExponent, Kept, Dec;
    digits, kept, nonzero := "", "", false;
    if |input| == 0 { return NoText, digits, kept, nonzero; }
    var ok, current, sign := ScanSign(input);
    if !ok { return NotNumber, digits, kept, nonzero; }
    var has_digits, is_zero, buffer, exponent, insignificant_digits, nonzero_digit_dropped;
    has_digits, is_zero, current, buffer, exponent, insignificant_digits, nonzero_digit_dropped, digits :=
      ScanMantissa(input, current);
    DigitsThere(input);
    if !has_digits { return NotNumber, digits, kept, nonzero; }
    if is_zero {
      ZeroText(input);
      return AllZero(sign), digits, kept, nonzero;
    }
    var num := 0;
    NoOtherExponent(input, current);
    if current < |input| {
      if input[current] != 'e' && input[current] != 'E' { return NotNumber, digits, kept, nonzero; }
      ok, num := ScanExponent(input, current);
      if !ok { return NotNumber, digits, kept, nonzero; }
    }
    kept, nonzero := buffer, nonzero_digit_dropped;
    exponent := exponent + num + insignificant_digits;
    if nonzero_digit_dropped {
      buffer := buffer + ['1'];
      exponent := exponent - 1;
    }
    scan := Digits(sign, buffer, exponent);
  }

  /** Reads any text: junk exactly when it is not a number. */
  method StringToDouble(input: string, double_strtod: (seq<char>, int) -> (bool, uint64), powers: nat -> (uint64, int))
      returns (outcome: Outcome)
    requires |input| <= MAX_EXPONENT / 2 && DoubleStrtodOk(double_strtod) && PowersOk(powers)
    ensures input == "" <==> outcome == Empty
    ensures outcome == Junk <==> input != "" && Parse(input) == None
    ensures Parse(input).Some? ==> outcome.Value? && Reads(outcome.d64, Parse(input).value)
  {
    hide DigitRun, Parse, DecimalRoundsTo, DoubleStrtodOk, PowersOk, Kept, Dec, HandedOver;
    var scan;
    ghost var digits, kept, nonzero;
    scan, digits, kept, nonzero := ScanDecimal(input);
    match scan
    case NoText => ParseNothing(input); return Empty;
    case NotNumber => return Junk;
    case AllZero(sign) =>
      ZeroRounds(Scale(Parse(input).value));
      return Value(if sign then SIGN_MASK else 0);
    case Digits(sign, buffer, exponent) =>
      BufferDigits(Parse(input).value, buffer, exponent, digits, kept, nonzero);
      var converted := ReadDouble(buffer, exponent, double_strtod, powers);
      ParsedLength(input);
      NumberReads(Parse(input).value, buffer, exponent, digits, kept, nonzero, converted);
      return Value(if sign then SIGN_MASK + converted else converted);
  }

  lemma ParseNothing(input: string)
    requires input == ""
    ensures Parse(input) == None
  {}

  lemma ParsedLength(input: string)
    requires Parse(input).Some?
    ensures |Parse(input).value.ip + Parse(input).value.fp| <= |input|
  {
    hide DigitRun, ParseExponent;
  }

  lemma BufferDigits(n: Number, buffer: string, exponent: int, digits: string, kept: string, nonzero: bool)
    requires HandedOver(n, buffer, exponent, digits, kept, nonzero)
    ensures AllDigits(buffer)
  {
    hide Dec;
  }

  lemma NoOtherExponent(input: string, i: nat)
    requires i <= |input|
    ensures i == |input| ==> ParseExponent(input, i) == Some(NoExponent)
    ensures i < |input| && input[i] != 'e' && input[i] != 'E' ==> ParseExponent(input, i) == None
  {}

  /** What Strtod finds for the buffer is right for the number in the text. */
  lemma NumberReads(n: Number, buffer: string, exponent: int, digits: string, kept: string, nonzero: bool, result: nat)
    requires HandedOver(n, buffer, exponent, digits, kept, nonzero) && |n.ip + n.fp| <= MAX_EXPONENT / 2
    requires Dec(buffer) >= 0 && DecimalRoundsTo(result, Dec(buffer), exponent)
    ensures Coefficient(n) >= 0 && DecimalRoundsTo(result, Coefficient(n), Scale(n))
  {
    hide DecimalRoundsTo, Kept, Dec;
    KeptRounds(digits, kept, nonzero, Scale(n));
    if Clamp(ExponentOf(n.exponent)) != ExponentOf(n.exponent) {
      KeptBounds(digits, kept, nonzero);
      ExtremeRounds(digits, Scale(n), buffer, exponent, result);
    }
  }

  lemma KeptBounds(digits: string, buffer: string, nonzero: bool)
    requires Kept(digits, buffer, nonzero)
    ensures AllDigits(digits) && (digits == "" ==> Marked(buffer, nonzero) == "") && |buffer| <= |digits|
    ensures digits != "" ==> digits[0] != '0'
  {
    hide Dec;
    assert Dec([]) == 0 by { DecZeros([]); }
  }

  // ----- exact transfer -----

  /** a * 10^k and b * 10^z are the same decimal. */
  ghost predicate SameDecimal(a: int, k: int, b: int, z: int) {
    if k >= z then a * Pow10(k - z) == b else a == b * Pow10(z - k)
  }

  /** A number of at most 772 significant digits is handed over exactly: as these digits, and zeros. */
  lemma HandedExactly(n: Number, buffer: string, exponent: int, digits: string, kept: string, nonzero: bool,
      significant: string, m: nat)
    requires HandedOver(n, buffer, exponent, digits, kept, nonzero)
    requires AllDigits(significant) && 0 < |significant| <= KEPT_DIGITS && significant[0] != '0'
    requires Coefficient(n) == Dec(significant) * Pow10(m) && -MAX_EXPONENT <= ExponentOf(n.exponent) <= MAX_EXPONENT
    ensures significant <= buffer && (forall i :: |significant| <= i < |buffer| ==> buffer[i] == '0')
    ensures SameDecimal(Dec(buffer), exponent, Dec(significant), Scale(n) + m)
  {
    hide Dec, Pow10;
    var tail := seq(m, i => '0');
    PaddedDigits(significant, m, digits, tail);
    var b := |kept|;
    assert digits[b..] == seq(|digits| - b, i => '0');
    DecZeros(digits[b..]);
    assert kept == significant + seq(b - |significant|, i => '0');
    PadsTo(significant, b - |significant|, kept);
  }

  lemma PadsTo(significant: string, m: nat, padded: string)
    requires AllDigits(significant) && padded == significant + seq(m, i => '0')
    ensures Dec(padded) == Dec(significant) * Pow10(m)
  {
    hide Dec, Pow10;
    DecConcat(significant, seq(m, i => '0'));
    DecZeros(seq(m, i => '0'));
  }

  /** Digits with the value of others and m zeros are these. */
  lemma PaddedDigits(significant: string, m: nat, digits: string, tail: string)
    requires AllDigits(significant) && significant != "" && significant[0] != '0' && tail == seq(m, i => '0')
    requires AllDigits(digits) && (digits != "" ==> digits[0] != '0') && Dec(digits) == Dec(significant) * Pow10(m)
    ensures digits == significant + tail
  {
    hide Dec, Pow10;
    PadsTo(significant, m, significant + tail);
    DecLeading(significant);
    MulPositive(Dec(significant), Pow10(m));
    if digits == "" { assert Dec([]) == 0 by { DecZeros([]); } }
    SameLength(digits, significant + tail);
    DecInjective(digits, significant + tail);
  }

  method ScanSign(input: string) returns (ok: bool, current: nat, sign: bool)
    requires input != ""
    ensures ok ==> current == SignEnd(input) < |input| && (sign <==> input[..SignEnd(input)] == "-")
    ensures !ok ==> Parse(input) == None
  {
    current, sign, ok := 0, false, true;
    if input[current] == '+' || input[current] == '-' {
      sign := input[current] == '-';
      current := current + 1;
      var next_non_space := AdvanceToNonspace(input, current);
      if next_non_space == |input| || next_non_space != current {
        ok := false;
      }
    }
  }

  method AdvanceToNonspace(input: string, start: nat) returns (current: nat)
    requires start <= |input|
    ensures start <= current <= |input| && (current > start ==> input[start] == ' ')
    ensures current < |input| ==> input[current] != ' '
  {
    current := start;
    while current < |input| && input[current] == ' '
      invariant start <= current <= |input| && (current > start ==> input[start] == ' ')
    {
      current := current + 1;
    }
  }

  lemma ZeroText(input: string)
    requires HasDigits(input) && FractionEnd(input) == |input|
    requires Dec(IntegerPart(input) + Fraction(input)) == 0
    ensures Parse(input).Some?
    ensures Coefficient(Parse(input).value) == 0 && DecimalRoundsTo(0, 0, Scale(Parse(input).value))
    ensures Parse(input).value.sign == input[..SignEnd(input)]
  {
    hide DigitRun, Dec;
    DigitsThere(input);
    ZeroRounds(Scale(Parse(input).value));
  }
}
