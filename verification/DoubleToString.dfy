/** Printing a double as text (CreateDecimalRepresentation, CreateExponentialRepresentation and
    ToShortestIeeeNumber of double-conversion.cc), and the text round trip. */
module DoubleToStrings {
  import opened Words
  import opened Decimal
  import opened Ieee
  import opened ScaledStart
  import opened DoubleDtoa
  import opened Strtod
  import opened Grisu
  import opened DiyFpStrtods
  import opened DoubleConversion
  import opened NumberTexts
  import opened StringToDoubles

  datatype Converter = Converter(
    uniqueZero: bool,
    emitPositiveExponentSign: bool,
    emitTrailingDecimalPoint: bool,
    emitTrailingZeroAfterPoint: bool,
    exponentCharacter: char,
    decimalInShortestLow: int,
    decimalInShortestHigh: int)
  {
    /** A trailing zero only makes sense after a trailing point; the scanner knows two exponent
        characters. */
    predicate Valid() {
      && (emitTrailingZeroAfterPoint ==> emitTrailingDecimalPoint)
      && (exponentCharacter == 'e' || exponentCharacter == 'E')
    }
  }

  // ----- digits with zeros around them -----

  method Padding(count: int) returns (s: string)
    ensures |s| == (if count < 0 then 0 else count) && forall i :: 0 <= i < |s| ==> s[i] == '0'
  {
    s := "";
    while |s| < count
      invariant |s| <= (if count < 0 then 0 else count) && forall i :: 0 <= i < |s| ==> s[i] == '0'
    {
      s := s + ['0'];
    }
  }

  ghost predicate Zeros(s: string) {
    forall i :: 0 <= i < |s| ==> s[i] == '0'
  }

  /** Zeros in front change nothing; zeros behind multiply by powers of ten. */
  lemma DecPadded(front: string, s: string, behind: string)
    requires Zeros(front) && Zeros(behind)
    ensures Dec(front + s + behind) == Dec(s) * Pow10(|behind|)
  {
    hide Dec, Pow10;
    DecZeros(front);
    DecZeros(behind);
    DecConcat(front + s, behind);
    DecConcat(front, s);
    MulZero(Pow10(|s|));
  }

  // ----- exponential -----

  /** The digits of an exponent, written from the right into a buffer of five. */
  method ExponentDigits(exponent0: int) returns (s: string)
    requires 0 < exponent0 < 10000
    ensures s != "" && |s| <= 5 && AllDigits(s) && Dec(s) == exponent0 && s[0] != '0'
  {
    hide Dec, Pow10;
    var exponent, buffer, first_char_pos := exponent0, new char[6], 5;
    TenConstants();
    TenSucc(4);
    TenIs();
    assert buffer[5..5] == [];
    assert Dec([]) == 0 by { DecZeros([]); }
    while exponent > 0
      invariant 0 <= first_char_pos <= 5 && 0 <= exponent < Pow10(first_char_pos)
      invariant first_char_pos == 5 ==> exponent > 0
      invariant exponent == 0 ==> buffer[first_char_pos] != '0'
      invariant AllDigits(buffer[first_char_pos..5])
      invariant Dec(buffer[first_char_pos..5]) + exponent * Pow10(5 - first_char_pos) == exponent0
      decreases exponent
    {
      ghost var tail, p := buffer[first_char_pos..5], first_char_pos - 1;
      if first_char_pos > 0 { TenSucc(p); }
      TenSucc(5 - first_char_pos);
      first_char_pos := first_char_pos - 1;
      buffer[first_char_pos] := DigitChar(exponent % 10);
      assert buffer[first_char_pos..5] == [buffer[first_char_pos]] + tail;
      DecConcat([buffer[first_char_pos]], tail);
      DecSingle([buffer[first_char_pos]]);
      SplitDigit(exponent, Pow10(|tail|));
      exponent := exponent / 10;
    }
    s := buffer[first_char_pos..5];
    MulZero(Pow10(5 - first_char_pos));
  }

  lemma SplitDigit(x: nat, p: nat)
    ensures (x % 10) * p + (x / 10) * (10 * p) == x * p
  {
    MulAssociate(x / 10, 10, p);
    MulDistribute(x % 10, (x / 10) * 10, p);
  }

  /** One digit before the point and the others after it, with a point only if there are others; the
      converter's letter; a sign where the exponent is negative or the converter wants it; and the
      exponent without leading zeros. */
  ghost predicate ExponentialShape(converter: Converter, n: Number, digits: string, exponent: int) {
    && digits != "" && n.sign == "" && n.ip == digits[..1] && n.fp == digits[1..] && (n.point <==> |digits| > 1)
    && n.exponent.Exponent? && n.exponent.marker == converter.exponentCharacter
    && n.exponent.sign == (if exponent < 0 then "-" else if converter.emitPositiveExponentSign then "+" else "")
    && AllDigits(n.exponent.digits) && n.exponent.digits != "" && (n.exponent.digits == "0" || n.exponent.digits[0] != '0')
    && ExponentOf(n.exponent) == exponent
  }

  method CreateExponentialRepresentation(converter: Converter, decimal_digits: string, exponent: int)
      returns (text: string, ghost n: Number)
    requires converter.Valid() && decimal_digits != "" && AllDigits(decimal_digits) && -10000 < exponent < 10000
    ensures WellFormed(n) && text == Text(n) && n.sign == "" && |text| <= |decimal_digits| + 8
    ensures ExponentialShape(converter, n, decimal_digits, exponent)
    ensures Coefficient(n) == Dec(decimal_digits) && Scale(n) == exponent - (|decimal_digits| - 1)
  {
    hide Dec, Text;
    var length := |decimal_digits|;
    text := [decimal_digits[0]];
    if length != 1 {
      text := text + "." + decimal_digits[1..];
    }
    ghost var mantissa, sign := text, "";
    text := text + [converter.exponentCharacter];
    assert text + "" == text;
    var e := exponent;
    if e < 0 {
      text := text + "-";
      sign := "-";
      e := -e;
    } else if converter.emitPositiveExponentSign {
      text := text + "+";
      sign := "+";
    }
    var digits := "0";
    if e == 0 {
      DecZeros(digits);
    } else {
      digits := ExponentDigits(e);
    }
    text := text + digits;
    n := Number("", [decimal_digits[0]], length != 1, decimal_digits[1..], Exponent(converter.exponentCharacter, sign, digits));
    assert n.ip + n.fp == decimal_digits;
    assert mantissa == n.ip + FractionText(n);
    Appended(mantissa, [converter.exponentCharacter], sign, digits);
    PlainText(n);
  }

  lemma Appended(a: string, b: string, c: string, d: string)
    ensures a + b + c + d == a + (b + c + d) && |a + b + c + d| == |a| + |b| + |c| + |d|
  {}

  /** The text of a number without a sign. */
  lemma PlainText(n: Number)
    requires n.sign == ""
    ensures Text(n) == n.ip + FractionText(n) + ExponentText(n.exponent)
  {
    hide FractionText, ExponentText;
    var f, x := FractionText(n), ExponentText(n.exponent);
    assert Text(n) == n.ip + (f + x);
    assert n.ip + (f + x) == n.ip + f + x;
  }

  // ----- decimal -----

  /** What a printed decimal says about the digits it was made from. */
  ghost predicate Represents(n: Number, digits: string, point: int) {
    && WellFormed(n) && n.sign == "" && n.exponent == NoExponent
    && |n.fp| >= |digits| - point && Coefficient(n) == Dec(digits) * Pow10(point - |digits| + |n.fp|)
  }

  /** The digit that many places after the first one; there are zeros on both sides. */
  function DigitAt(digits: string, place: int): char {
    if 0 <= place < |digits| then digits[place] else '0'
  }

  ghost predicate IntegerShape(ip: string, digits: string, point: int) {
    && |ip| == (if point > 0 then point else 1)
    && forall i :: 0 <= i < |ip| ==> ip[i] == DigitAt(digits, point - |ip| + i)
  }

  ghost predicate FractionShape(fp: string, digits: string, point: int) {
    forall i :: 0 <= i < |fp| ==> fp[i] == DigitAt(digits, point + i)
  }

  /** The digits up to the point, or a zero; and as many places as requested, or what the converter
      wants to see where there are none. */
  ghost predicate DecimalShape(converter: Converter, n: Number, digits: string, point: int, digits_after_point: nat) {
    && n.sign == "" && n.exponent == NoExponent && IntegerShape(n.ip, digits, point)
    && if digits_after_point > 0 then n.point && |n.fp| == digits_after_point && FractionShape(n.fp, digits, point)
       else
         && (n.point <==> converter.emitTrailingDecimalPoint)
         && n.fp == (if converter.emitTrailingZeroAfterPoint then "0" else "")
  }

  /** The parts around the point, and the text they make. */
  ghost predicate Parts(text: string, ip: string, fp: string, digits: string, point: int, digits_after_point: nat) {
    && AllDigits(ip) && AllDigits(fp) && ip != "" && |ip| <= |digits| + (if point > 0 then point else 1) && |fp| == digits_after_point
    && text == ip + (if digits_after_point > 0 then "." + fp else "")
    && digits_after_point >= |digits| - point && IntegerShape(ip, digits, point) && FractionShape(fp, digits, point)
    && Dec(ip + fp) == Dec(digits) * Pow10(point - |digits| + digits_after_point)
  }

  /** Zero, the point, zeros, and the digits. */
  method BelowOne(decimal_digits: string, decimal_point: int, digits_after_point: nat)
      returns (text: string, ghost ip: string, ghost fp: string)
    requires AllDigits(decimal_digits) && decimal_point <= 0 && |decimal_digits| <= digits_after_point + decimal_point
    ensures Parts(text, ip, fp, decimal_digits, decimal_point, digits_after_point)
  {
    hide Dec, Pow10;
    text, ip, fp := "0", "0", "";
    if digits_after_point > 0 {
      text := text + ".";
      var padding := Padding(-decimal_point);
      text := text + padding;
      text := text + decimal_digits;
      var remaining_digits := digits_after_point - -decimal_point - |decimal_digits|;
      var tail := Padding(remaining_digits);
      text := text + tail;
      fp := padding + decimal_digits + tail;
      assert text == ip + ("." + fp);
      DecPadded(ip + padding, decimal_digits, tail);
      assert ip + fp == (ip + padding) + decimal_digits + tail;
    } else {
      DecPadded("0", "", "");
      assert "0" + "" + "" == ip + fp;
      assert decimal_digits == "";
    }
  }

  /** The digits, zeros, and perhaps the point and more zeros. */
  method NoFraction(decimal_digits: string, decimal_point: int, digits_after_point: nat)
      returns (text: string, ghost ip: string, ghost fp: string)
    requires AllDigits(decimal_digits) && decimal_point > 0 && decimal_point >= |decimal_digits|
    ensures Parts(text, ip, fp, decimal_digits, decimal_point, digits_after_point)
  {
    hide Dec, Pow10;
    var padding := Padding(decimal_point - |decimal_digits|);
    text := decimal_digits + padding;
    ip, fp := text, "";
    if digits_after_point > 0 {
      text := text + ".";
      var tail := Padding(digits_after_point);
      text := text + tail;
      fp := tail;
      assert text == ip + ("." + fp);
    }
    DecPadded("", decimal_digits, padding + fp);
    assert ip + fp == "" + decimal_digits + (padding + fp);
  }

  /** The digits with the point among them, and zeros. */
  method PointInside(decimal_digits: string, decimal_point: int, digits_after_point: nat)
      returns (text: string, ghost ip: string, ghost fp: string)
    requires AllDigits(decimal_digits) && 0 < decimal_point < |decimal_digits|
    requires |decimal_digits| - decimal_point <= digits_after_point
    ensures Parts(text, ip, fp, decimal_digits, decimal_point, digits_after_point)
  {
    hide Dec, Pow10;
    text := decimal_digits[..decimal_point];
    text := text + ".";
    text := text + decimal_digits[decimal_point..];
    var remaining_digits := digits_after_point - (|decimal_digits| - decimal_point);
    var tail := Padding(remaining_digits);
    text := text + tail;
    ip, fp := decimal_digits[..decimal_point], decimal_digits[decimal_point..] + tail;
    assert text == ip + ("." + fp);
    DecPadded("", decimal_digits, tail);
    assert ip + fp == "" + decimal_digits + tail;
  }

  method CreateDecimalRepresentation(converter: Converter, decimal_digits: string, decimal_point: int, digits_after_point: nat)
      returns (text: string, ghost n: Number)
    requires converter.Valid() && AllDigits(decimal_digits)
    requires decimal_point <= 0 ==> |decimal_digits| <= digits_after_point + decimal_point
    requires 0 < decimal_point < |decimal_digits| ==> |decimal_digits| - decimal_point <= digits_after_point
    ensures text == Text(n) && Represents(n, decimal_digits, decimal_point)
    ensures DecimalShape(converter, n, decimal_digits, decimal_point, digits_after_point)
    ensures digits_after_point > 0 ==> |n.fp| == digits_after_point
    ensures |text| <= |decimal_digits| + (if decimal_point > 0 then decimal_point else 1) + digits_after_point + 2
  {
    hide Dec, Pow10, Text;
    ghost var ip, fp, point := "", "", digits_after_point > 0;
    if decimal_point <= 0 {
      text, ip, fp := BelowOne(decimal_digits, decimal_point, digits_after_point);
    } else if decimal_point >= |decimal_digits| {
      text, ip, fp := NoFraction(decimal_digits, decimal_point, digits_after_point);
    } else {
      text, ip, fp := PointInside(decimal_digits, decimal_point, digits_after_point);
    }
    if digits_after_point == 0 {
      if converter.emitTrailingDecimalPoint {
        text := text + ".";
        point := true;
      }
      if converter.emitTrailingZeroAfterPoint {
        text := text + "0";
        TrailingZero(ip, fp, Dec(decimal_digits), decimal_point - |decimal_digits|);
        fp := "0";
      }
    }
    n := Number("", ip, point, fp, NoExponent);
    assert text == n.ip + FractionText(n) == n.ip + FractionText(n) + "";
    PlainText(n);
  }

  lemma TrailingZero(ip: string, fp: string, v: int, k: nat)
    requires fp == "" && Dec(ip + fp) == v * Pow10(k)
    ensures Dec(ip + "0") == v * Pow10(k + 1)
  {
    hide Dec, Pow10;
    assert ip + fp == ip;
    DecAppend(ip, '0');
    TenSucc(k);
    MulAssociate(v, 10, Pow10(k));
    MulAssociate(10, v, Pow10(k));
  }

  // ----- printing and scanning any digits -----

  /** Up to 772 significant digits printed in decimal form are scanned to the end of the text, and what
      Strtod gets is these digits, zeros after them, and the exponent that makes them the same number. */
  method DecimalScans(converter: Converter, decimal_digits: string, decimal_point: int, digits_after_point: nat)
      returns (scan: Scan)
    requires converter.Valid() && AllDigits(decimal_digits) && 0 < |decimal_digits| <= KEPT_DIGITS && decimal_digits[0] != '0'
    requires decimal_point <= 0 ==> |decimal_digits| <= digits_after_point + decimal_point
    requires 0 < decimal_point < |decimal_digits| ==> |decimal_digits| - decimal_point <= digits_after_point
    requires decimal_point < 0x800_0000 && digits_after_point < 0x800_0000
    ensures scan.Digits? && !scan.sign && decimal_digits <= scan.buffer
    ensures forall i :: |decimal_digits| <= i < |scan.buffer| ==> scan.buffer[i] == '0'
    ensures SameDecimal(Dec(scan.buffer), scan.exponent, Dec(decimal_digits), decimal_point - |decimal_digits|)
  {
    hide Dec, Pow10, Text, Parse, HandedOver, SameDecimal;
    var text;
    ghost var n, digits, kept, nonzero;
    text, n := CreateDecimalRepresentation(converter, decimal_digits, decimal_point, digits_after_point);
    ParseOfText(n);
    ghost var m: nat := decimal_point - |decimal_digits| + |n.fp|;
    assert Coefficient(n) == Dec(decimal_digits) * Pow10(m);
    NotZero(decimal_digits, m);
    if text == "" { ParseNothing(text); }
    scan, digits, kept, nonzero := ScanDecimal(text);
    HandedExactly(n, scan.buffer, scan.exponent, digits, kept, nonzero, decimal_digits, m);
  }

  /** The same in exponential form. */
  method ExponentialScans(converter: Converter, decimal_digits: string, exponent: int) returns (scan: Scan)
    requires converter.Valid() && AllDigits(decimal_digits) && 0 < |decimal_digits| <= KEPT_DIGITS && decimal_digits[0] != '0'
    requires -10000 < exponent < 10000
    ensures scan.Digits? && !scan.sign && decimal_digits <= scan.buffer
    ensures forall i :: |decimal_digits| <= i < |scan.buffer| ==> scan.buffer[i] == '0'
    ensures SameDecimal(Dec(scan.buffer), scan.exponent, Dec(decimal_digits), exponent - (|decimal_digits| - 1))
  {
    hide Dec, Pow10, Text, Parse, HandedOver, SameDecimal;
    var text;
    ghost var n, digits, kept, nonzero;
    text, n := CreateExponentialRepresentation(converter, decimal_digits, exponent);
    ParseOfText(n);
    if text == "" { ParseNothing(text); }
    scan, digits, kept, nonzero := ScanDecimal(text);
    TenIs();
    NotZero(decimal_digits, 0);
    ParsedLength(text);
    HandedExactly(n, scan.buffer, scan.exponent, digits, kept, nonzero, decimal_digits, 0);
  }

  lemma NotZero(digits: string, m: nat)
    requires AllDigits(digits) && digits != "" && digits[0] != '0'
    ensures Dec(digits) * Pow10(m) > 0
  {
    hide Dec, Pow10;
    DecLeading(digits);
    MulPositive(Dec(digits), Pow10(m));
  }

  // ----- ToShortest -----

  /** The text denotes digits * 10^(point - |digits|). */
  ghost predicate Denotes(n: Number, digits: string, point: int) {
    && WellFormed(n) && Scale(n) <= point - |digits|
    && Coefficient(n) == Dec(digits) * Pow10(point - |digits| - Scale(n))
  }

  /** The text for given digits: decimal where the exponent is in the converter's range, and then with
      as many places as there are digits after the point; exponential elsewhere. */
  ghost predicate ShortestShape(converter: Converter, n: Number, digits: string, point: int) {
    if converter.decimalInShortestLow <= point - 1 < converter.decimalInShortestHigh then
      DecimalShape(converter, n, digits, point, if |digits| > point then |digits| - point else 0)
    else
      ExponentialShape(converter, n, digits, point - 1)
  }

  /** The text for a double: a minus sign for negative ones, of which a zero may not be one for the
      converter, and the text for the shortest digits. */
  ghost predicate ShortestText(converter: Converter, d64: nat, text: string)
    requires d64 % SIGN_MASK < INFINITY
  {
    exists n: Number, digits: string, point: int :: TextFor(converter, d64, text, n, digits, point)
  }

  ghost predicate TextFor(converter: Converter, d64: nat, text: string, n: Number, digits: string, point: int)
    requires d64 % SIGN_MASK < INFINITY
  {
    && text == Text(n) && Printed(d64 % SIGN_MASK, digits, point)
    && n.sign == (if d64 > SIGN_MASK || (d64 == SIGN_MASK && !converter.uniqueZero) then "-" else "")
    && ShortestShape(converter, n.(sign := ""), digits, point)
  }

  /** There is only one such text. */
  lemma ShortestTextUnique(converter: Converter, d64: nat, text1: string, text2: string)
    requires d64 % SIGN_MASK < INFINITY && ShortestText(converter, d64, text1) && ShortestText(converter, d64, text2)
    ensures text1 == text2
  {
    hide Printed, Text, ShortestShape;
    var n1: Number, s1: string, p1: int :| TextFor(converter, d64, text1, n1, s1, p1);
    var n2: Number, s2: string, p2: int :| TextFor(converter, d64, text2, n2, s2, p2);
    PrintedUnique(d64 % SIGN_MASK, s1, p1, s2, p2);
    ShapeUnique(converter, n1.(sign := ""), n2.(sign := ""), s1, p1);
    assert n1 == n1.(sign := "").(sign := n1.sign) && n2 == n2.(sign := "").(sign := n2.sign);
  }

  lemma ShapeUnique(converter: Converter, n1: Number, n2: Number, digits: string, point: int)
    requires ShortestShape(converter, n1, digits, point) && ShortestShape(converter, n2, digits, point)
    ensures n1 == n2
  {
    hide Dec;
    if converter.decimalInShortestLow <= point - 1 < converter.decimalInShortestHigh {
      assert n1.ip == n2.ip;
      assert n1.fp == n2.fp;
    } else {
      ExponentUnique(n1.exponent, n2.exponent, point - 1);
    }
  }

  lemma ExponentUnique(x1: ExponentPart, x2: ExponentPart, exponent: int)
    requires x1.Exponent? && x2.Exponent? && x1.marker == x2.marker && x1.sign == x2.sign
    requires AllDigits(x1.digits) && x1.digits != "" && (x1.digits == "0" || x1.digits[0] != '0')
    requires AllDigits(x2.digits) && x2.digits != "" && (x2.digits == "0" || x2.digits[0] != '0')
    requires ExponentOf(x1) == ExponentOf(x2)
    ensures x1 == x2
  {
    hide Dec;
    DecZeros("0");
    if x1.digits[0] != '0' { DecLeading(x1.digits); }
    if x2.digits[0] != '0' { DecLeading(x2.digits); }
    if x1.digits[0] != '0' && x2.digits[0] != '0' {
      SameLength(x1.digits, x2.digits);
      DecInjective(x1.digits, x2.digits);
    }
  }

  /** The shortest text of a finite double. */
  method ToShortestIeeeNumber(converter: Converter, d64: uint64, estimated_power: int, cached: (int, int) -> (uint64, int, int))
      returns (text: string, ghost n: Number, ghost digits: string, ghost point: int)
    requires converter.Valid() && IsFinite(d64) && CacheOk(cached)
    requires d64 % SIGN_MASK > 0 ==> EstimateOk(d64 % SIGN_MASK, estimated_power)
    ensures text == Text(n) && |text| <= 1000
    ensures Printed(d64 % SIGN_MASK, digits, point) && Denotes(n, digits, point)
    ensures TextFor(converter, d64, text, n, digits, point) && ShortestText(converter, d64, text)
    ensures n.sign == if d64 > SIGN_MASK || (d64 == SIGN_MASK && !converter.uniqueZero) then "-" else ""
  {
    hide Dec, Pow10, Text, Printed, CacheOk, EstimateOk, DecimalShape, ExponentialShape;
    var decimal_rep := new char[18];
    var sign, decimal_rep_length, decimal_point := DoubleToAscii(d64, estimated_power, cached, decimal_rep);
    var rep := decimal_rep[..decimal_rep_length];
    digits, point := rep, decimal_point;
    PrintedBounds(d64 % SIGN_MASK, rep, decimal_point);
    var exponent := decimal_point - 1;
    if converter.decimalInShortestLow <= exponent < converter.decimalInShortestHigh {
      text, n := CreateDecimalRepresentation(converter, rep, decimal_point,
                   if decimal_rep_length - decimal_point > 0 then decimal_rep_length - decimal_point else 0);
    } else {
      text, n := CreateExponentialRepresentation(converter, rep, exponent);
      TenIs();
    }
    if sign && (d64 % SIGN_MASK != 0 || !converter.uniqueZero) {
      text := "-" + text;
      assert n == n.(sign := "-").(sign := "");
      n := n.(sign := "-");
      assert Text(n) == text by { NegativeText(n); }
    } else {
      assert n == n.(sign := "");
    }
    assert TextFor(converter, d64, text, n, digits, point);
  }

  lemma NegativeText(n: Number)
    requires n.sign == "-"
    ensures Text(n) == "-" + Text(n.(sign := ""))
  {
    hide FractionText, ExponentText;
    var rest := n.ip + (FractionText(n) + ExponentText(n.exponent));
    assert FractionText(n.(sign := "")) == FractionText(n) by { SameFraction(n); }
    assert Text(n.(sign := "")) == "" + rest == rest;
  }

  lemma SameFraction(n: Number)
    ensures FractionText(n.(sign := "")) == FractionText(n)
  {}

  /** The decimal point of a double is never far away. */
  lemma PrintedBounds(v: nat, s: string, point: int)
    requires v < INFINITY && Printed(v, s, point)
    ensures -324 < point <= 309 && 0 < |s| <= 17 && AllDigits(s) && Dec(s) >= 0
  {
    hide Dec, DecimalRoundsTo;
    if v > 0 {
      var k := point - |s|;
      if point > 309 {
        TooLarge(s, k);
        ReadsBack(v, INFINITY, Dec(s), k);
      }
      if point <= -324 {
        TooSmall(s, k);
        ReadsBack(v, 0, Dec(s), k);
      }
    }
  }

  /** Reading the printed text gives the double back: every finite one, but for the sign of a zero
      when the converter is asked to print only one zero. */
  method TextRoundTrip(converter: Converter, d64: uint64, estimated_power: int, cached: (int, int) -> (uint64, int, int),
      double_strtod: (seq<char>, int) -> (bool, uint64), powers: nat -> (uint64, int))
      returns (text: string, outcome: Outcome)
    requires converter.Valid() && IsFinite(d64) && CacheOk(cached)
    requires d64 % SIGN_MASK > 0 ==> EstimateOk(d64 % SIGN_MASK, estimated_power)
    requires DoubleStrtodOk(double_strtod) && PowersOk(powers)
    ensures ShortestText(converter, d64, text)
    ensures outcome.Value? && Parse(text).Some? && Reads(outcome.d64, Parse(text).value)
    ensures outcome.d64 % SIGN_MASK == d64 % SIGN_MASK
    ensures outcome == Value(d64) <==> !(d64 == SIGN_MASK && converter.uniqueZero)
  {
    hide Dec, Pow10, Text, Parse, Printed, CacheOk, EstimateOk, DoubleStrtodOk, PowersOk, DecimalRoundsTo, ShortestText, TextFor;
    ghost var n, digits, point;
    text, n, digits, point := ToShortestIeeeNumber(converter, d64, estimated_power, cached);
    ParseOfText(n);
    outcome := StringToDouble(text, double_strtod, powers);
    ReadsPrinted(d64 % SIGN_MASK, outcome.d64, n, digits, point);
  }

  lemma ReadsPrinted(v: nat, d64: nat, n: Number, digits: string, point: int)
    requires v < INFINITY && Printed(v, digits, point) && Denotes(n, digits, point) && Reads(d64, n)
    ensures d64 % SIGN_MASK == v
  {
    hide Dec, Pow10, Printed, DecimalRoundsTo;
    PrintedBounds(v, digits, point);
    PrintedRounds(v, digits, point);
    var k := point - |digits|;
    RescaleRoundsTo(v, Dec(digits), k, Scale(n));
    ReadsBack(v, d64 % SIGN_MASK, Coefficient(n), Scale(n));
  }
}
