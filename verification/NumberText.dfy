/** Decimal numbers as text: an abstract syntax, its text, and the deterministic way to read it back.
    This is the language of the decimal scanner without any flags (double-conversion.cc). */
module NumberTexts {
  import opened Decimal

  datatype ExponentPart = NoExponent | Exponent(marker: char, sign: string, digits: string)

  datatype Number = Number(sign: string, ip: string, point: bool, fp: string, exponent: ExponentPart)

  datatype Option<T> = None | Some(value: T)

  predicate IsSign(s: string) {
    s == "" || s == "+" || s == "-"
  }

  ghost predicate WellFormed(n: Number) {
    && IsSign(n.sign) && AllDigits(n.ip) && AllDigits(n.fp) && (n.fp != "" ==> n.point) && n.ip + n.fp != ""
    && (n.exponent.Exponent? ==>
          && (n.exponent.marker == 'e' || n.exponent.marker == 'E')
          && IsSign(n.exponent.sign) && AllDigits(n.exponent.digits) && n.exponent.digits != "")
  }

  function ExponentText(x: ExponentPart): string {
    match x
    case NoExponent => ""
    case Exponent(marker, sign, digits) => [marker] + sign + digits
  }

  function FractionText(n: Number): string {
    if n.point then "." + n.fp else ""
  }

  function Text(n: Number): string {
    n.sign + (n.ip + (FractionText(n) + ExponentText(n.exponent)))
  }

  /** The number is Coefficient * 10^Scale, but for its sign. */
  ghost function Coefficient(n: Number): int {
    Dec(n.ip + n.fp)
  }

  ghost function Scale(n: Number): int {
    ExponentOf(n.exponent) - |n.fp|
  }

  ghost function ExponentOf(x: ExponentPart): int {
    match x
    case NoExponent => 0
    case Exponent(_, sign, digits) => if sign == "-" then 0 - Dec(digits) else Dec(digits)
  }

  // ----- reading it back -----

  /** Where the digits that start at i end. */
  function DigitRun(s: string, i: nat): (j: nat)
    requires i <= |s|
    ensures i <= j <= |s| && (forall k :: i <= k < j ==> IsDigit(s[k])) && (j < |s| ==> !IsDigit(s[j]))
    decreases |s| - i
  {
    if i < |s| && IsDigit(s[i]) then DigitRun(s, i + 1) else i
  }

  predicate SignAt(s: string, i: nat) {
    i < |s| && (s[i] == '+' || s[i] == '-')
  }

  function ParseExponent(s: string, i: nat): Option<ExponentPart>
    requires i <= |s|
  {
    if i == |s| then Some(NoExponent)
    else if s[i] != 'e' && s[i] != 'E' then None
    else
      var j := if SignAt(s, i + 1) then i + 2 else i + 1;
      if DigitRun(s, j) == |s| && j < |s| then Some(Exponent(s[i], s[i + 1..j], s[j..])) else None
  }

  function SignEnd(s: string): (i: nat)
    ensures i <= |s|
  {
    if SignAt(s, 0) then 1 else 0
  }

  function IntegerEnd(s: string): (i: nat)
    ensures SignEnd(s) <= i <= |s|
  {
    DigitRun(s, SignEnd(s))
  }

  predicate HasPoint(s: string) {
    IntegerEnd(s) < |s| && s[IntegerEnd(s)] == '.'
  }

  function FractionEnd(s: string): (i: nat)
    ensures IntegerEnd(s) <= i <= |s| && (HasPoint(s) ==> IntegerEnd(s) < i)
  {
    if HasPoint(s) then DigitRun(s, IntegerEnd(s) + 1) else IntegerEnd(s)
  }

  function Fraction(s: string): string {
    if HasPoint(s) then s[IntegerEnd(s) + 1..FractionEnd(s)] else ""
  }

  function Parse(s: string): Option<Number> {
    if SignEnd(s) == IntegerEnd(s) && Fraction(s) == "" then None
    else
      match ParseExponent(s, FractionEnd(s))
      case None => None
      case Some(x) => Some(Number(s[..SignEnd(s)], s[SignEnd(s)..IntegerEnd(s)], HasPoint(s), Fraction(s), x))
  }

  /** What is read is what was written. */
  lemma TextOfParse(s: string)
    requires Parse(s).Some?
    ensures WellFormed(Parse(s).value) && Text(Parse(s).value) == s
  {
    hide DigitRun, ParseExponent, ExponentText, FractionText, Fraction, FractionEnd, IntegerEnd, SignEnd, HasPoint;
    ExponentTextOfParse(s, FractionEnd(s));
    FractionTextOf(s, Parse(s).value);
    FourParts(s, SignEnd(s), IntegerEnd(s), FractionEnd(s));
    DigitParts(s);
  }

  lemma DigitParts(s: string)
    ensures AllDigits(s[SignEnd(s)..IntegerEnd(s)]) && AllDigits(Fraction(s)) && IsSign(s[..SignEnd(s)])
    ensures Fraction(s) != "" ==> HasPoint(s)
    ensures SignEnd(s) < IntegerEnd(s) || Fraction(s) != "" ==> s[SignEnd(s)..IntegerEnd(s)] + Fraction(s) != ""
  {
    hide DigitRun, SignEnd, IntegerEnd, Fraction, HasPoint, AllDigits, IsSign;
    IntegerDigits(s);
    FractionDigits(s);
    SignPart(s);
    Nonempty(s[SignEnd(s)..IntegerEnd(s)], Fraction(s));
  }

  lemma RunIsDigits(s: string, i: nat)
    requires i <= |s|
    ensures AllDigits(s[i..DigitRun(s, i)])
  {
    hide DigitRun, IsDigit;
    var run := s[i..DigitRun(s, i)];
    forall k | 0 <= k < |run| ensures IsDigit(run[k]) {
      assert run[k] == s[i + k];
    }
  }

  lemma IntegerDigits(s: string)
    ensures AllDigits(s[SignEnd(s)..IntegerEnd(s)])
  {
    hide DigitRun, SignEnd, AllDigits;
    RunIsDigits(s, SignEnd(s));
  }

  lemma FractionDigits(s: string)
    ensures AllDigits(Fraction(s)) && (Fraction(s) != "" ==> HasPoint(s))
  {
    hide DigitRun, SignEnd, IntegerEnd, IsDigit;
    if HasPoint(s) {
      RunIsDigits(s, IntegerEnd(s) + 1);
    }
  }

  lemma SignPart(s: string)
    ensures IsSign(s[..SignEnd(s)])
  {
    if SignEnd(s) > 0 { assert s[..1] == [s[0]]; }
  }

  lemma Nonempty(a: string, b: string)
    ensures a != "" || b != "" ==> a + b != ""
  {
    assert |a + b| == |a| + |b|;
  }

  lemma FractionTextOf(s: string, n: Number)
    requires n.point == HasPoint(s) && n.fp == Fraction(s)
    ensures FractionText(n) == s[IntegerEnd(s)..FractionEnd(s)]
  {
    hide DigitRun;
  }

  lemma FourParts(s: string, i: nat, j: nat, k: nat)
    requires i <= j <= k <= |s|
    ensures s == s[..i] + (s[i..j] + (s[j..k] + s[k..]))
  {
    assert s[j..] == s[j..k] + s[k..];
    assert s[i..] == s[i..j] + s[j..];
  }

  lemma PartsOf(a: string, b: string, c: string, d: string)
    ensures
      var s, i, j := a + (b + (c + d)), |a|, |a| + |b|;
      && s[..i] == a && s[i..j] == b && s[j..j + |c|] == c && s[j + |c|..] == d
      && s[i..] == b + (c + d) && s[j..] == c + d
  {
    var s, t := a + (b + (c + d)), b + (c + d);
    assert s[|a|..] == t;
    assert t[|b|..] == c + d;
    assert s[|a| + |b|..] == c + d;
  }

  lemma ExponentTextOfParse(s: string, i: nat)
    requires i <= |s| && ParseExponent(s, i).Some?
    ensures
      var x := ParseExponent(s, i).value;
      && ExponentText(x) == s[i..]
      && (x.Exponent? ==>
            && (x.marker == 'e' || x.marker == 'E')
            && IsSign(x.sign) && AllDigits(x.digits) && x.digits != "")
  {
    hide DigitRun;
    if i < |s| {
      var j := if SignAt(s, i + 1) then i + 2 else i + 1;
      assert s[i..] == [s[i]] + s[i + 1..j] + s[j..];
    }
  }

  /** A run of digits ends where the text continues with something else. */
  lemma {:induction false} RunEnds(s: string, i: nat, digits: string, rest: string)
    requires i + |digits| <= |s| && s[i..] == digits + rest && AllDigits(digits)
    requires rest == "" || !IsDigit(rest[0])
    ensures DigitRun(s, i) == i + |digits|
    decreases |digits|
  {
    if digits != "" {
      assert s[i] == digits[0];
      assert s[i + 1..] == digits[1..] + rest;
      RunEnds(s, i + 1, digits[1..], rest);
    } else if i < |s| {
      assert s[i] == rest[0];
    }
  }

  /** Every number's text is read, and as that number. */
  lemma ParseOfText(n: Number)
    requires WellFormed(n)
    ensures Parse(Text(n)) == Some(n)
  {
    hide DigitRun, ParseExponent, ExponentText, FractionText, FractionEnd, IntegerEnd, SignEnd, HasPoint;
    PositionsOf(n);
    PartsOf(n.sign, n.ip, FractionText(n), ExponentText(n.exponent));
    FractionOf(n);
    ParseOfExponent(Text(n), FractionEnd(Text(n)), n.exponent);
  }

  lemma FractionOf(n: Number)
    requires WellFormed(n) && FractionEnd(Text(n)) <= |Text(n)| && HasPoint(Text(n)) == n.point
    requires IntegerEnd(Text(n)) <= FractionEnd(Text(n)) && Text(n)[IntegerEnd(Text(n))..FractionEnd(Text(n))] == FractionText(n)
    ensures Fraction(Text(n)) == n.fp && (|n.ip| == 0 ==> n.fp != "")
  {
    hide DigitRun, Text, HasPoint;
    var s := Text(n);
    if n.point { assert Fraction(s) == s[IntegerEnd(s)..FractionEnd(s)][1..]; }
  }

  lemma PositionsOf(n: Number)
    requires WellFormed(n)
    ensures
      var s, i1 := Text(n), |n.sign| + |n.ip|;
      && i1 + |FractionText(n)| <= |s|
      && SignEnd(s) == |n.sign| && IntegerEnd(s) == i1 && HasPoint(s) == n.point && FractionEnd(s) == i1 + |FractionText(n)|
  {
    hide DigitRun, ParseExponent, ExponentText, AllDigits, IsSign, SignAt;
    var s, x, f := Text(n), ExponentText(n.exponent), FractionText(n);
    SignFound(n);
    ExponentStarts(n.exponent);
    PartsOf(n.sign, n.ip, f, x);
    RunsOf(s, |n.sign|, n, x);
  }

  lemma RunsOf(s: string, i0: nat, n: Number, x: string)
    requires AllDigits(n.ip) && AllDigits(n.fp) && (x == "" || x[0] == 'e' || x[0] == 'E')
    requires i0 + |n.ip| + |FractionText(n)| <= |s| && s[i0..] == n.ip + (FractionText(n) + x)
    requires s[i0 + |n.ip|..] == FractionText(n) + x
    ensures DigitRun(s, i0) == i0 + |n.ip|
    ensures n.point <==> i0 + |n.ip| < |s| && s[i0 + |n.ip|] == '.'
    ensures n.point ==> DigitRun(s, i0 + |n.ip| + 1) == i0 + |n.ip| + 1 + |n.fp|
  {
    hide DigitRun, FractionText, AllDigits, IsDigit;
    var i1, rest := i0 + |n.ip|, FractionText(n) + x;
    AfterInteger(n, x);
    RunEnds(s, i0, n.ip, rest);
    assert i1 < |s| ==> s[i1] == rest[0];
    if n.point { AfterPoint(s, i1, n, x); }
  }

  /** What follows the integer part does not start with a digit; it starts with a point if there is one. */
  lemma AfterInteger(n: Number, x: string)
    requires x == "" || x[0] == 'e' || x[0] == 'E'
    ensures
      var rest := FractionText(n) + x;
      && (rest == "" || !IsDigit(rest[0]))
      && (n.point <==> rest != "" && rest[0] == '.')
  {}

  lemma AfterPoint(s: string, i1: nat, n: Number, x: string)
    requires n.point && AllDigits(n.fp) && (x == "" || x[0] == 'e' || x[0] == 'E')
    requires i1 < |s| && s[i1..] == FractionText(n) + x
    ensures DigitRun(s, i1 + 1) == i1 + 1 + |n.fp|
  {
    hide DigitRun, AllDigits;
    assert s[i1..] == "." + (n.fp + x);
    assert s[i1 + 1..] == s[i1..][1..] == n.fp + x;
    RunEnds(s, i1 + 1, n.fp, x);
  }

  lemma ExponentStarts(x: ExponentPart)
    requires x.Exponent? ==> x.marker == 'e' || x.marker == 'E'
    ensures ExponentText(x) == "" || ExponentText(x)[0] == 'e' || ExponentText(x)[0] == 'E'
  {}

  lemma SignFound(n: Number)
    requires WellFormed(n)
    ensures |n.sign| == if SignAt(Text(n), 0) then 1 else 0
  {
    hide ExponentText;
    var s := Text(n);
    if n.sign == "" {
      if n.ip != "" {
        assert s[0] == n.ip[0];
      } else {
        assert s[0] == '.';
      }
    } else {
      assert s[0] == n.sign[0];
    }
  }

  lemma ParseOfExponent(s: string, i: nat, x: ExponentPart)
    requires i <= |s| && s[i..] == ExponentText(x)
    requires x.Exponent? ==>
      && (x.marker == 'e' || x.marker == 'E')
      && IsSign(x.sign) && AllDigits(x.digits) && x.digits != ""
    ensures ParseExponent(s, i) == Some(x)
  {
    hide DigitRun;
    if x.Exponent? {
      var j := i + 1 + |x.sign|;
      assert s[i..][0] == s[i] == x.marker;
      assert s[i + 1..] == s[i..][1..] == x.sign + x.digits;
      assert s[i + 1..j] == x.sign && s[j..] == x.digits;
      assert s[i + 1] == if x.sign == "" then x.digits[0] else x.sign[0];
      RunEnds(s, j, x.digits, "");
    }
  }
}
