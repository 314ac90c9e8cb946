/** Decimal digit strings and the numbers they denote, most significant digit first. */
module Decimal {
  import opened Words

  predicate IsDigit(c: char) {
    '0' <= c <= '9'
  }

  ghost predicate AllDigits(s: seq<char>) {
    forall i :: 0 <= i < |s| ==> IsDigit(s[i])
  }

  function DigitOf(c: char): int {
    c as int - '0' as int
  }

  function DigitChar(d: int): (c: char)
    requires 0 <= d <= 9
    ensures IsDigit(c) && DigitOf(c) == d
  {
    (d + '0' as int) as char
  }

  /** 10^n */
  function Pow10(n: nat): (p: nat)
    ensures p > 0
  {
    Pow(10, n)
  }

  lemma TenIs()
    ensures Pow10(0) == 1 && Pow10(1) == 10
  {}

  lemma TenSucc(n: nat)
    ensures Pow10(n + 1) == 10 * Pow10(n)
  {}

  lemma TenAdd(m: nat, n: nat)
    ensures Pow10(m + n) == Pow10(m) * Pow10(n)
  {
    PowAdd(10, m, n);
  }

  lemma TenMonotone(m: nat, n: nat)
    requires m <= n
    ensures Pow10(m) <= Pow10(n)
  {
    PowMonotone(10, m, n);
  }

  /** The number a string of digits denotes (any characters count with their distance from '0'). */
  function Dec(s: seq<char>): (v: int) {
    if s == [] then 0 else 10 * Dec(s[..|s| - 1]) + DigitOf(s[|s| - 1])
  }

  lemma DecAppend(s: seq<char>, c: char)
    ensures Dec(s + [c]) == 10 * Dec(s) + DigitOf(c)
  {
    assert (s + [c])[..|s|] == s;
  }

  lemma {:induction false} DecConcat(s: seq<char>, t: seq<char>)
    ensures Dec(s + t) == Dec(s) * Pow10(|t|) + Dec(t)
    decreases |t|
  {
    if t == [] {
      assert s + t == s;
    } else {
      var n := |t| - 1;
      assert (s + t)[..|s| + n] == s + t[..n];
      DecConcat(s, t[..n]);
      MulAssociate(Dec(s), Pow10(n), 10);
    }
  }

  lemma {:induction false} DecBounds(s: seq<char>)
    requires AllDigits(s)
    ensures 0 <= Dec(s) < Pow10(|s|)
    decreases |s|
  {
    if s != [] { DecBounds(s[..|s| - 1]); }
  }

  lemma DecLeading(s: seq<char>)
    requires AllDigits(s) && |s| > 0 && s[0] != '0'
    ensures Dec(s) >= Pow10(|s| - 1)
  {
    hide Dec, Pow10;
    assert s == s[..1] + s[1..];
    DecConcat(s[..1], s[1..]);
    DecBounds(s[1..]);
    DecSingle(s[..1]);
    MulLess(1, DigitOf(s[0]), Pow10(|s| - 1));
  }

  lemma {:induction false} DecUpdate(s: seq<char>, i: nat, c: char)
    requires i < |s|
    ensures Dec(s[i := c]) == Dec(s) + (DigitOf(c) - DigitOf(s[i])) * Pow10(|s| - 1 - i)
    decreases |s|
  {
    var n := |s| - 1;
    if i == n {
      assert s[i := c][..n] == s[..n];
    } else {
      assert s[i := c][..n] == s[..n][i := c];
      DecUpdate(s[..n], i, c);
      MulAssociate(10, DigitOf(c) - DigitOf(s[i]), Pow10(n - 1 - i));
      MulAssociate(DigitOf(c) - DigitOf(s[i]), 10, Pow10(n - 1 - i));
    }
  }

  lemma {:induction false} DecZeros(s: seq<char>)
    requires forall i :: 0 <= i < |s| ==> s[i] == '0'
    ensures Dec(s) == 0
    decreases |s|
  {
    if s != [] { DecZeros(s[..|s| - 1]); }
  }

  /** One digit followed by zeros. */
  lemma DecRound(s: seq<char>)
    requires |s| > 0 && forall i :: 1 <= i < |s| ==> s[i] == '0'
    ensures Dec(s) == DigitOf(s[0]) * Pow10(|s| - 1)
  {
    hide Dec, Pow10;
    assert s == s[..1] + s[1..];
    DecConcat(s[..1], s[1..]);
    DecZeros(s[1..]);
    DecSingle(s[..1]);
  }

  lemma DecSingle(s: seq<char>)
    requires |s| == 1
    ensures Dec(s) == DigitOf(s[0])
  {
    assert s == [] + [s[0]];
    DecAppend([], s[0]);
  }

  /** The last digit has been incremented and may have become ':', the character after '9'.
      Carries it to the left; a carry out of the first digit leaves a "1" followed by zeros and
      is reported, because the number is then ten times what the digits say. */
  method PropagateCarry(buffer: array<char>, count: nat) returns (overflow: bool)
    requires 0 < count <= buffer.Length
    requires AllDigits(buffer[..count - 1]) && '0' <= buffer[count - 1] <= ':'
    modifies buffer
    ensures AllDigits(buffer[..count])
    ensures Dec(buffer[..count]) * (if overflow then 10 else 1) == old(Dec(buffer[..count]))
    ensures overflow ==> buffer[0] == '1'
    ensures !overflow && old(buffer[0]) >= '1' ==> buffer[0] >= '1'
    ensures forall i :: count <= i < buffer.Length ==> buffer[i] == old(buffer[i])
  {
    hide Dec, Pow10;
    var i := count - 1;
    while i > 0 && buffer[i] == ':'
      invariant 0 <= i < count
      invariant forall j :: 0 <= j < count && j != i ==> IsDigit(buffer[j])
      invariant '0' <= buffer[i] <= ':'
      invariant forall j :: i < j < count ==> buffer[j] == '0'
      invariant old(buffer[0]) >= '1' ==> buffer[0] >= '1'
      invariant Dec(buffer[..count]) == old(Dec(buffer[..count]))
      invariant forall j :: count <= j < buffer.Length ==> buffer[j] == old(buffer[j])
      decreases i
    {
      ghost var s := buffer[..count];
      CarryOne(s, i);
      buffer[i] := '0';
      buffer[i - 1] := (buffer[i - 1] as int + 1) as char;
      assert buffer[..count] == s[i := '0'][i - 1 := (s[i - 1] as int + 1) as char];
      i := i - 1;
    }
    overflow := buffer[0] == ':';
    if overflow {
      DecRound(buffer[..count]);
      buffer[0] := '1';
      DecRound(buffer[..count]);
    }
  }

  lemma CarryOne(s: seq<char>, i: nat)
    requires 0 < i < |s| && s[i] == ':' && IsDigit(s[i - 1])
    ensures Dec(s[i := '0'][i - 1 := (s[i - 1] as int + 1) as char]) == Dec(s)
  {
    DecUpdate(s, i, '0');
    DecUpdate(s[i := '0'], i - 1, (s[i - 1] as int + 1) as char);
    assert Pow10(|s| - 1 - (i - 1)) == 10 * Pow10(|s| - 1 - i);
  }

  /** Digits without leading zeros are determined by their value. */
  lemma SameLength(s: seq<char>, t: seq<char>)
    requires AllDigits(s) && AllDigits(t) && s != [] && t != [] && s[0] != '0' && t[0] != '0' && Dec(s) == Dec(t)
    ensures |s| == |t|
  {
    hide Dec, Pow10;
    DecBounds(s);
    DecBounds(t);
    DecLeading(s);
    DecLeading(t);
    if |s| < |t| { TenMonotone(|s|, |t| - 1); }
    if |t| < |s| { TenMonotone(|t|, |s| - 1); }
  }

  lemma {:induction false} DecInjective(s: seq<char>, t: seq<char>)
    requires AllDigits(s) && AllDigits(t) && |s| == |t| && Dec(s) == Dec(t)
    ensures s == t
    decreases |s|
  {
    if s != [] {
      var n := |s| - 1;
      DecInjective(s[..n], t[..n]);
      assert s == s[..n] + [s[n]] && t == t[..n] + [t[n]];
    }
  }
}
