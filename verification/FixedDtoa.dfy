/** Fixed notation in 64- and 128-bit arithmetic (fixed-dtoa.cc). */
module FixedDtoa {
  import opened Words
  import opened Decimal
  import opened Ieee
  import opened Powers
  import opened BignumDtoa
  import opened ScaledStart
  import opened DiyFps
  import opened UInt128s

  // ----- filling in digits -----

  /** The digits written so far: those before are untouched, the number is complete. */
  ghost predicate Appended(before: seq<char>, after: seq<char>, start: nat, length: nat, digits: nat) {
    && start <= length <= |after| && |before| == |after| && after[..start] == before[..start]
    && AllDigits(after[start..length]) && Dec(after[start..length]) == digits
  }

  method FillDigits32FixedLength(number0: uint32, requested_length: nat, buffer: array<char>, length: nat)
      returns (new_length: nat)
    requires number0 < Pow10(requested_length) && length + requested_length <= buffer.Length
    modifies buffer
    ensures new_length == length + requested_length
    ensures Appended(old(buffer[..]), buffer[..], length, new_length, number0)
  {
    hide Dec, Pow10;
    var number: nat := number0;
    var i: int := requested_length - 1;
    var end := length + requested_length;
    ghost var scale := 1;
    TenIs();
    DecZeros(buffer[end..end]);
    while i >= 0
      invariant -1 <= i < requested_length && number < Pow10(i + 1) && scale == Pow10(requested_length - 1 - i)
      invariant buffer[..length] == old(buffer[..length]) && AllDigits(buffer[length + i + 1..end])
      invariant number0 == number * scale + Dec(buffer[length + i + 1..end])
      decreases i
    {
      ghost var tail := buffer[length + i + 1..end];
      buffer[length + i] := DigitChar(number % 10);
      assert buffer[length + i..end] == [buffer[length + i]] + tail;
      Prepend(buffer[length + i], tail);
      TenSucc(requested_length - 1 - i);
      TenthOf(number, scale);
      TenthBelow(number, i);
      number := number / 10;
      scale := 10 * scale;
      i := i - 1;
    }
    MulZero(scale);
    TenIs();
    new_length := end;
    assert buffer[..][length..new_length] == buffer[length..end];
  }

  lemma Prepend(c: char, s: seq<char>)
    ensures Dec([c] + s) == DigitOf(c) * Pow10(|s|) + Dec(s)
  {
    hide Dec;
    DecConcat([c], s);
    DecSingle([c]);
  }

  lemma TenthOf(number: nat, scale: nat)
    ensures number * scale == number / 10 * (10 * scale) + number % 10 * scale
  {
    MulDistribute(number / 10 * 10, number % 10, scale);
    MulAssociate(number / 10, 10, scale);
  }

  lemma TenthBelow(number: nat, i: nat)
    requires number < Pow10(i + 1)
    ensures number / 10 < Pow10(i)
  {}

  /** The number a string of digits denotes when read backwards. */
  ghost function DecBackwards(s: seq<char>): int {
    if s == [] then 0 else DigitOf(s[0]) + 10 * DecBackwards(s[1..])
  }

  ghost predicate Mirrored(s: seq<char>, t: seq<char>) {
    |s| == |t| && forall k: nat :: k < |s| ==> t[k] == s[|s| - 1 - k]
  }

  lemma {:induction false} MirrorDec(s: seq<char>, t: seq<char>)
    requires Mirrored(s, t)
    ensures Dec(t) == DecBackwards(s)
    decreases |s|
  {
    if s != [] {
      MirrorDec(s[1..], t[..|t| - 1]);
    }
  }

  lemma {:induction false} BackwardsAppend(s: seq<char>, c: char)
    ensures DecBackwards(s + [c]) == DecBackwards(s) + DigitOf(c) * Pow10(|s|)
    decreases |s|
  {
    if s != [] {
      assert (s + [c])[1..] == s[1..] + [c];
      BackwardsAppend(s[1..], c);
      MulAssociate(10, DigitOf(c), Pow10(|s| - 1));
      MulAssociate(DigitOf(c), 10, Pow10(|s| - 1));
    } else {
      assert s + [c] == [c];
      PowNone(10);
    }
  }

  /** Writes the digits backwards and then exchanges them; zero has none. */
  method FillDigits32(number0: uint32, buffer: array<char>, length: nat, ghost room: nat) returns (new_length: nat)
    requires number0 < Pow10(room) && length + room <= buffer.Length
    modifies buffer
    ensures new_length <= length + room && Appended(old(buffer[..]), buffer[..], length, new_length, number0)
    ensures new_length > length <==> number0 > 0
    ensures number0 > 0 ==> buffer[length] != '0'
  {
    hide Dec, DecBackwards, Pow10, Mirrored;
    var number_length := WriteBackwards(number0, buffer, length, room);
    ghost var s := buffer[length..length + number_length];
    Exchange(buffer, length, number_length);
    new_length := length + number_length;
    MirrorDec(s, buffer[length..new_length]);
    MirrorDigits(s, buffer[length..new_length]);
    assert buffer[..][length..new_length] == buffer[length..new_length];
    assert number_length > 0 ==> buffer[length..new_length][0] == buffer[length];
  }

  lemma MirrorDigits(s: seq<char>, t: seq<char>)
    requires Mirrored(s, t) && AllDigits(s)
    ensures AllDigits(t) && (s != [] ==> t[0] == s[|s| - 1])
  {}

  method WriteBackwards(number0: uint32, buffer: array<char>, length: nat, ghost room: nat) returns (number_length: nat)
    requires number0 < Pow10(room) && length + room <= buffer.Length
    modifies buffer
    ensures number_length <= room && buffer[..length] == old(buffer[..length])
    ensures AllDigits(buffer[length..length + number_length]) && DecBackwards(buffer[length..length + number_length]) == number0
    ensures number_length > 0 <==> number0 > 0
    ensures number0 > 0 ==> buffer[length + number_length - 1] != '0'
  {
    hide DecBackwards, Pow10;
    number_length := 0;
    var number: nat := number0;
    ghost var scale := 1;
    TenIs();
    EmptyBackwards(buffer[length..length]);
    while number != 0
      invariant number_length <= room && number < Pow10(room - number_length) && scale == Pow10(number_length)
      invariant buffer[..length] == old(buffer[..length]) && AllDigits(buffer[length..length + number_length])
      invariant number0 == DecBackwards(buffer[length..length + number_length]) + number * scale
      invariant number_length == 0 ==> number == number0
      invariant number_length > 0 ==> number0 > 0 && (number == 0 ==> buffer[length + number_length - 1] != '0')
      decreases number
    {
      ghost var s := buffer[length..length + number_length];
      DigitsRemain(number, room - number_length);
      var digit := number % 10;
      buffer[length + number_length] := DigitChar(digit);
      assert buffer[length..length + number_length + 1] == s + [DigitChar(digit)];
      BackwardsAppend(s, DigitChar(digit));
      TenSucc(number_length);
      TenthOf(number, scale);
      number := number / 10;
      scale := 10 * scale;
      number_length := number_length + 1;
    }
    MulZero(scale);
  }

  lemma EmptyBackwards(s: seq<char>)
    requires s == []
    ensures DecBackwards(s) == 0
  {}

  lemma DigitsRemain(number: nat, room: nat)
    requires 0 < number < Pow10(room)
    ensures room > 0 && number / 10 < Pow10(room - 1)
  {}

  /** Reverses a stretch of the buffer in place. */
  method Exchange(buffer: array<char>, length: nat, number_length: nat)
    requires length + number_length <= buffer.Length
    modifies buffer
    ensures Mirrored(old(buffer[length..length + number_length]), buffer[length..length + number_length])
    ensures forall k: nat :: k < buffer.Length && !(length <= k < length + number_length) ==> buffer[k] == old(buffer[k])
  {
    var i: int := length;
    var j: int := length + number_length - 1;
    while i < j
      invariant length <= i <= j + 2 && i + j == 2 * length + number_length - 1
      invariant forall k: nat :: length <= k < i ==>
        buffer[k] == old(buffer[2 * length + number_length - 1 - k]) && buffer[2 * length + number_length - 1 - k] == old(buffer[k])
      invariant forall k: nat :: i <= k <= j ==> buffer[k] == old(buffer[k])
      invariant forall k: nat :: k < buffer.Length && !(length <= k < length + number_length) ==> buffer[k] == old(buffer[k])
      decreases j - i
    {
      buffer[i], buffer[j] := buffer[j], buffer[i];
      i := i + 1;
      j := j - 1;
    }
  }

  lemma AppendedMore(before: seq<char>, mid: seq<char>, after: seq<char>, start: nat, m: nat, n: nat, x: nat, y: nat)
    requires Appended(before, mid, start, m, x) && Appended(mid, after, m, n, y)
    ensures x * Pow10(n - m) + y >= 0 && Appended(before, after, start, n, x * Pow10(n - m) + y)
    ensures after[start..m] == mid[start..m]
  {
    hide Dec, Pow10;
    MulPositive(x, Pow10(n - m));
    assert after[..m] == mid[..m];
    assert after[start..m] == after[..m][start..] == mid[..m][start..] == mid[start..m];
    assert after[start..n] == mid[start..m] + after[m..n];
    DecConcat(mid[start..m], after[m..n]);
    assert after[..start] == after[..m][..start];
    assert mid[..start] == mid[..m][..start];
  }

  const TEN7: nat := 1000_0000

  lemma TenSevens()
    ensures Pow10(3) == 1000 && Pow10(7) == TEN7 && Pow10(10) == 100_0000_0000
    ensures Pow10(14) == TEN7 * TEN7 && Pow10(16) == 1_0000_0000_0000_0000 && Pow10(17) == 10_0000_0000_0000_0000
    ensures Pow10(20) == 1_0000_0000_0000_0000_0000
  {
    hide Pow;
    TenIs();
    PowAdd(10, 1, 1);
    PowAdd(10, 2, 1);
    PowAdd(10, 3, 3);
    PowAdd(10, 6, 1);
    PowAdd(10, 3, 7);
    PowAdd(10, 7, 7);
    PowAdd(10, 6, 10);
    PowAdd(10, 7, 10);
    PowAdd(10, 10, 10);
  }

  /** 17 digits with leading zeros, in three parts. */
  method FillDigits64FixedLength(number: uint64, buffer: array<char>, length: nat) returns (new_length: nat)
    requires number < Pow10(17) && length + 17 <= buffer.Length
    modifies buffer
    ensures new_length == length + 17 && Appended(old(buffer[..]), buffer[..], length, new_length, number)
  {
    hide Pow10, Dec, Appended;
    TenSevens();
    var part2, part1, part0 := number % TEN7, number / TEN7 % TEN7, number / TEN7 / TEN7;
    ghost var b0 := buffer[..];
    var l1 := FillDigits32FixedLength(part0, 3, buffer, length);
    ghost var b1 := buffer[..];
    var l2 := FillDigits32FixedLength(part1, 7, buffer, l1);
    ghost var b2 := buffer[..];
    AppendedMore(b0, b1, b2, length, l1, l2, part0, part1);
    new_length := FillDigits32FixedLength(part2, 7, buffer, l2);
    AppendedMore(b0, b2, buffer[..], length, l2, new_length, part0 * TEN7 + part1, part2);
  }

  method FillDigits64(number: uint64, buffer: array<char>, length: nat, ghost room: nat) returns (new_length: nat)
    requires number < Pow10(room) && 14 <= room && length + room <= buffer.Length
    modifies buffer
    ensures new_length <= length + room && Appended(old(buffer[..]), buffer[..], length, new_length, number)
  {
    hide Pow10, Dec, Appended;
    TenSevens();
    var part2, part1, part0 := number % TEN7, number / TEN7 % TEN7, number / TEN7 / TEN7;
    PartBelow(number, room);
    ghost var b0 := buffer[..];
    if part0 != 0 {
      var l1 := FillDigits32(part0, buffer, length, room - 14);
      ghost var b1 := buffer[..];
      var l2 := FillDigits32FixedLength(part1, 7, buffer, l1);
      ghost var b2 := buffer[..];
      AppendedMore(b0, b1, b2, length, l1, l2, part0, part1);
      new_length := FillDigits32FixedLength(part2, 7, buffer, l2);
      AppendedMore(b0, b2, buffer[..], length, l2, new_length, part0 * TEN7 + part1, part2);
    } else if part1 != 0 {
      var l1 := FillDigits32(part1, buffer, length, 7);
      ghost var b1 := buffer[..];
      new_length := FillDigits32FixedLength(part2, 7, buffer, l1);
      AppendedMore(b0, b1, buffer[..], length, l1, new_length, part1, part2);
    } else {
      new_length := FillDigits32(part2, buffer, length, 7);
    }
  }

  lemma PartBelow(number: nat, room: nat)
    requires 14 <= room && number < Pow10(room)
    ensures number / TEN7 / TEN7 < Pow10(room - 14)
  {
    hide Pow;
    TenSevens();
    PowAdd(10, room - 14, 14);
    var q := number / TEN7 / TEN7;
    if q >= Pow10(room - 14) { MulLess(Pow10(room - 14), q, TEN7 * TEN7); }
  }

  // ----- rounding -----

  /** The number of units of 10^-places that the digits denote; no digits are zero. */
  ghost function Denoted(s: seq<char>, decimal_point: int, places: nat): int {
    if s == [] then 0 else if decimal_point + places < |s| then -1 else Dec(s) * Pow10(decimal_point + places - |s|)
  }

  /** The digits are n / 2^q rounded half-up at the given number of places. */
  ghost predicate FixedDigits(s: seq<char>, decimal_point: int, places: nat, n: nat, q: nat) {
    && AllDigits(s) && (s != [] ==> decimal_point + places >= |s|)
    && RoundedHalfUp(Denoted(s, decimal_point, places), n * Pow10(places), Two(q))
  }

  method RoundUp(buffer: array<char>, length0: nat, decimal_point0: int) returns (length: nat, decimal_point: int)
    requires length0 <= buffer.Length && 0 < buffer.Length && AllDigits(buffer[..length0])
    modifies buffer
    ensures length0 > 0 ==>
      && length == length0 && AllDigits(buffer[..length])
      && (decimal_point == decimal_point0 || decimal_point == decimal_point0 + 1)
      && Dec(buffer[..length]) * (if decimal_point == decimal_point0 then 1 else 10) == old(Dec(buffer[..length0])) + 1
    ensures length0 == 0 ==> length == 1 && decimal_point == 1 && buffer[..1] == "1"
  {
    hide Dec, Pow10;
    if length0 == 0 {
      buffer[0] := '1';
      return 1, 1;
    }
    length := length0;
    ghost var s := buffer[..length];
    buffer[length - 1] := (buffer[length - 1] as int + 1) as char;
    assert buffer[..length] == s[length - 1 := buffer[length - 1]];
    DecUpdate(s, length - 1, buffer[length - 1]);
    TenIs();
    var overflow := PropagateCarry(buffer, length);
    decimal_point := if overflow then decimal_point0 + 1 else decimal_point0;
  }

  lemma RoundScale(v: int, a: int, b: int, k: int)
    requires k > 0
    ensures RoundedHalfUp(v, a, b) <==> RoundedHalfUp(v, a * k, b * k)
  {
    MulLess(2 * v * b, 2 * a + b, k);
    MulLess(2 * a + b, 2 * v * b + 2 * b, k);
    MulAssociate(2 * v, b, k);
    MulAssociate(2, a, k);
    MulAssociate(2, b, k);
    MulDistribute(2 * a, b, k);
    MulDistribute(2 * v * b, 2 * b, k);
  }

  // ----- the fraction -----

  /** After i places: n / 2^q shifted by i places is the digits plus rest / 2^(q - i). */
  ghost predicate Partial(s: seq<char>, n: nat, q: nat, i: nat, rest: nat) {
    && AllDigits(s) && i <= q && rest < Two(q - i)
    && n * Pow10(i) == Dec(s) * Two(q) + rest * Two(i)
  }

  /** One more place: multiply by 5 and move the binary point. */
  lemma NextPlace(s: seq<char>, n: nat, q: nat, i: nat, rest: nat)
    requires Partial(s, n, q, i, rest) && i < q
    ensures
      var p := Two(q - i - 1);
      var digit := 5 * rest / p;
      && 0 <= digit <= 9 && 0 <= 5 * rest % p < p && 5 * rest == digit * p + 5 * rest % p
      && Partial(s + [DigitChar(digit)], n, q, i + 1, 5 * rest % p)
  {
    hide Two, Pow10, Dec;
    var p := Two(q - i - 1);
    var digit, r := 5 * rest / p, 5 * rest % p;
    TwoAdd(q - i - 1, 1);
    TwoTens();
    DivModDefinition(5 * rest, p);
    if digit >= 10 { MulLess(10, digit, p); }
    if digit < 0 { MulGap(digit, 0, p); }
    DecAppend(s, DigitChar(digit));
    TenSucc(i);
    TwoAdd(i, 1);
    TwoAdd(q - i - 1, i + 1);
    PlaceProducts(n, Dec(s), Two(q), rest, Two(i), digit, p, r, Pow10(i));
  }

  lemma PlaceProducts(n: int, d: int, t: int, rest: int, u: int, digit: int, p: int, r: int, ten: int)
    requires n * ten == d * t + rest * u && 5 * rest == digit * p + r && p * (2 * u) == t
    ensures n * (10 * ten) == (10 * d + digit) * t + r * (2 * u)
  {
    calc {
      n * (10 * ten);
      { MulAssociate(n, 10, ten); MulAssociate(10, n, ten); }
      10 * (d * t + rest * u);
      { MulAssociate(10, d, t); MulAssociate(5, rest, 2 * u); MulAssociate(rest, 2, u); MulAssociate(2, rest, u); }
      (10 * d) * t + (5 * rest) * (2 * u);
      { MulDistribute(digit * p, r, 2 * u); MulAssociate(digit, p, 2 * u); }
      (10 * d) * t + digit * t + r * (2 * u);
      { MulDistribute(10 * d, digit, t); }
      (10 * d + digit) * t + r * (2 * u);
    }
  }

  /** Where the digits stop: exactly, or by looking at the first bit that is left. */
  lemma Stopped(s: seq<char>, n: nat, q: nat, i: nat, rest: nat, places: nat)
    requires Partial(s, n, q, i, rest) && i <= places && (rest == 0 || i == places)
    ensures rest == 0 || 2 * rest < Two(q - i) ==> RoundedHalfUp(Dec(s) * Pow10(places - i), n * Pow10(places), Two(q))
    ensures rest > 0 && 2 * rest >= Two(q - i) ==> i == places && RoundedHalfUp(Dec(s) + 1, n * Pow10(places), Two(q))
  {
    hide Two, Pow10, Dec;
    TenIs();
    TwoAdd(q - i, i);
    if i == places {
      MulLess(2 * rest, Two(q - i), Two(i));
      MulLess(rest, Two(q - i), Two(i));
      MulAssociate(2, rest, Two(i));
      MulAssociate(2, Dec(s), Two(q));
      MulPositive(rest, Two(i));
      MulDistribute(Dec(s), 1, Two(q));
      MulAssociate(2, Dec(s) + 1, Two(q));
    } else {
      TenAdd(i, places - i);
      MulAssociate(n, Pow10(i), Pow10(places - i));
      MulAssociate(Dec(s), Two(q), Pow10(places - i));
      MulAssociate(Dec(s), Pow10(places - i), Two(q));
      MulZero(Two(i));
      MulAssociate(2, Dec(s) * Pow10(places - i), Two(q));
    }
  }

  lemma Kept(s: seq<char>, n: nat, q: nat, i: nat, rest: nat, places: nat, decimal_point: int)
    requires Partial(s, n, q, i, rest) && i <= places && (rest == 0 || i == places) && |s| == decimal_point + i
    requires rest == 0 || 2 * rest < Two(q - i)
    ensures FixedDigits(s, decimal_point, places, n, q)
  {
    hide Two, Pow10, Dec;
    Stopped(s, n, q, i, rest, places);
    if s == [] {
      DecZeros(s);
      MulZero(Pow10(places - i));
    }
  }

  /** The first bit left over rounds the digits up. */
  method Finish(buffer: array<char>, length0: nat, decimal_point0: int, up: bool, ghost n: nat, ghost q: nat,
      ghost i: nat, ghost rest: nat, ghost places: nat) returns (length: nat, decimal_point: int)
    requires length0 <= buffer.Length && 0 < buffer.Length && length0 == decimal_point0 + i && decimal_point0 >= 0
    requires Partial(buffer[..length0], n, q, i, rest) && i <= places && (rest == 0 || i == places)
    requires up <==> rest > 0 && 2 * rest >= Two(q - i)
    modifies buffer
    ensures length <= buffer.Length && FixedDigits(buffer[..length], decimal_point, places, n, q)
  {
    hide Two, Dec, Pow10;
    ghost var s := buffer[..length0];
    length, decimal_point := length0, decimal_point0;
    if up {
      Stopped(s, n, q, i, rest, places);
      length, decimal_point := RoundUp(buffer, length0, decimal_point0);
      TenIs();
      if length0 == 0 {
        DecZeros(s);
        DecSingle(buffer[..1]);
      }
    } else {
      Kept(s, n, q, i, rest, places, decimal_point);
    }
  }

  /** The fraction fits 64 bits: multiplying by 5 instead of 10 keeps it there.  last_point is where the
      point is when the bit after it decides the rounding, and left is what remains then.  The shift by
      point - 1 has a negative amount exactly for fractions whose last bit is set and has its own place
      among the requested ones; nothing remains of these. */
  method FillFractionals64(fractionals0: uint64, exponent: int, fractional_count: nat, buffer: array<char>,
      length0: nat, ghost n: nat) returns (length: nat, decimal_point: int, ghost last_point: nat, ghost left: nat)
    requires -64 <= exponent <= 0 && fractionals0 < FIFTY_SIX
    requires length0 + fractional_count <= buffer.Length && 0 < buffer.Length && length0 <= buffer.Length
    requires Partial(buffer[..length0], n, 0 - exponent, 0, fractionals0)
    modifies buffer
    ensures length <= buffer.Length && FixedDigits(buffer[..length], decimal_point, fractional_count, n, 0 - exponent)
    ensures last_point == 0 ==> left == 0
    ensures last_point == 0 <==> 0 - exponent <= fractional_count && (exponent == 0 || Odd(fractionals0))
  {
    hide Dec, Pow10, Two, Partial, Odd;
    ghost var q: nat := 0 - exponent;
    var fractionals: uint64 := fractionals0;
    var point: int := 0 - exponent;
    length := length0;
    var i := 0;
    OneBit(buffer[..length], n, q, i, fractionals);
    while i < fractional_count && fractionals != 0
      invariant 0 <= i <= fractional_count && length == length0 + i && point == q - i
      invariant i <= q && Partial(buffer[..length], n, q, i, fractionals)
      invariant fractionals <= (if i == 0 then 1 else if i == 1 then 5 else 25) * FIFTY_SIX || i > 2
      invariant i + 1 == q ==> (Odd(fractionals) <==> fractionals != 0)
      invariant Odd(fractionals) ==> fractionals != 0
      invariant i < q ==> (Odd(fractionals) <==> Odd(fractionals0))
      invariant i == q ==> q == 0 || Odd(fractionals0)
      decreases fractional_count - i
    {
      ghost var s := buffer[..length];
      FractionFits(s, n, q, i, fractionals);
      NextPlace(s, n, q, i, fractionals);
      SameParity(fractionals, q - i - 1);
      fractionals := fractionals * 5;
      point := point - 1;
      var digit := fractionals / Two(point);
      buffer[length] := DigitChar(digit);
      assert buffer[..length + 1] == s + [DigitChar(digit)];
      length := length + 1;
      TakeDigit(fractionals, Two(point));
      fractionals := fractionals - digit * Two(point);
      i := i + 1;
      OneBit(buffer[..length], n, q, i, fractionals);
    }
    FirstBit(buffer[..length], n, q, i, fractionals);
    last_point, left := point, fractionals;
    // With point == 0 nothing is left, and there is no bit to look at.
    var up := point > 0 && fractionals / Two(point - 1) % 2 == 1;
    length, decimal_point := Finish(buffer, length, length0, up, n, q, i, fractionals, fractional_count);
  }

  const FIFTY_SIX: nat := 0x100_0000_0000_0000

  lemma TakeDigit(x: nat, p: nat)
    requires p > 0
    ensures x - x / p * p == x % p && 0 <= x / p * p <= x
  {
    DivModDefinition(x, p);
    QuotientAtMost(x, p);
    MulPositive(x / p, p);
  }

  lemma FractionFits(s: seq<char>, n: nat, q: nat, i: nat, rest: nat)
    requires Partial(s, n, q, i, rest) && q <= 64 && rest > 0
    requires rest <= (if i == 0 then 1 else if i == 1 then 5 else 25) * FIFTY_SIX || i > 2
    ensures rest * 5 < TWO64 && i < q
  {
    hide Two, Pow10, Dec;
    TwoNone();
    if i > 2 {
      TwoMonotone(q - i, 61);
      TwoTens();
      SixtyThree();
      TwoAdd(61, 1);
      TwoAdd(62, 1);
    }
  }

  predicate Odd(x: int) {
    x % 2 == 1
  }

  /** With one place to go, all that can remain is that bit; and zero is not odd. */
  lemma OneBit(s: seq<char>, n: nat, q: nat, i: nat, rest: nat)
    requires Partial(s, n, q, i, rest)
    ensures i == q ==> rest == 0
    ensures i + 1 == q ==> (Odd(rest) <==> rest != 0)
    ensures Odd(rest) ==> rest != 0
  {
    hide Pow10, Dec;
    TwoNone();
    TwoTens();
  }

  lemma SameParity(x: nat, p: nat)
    ensures p > 0 ==> (Odd(5 * x % Two(p)) <==> Odd(x))
  {
    hide Two;
    if p > 0 {
      var half, y := Two(p - 1), 5 * x / Two(p);
      DivModDefinition(5 * x, Two(p));
      TwoSucc(p - 1);
      MulAssociate(y, 2, half);
      MulAssociate(2, y, half);
      assert y * Two(p) == 2 * (y * half);
    }
  }

  /** Such a double: 2^51 + 1 / 2, with one place or more. */
  lemma NoBitLeft()
    ensures
      var d64 := 0x4320_0000_0000_0001;
      d64 < INFINITY && Exponent(d64) == -1 && Odd(Significand(d64))
  {}

  /** The first bit after the point is set exactly when at least half is left. */
  lemma FirstBit(s: seq<char>, n: nat, q: nat, i: nat, rest: nat)
    requires Partial(s, n, q, i, rest)
    ensures i <= q && (i == q ==> rest == 0)
    ensures i < q ==> (rest / Two(q - i - 1) % 2 == 1 <==> rest > 0 && 2 * rest >= Two(q - i))
  {
    hide Two, Pow10, Dec;
    TwoNone();
    if i < q {
      var p := Two(q - i - 1);
      TwoAdd(q - i - 1, 1);
      TwoTens();
      if rest < p { DivModUnique(rest, p, 0, rest); } else { DivModUnique(rest, p, 1, rest - p); }
    }
  }

  /** A smaller fraction needs 128 bits. */
  method FillFractionals128(fractionals: uint64, exponent: int, fractional_count: nat, buffer: array<char>,
      length0: nat, ghost n: nat) returns (length: nat, decimal_point: int)
    requires -128 <= exponent < -64 && fractionals < FIFTY_SIX && fractional_count < 64
    requires length0 + fractional_count <= buffer.Length && 0 < buffer.Length && length0 <= buffer.Length
    requires Partial(buffer[..length0], n, 0 - exponent, 0, fractionals)
    modifies buffer
    ensures length <= buffer.Length && FixedDigits(buffer[..length], decimal_point, fractional_count, n, 0 - exponent)
  {
    hide Dec, Pow10, Two, Partial, UInt128.Value;
    var fractionals128 := new UInt128(fractionals, 0);
    fractionals128.Shift(0 - exponent - 64);
    ghost var m: nat := n * Two(128 + exponent);
    Widened(fractionals128, buffer[..length0], n, fractionals, 0 - exponent);
    var point := 128;
    length := length0;
    var i := 0;
    while true
      invariant 0 <= i <= fractional_count && length == length0 + i && point == 128 - i
      invariant Partial(buffer[..length], m, 128, i, fractionals128.Value())
      invariant fractionals128.Value() <= (if i == 0 then 1 else if i == 1 then 5 else 25) * ONE_NINETEEN || i > 2
      decreases fractional_count - i
    {
      if i == fractional_count { break; }
      var zero := fractionals128.IsZero();
      if zero { break; }
      ghost var s, rest := buffer[..length], fractionals128.Value();
      WideFractionFits(s, m, i, rest);
      NextPlace(s, m, 128, i, rest);
      fractionals128.Multiply(5);
      point := point - 1;
      var digit := fractionals128.DivModPowerOf2(point);
      buffer[length] := DigitChar(digit);
      assert buffer[..length + 1] == s + [DigitChar(digit)];
      length := length + 1;
      i := i + 1;
      RemainderSmall(5 * rest, Two(point));
    }
    FirstBit(buffer[..length], m, 128, i, fractionals128.Value());
    var bit := fractionals128.BitAt(point - 1);
    length, decimal_point := Finish(buffer, length, length0, bit == 1, m, 128, i, fractionals128.Value(), fractional_count);
    Narrowed(buffer[..length], decimal_point, fractional_count, n, 0 - exponent);
  }

  const ONE_NINETEEN: nat := 0x80_0000_0000_0000_0000_0000_0000_0000

  lemma RemainderSmall(x: nat, p: nat)
    requires p > 0
    ensures x % p <= x
  {
    TakeDigit(x, p);
  }

  /** The same fraction with the binary point at bit 128. */
  lemma Widened(f128: UInt128, s: seq<char>, n: nat, f: nat, q: nat)
    requires 64 < q <= 128 && Partial(s, n, q, 0, f) && f < FIFTY_SIX
    requires f128.Value() == f * TWO64 / Two(q - 64)
    ensures 0 <= n * Two(128 - q)
    ensures Partial(s, n * Two(128 - q), 128, 0, f128.Value()) && f128.Value() <= ONE_NINETEEN
  {
    hide Two, Dec, Pow10, UInt128.Value;
    var k := Two(128 - q);
    SixtyThree();
    TwoNone();
    TenIs();
    TwoAdd(128 - q, q - 64);
    TwoAdd(q, 128 - q);
    MulAssociate(f, k, Two(q - 64));
    DivModUnique(f * TWO64, Two(q - 64), f * k, 0);
    MulDistribute(Dec(s) * Two(q), f, k);
    MulAssociate(Dec(s), Two(q), k);
    MulPositive(n, k);
    MulLess(f, Two(q), k);
    TwoMonotone(128 - q, 63);
    MulMonotone(f, k, FIFTY_SIX, UINT64_MSB);
  }

  lemma WideFractionFits(s: seq<char>, n: nat, i: nat, rest: nat)
    requires Partial(s, n, 128, i, rest) && i < 64
    requires rest <= (if i == 0 then 1 else if i == 1 then 5 else 25) * ONE_NINETEEN || i > 2
    ensures rest * 5 < TWO128
  {
    hide Two, Pow10, Dec;
    if i > 2 {
      TwoMonotone(128 - i, 125);
      SixtyThree();
      TwoAdd(64, 61);
      TwoTens();
      TwoAdd(61, 1);
      TwoAdd(62, 1);
    }
  }

  lemma Narrowed(s: seq<char>, decimal_point: int, places: nat, n: nat, q: nat)
    requires q <= 128 && 0 <= n * Two(128 - q) && FixedDigits(s, decimal_point, places, n * Two(128 - q), 128)
    ensures FixedDigits(s, decimal_point, places, n, q)
  {
    hide Two, Pow10, Denoted;
    var k := Two(128 - q);
    TwoAdd(q, 128 - q);
    MulAssociate(n, k, Pow10(places));
    MulAssociate(n, Pow10(places), k);
    RoundScale(Denoted(s, decimal_point, places), n * Pow10(places), Two(q), k);
  }

  // ----- trimming and the whole conversion -----

  /** Drops trailing and leading zeros without changing what the digits denote. */
  method TrimZeros(buffer: array<char>, length0: nat, decimal_point0: int, ghost places: nat)
      returns (length: nat, decimal_point: int)
    requires length0 <= buffer.Length && AllDigits(buffer[..length0])
    requires length0 > 0 ==> decimal_point0 + places >= length0
    modifies buffer
    ensures length <= length0 && AllDigits(buffer[..length])
    ensures length > 0 ==> buffer[0] != '0' && buffer[length - 1] != '0' && decimal_point + places >= length
    ensures Denoted(buffer[..length], decimal_point, places) == old(Denoted(buffer[..length0], decimal_point0, places))
  {
    hide Dec, Pow10, Denoted;
    length := TrimTrailing(buffer, length0, decimal_point0, places);
    decimal_point := decimal_point0;
    ghost var s := buffer[..length];
    var first_non_zero := 0;
    while first_non_zero < length && buffer[first_non_zero] == '0'
      invariant 0 <= first_non_zero <= length && forall k: nat :: k < first_non_zero ==> buffer[k] == '0'
    {
      first_non_zero := first_non_zero + 1;
    }
    LeadingZeros(s, first_non_zero, decimal_point0, places);
    if first_non_zero != 0 {
      MoveDown(buffer, first_non_zero, length);
      length := length - first_non_zero;
      decimal_point := decimal_point - first_non_zero;
      assert buffer[..length] == s[first_non_zero..];
      assert length > 0 ==> buffer[length - 1] == s[|s| - 1] && buffer[0] == s[first_non_zero];
    }
  }

  method TrimTrailing(buffer: array<char>, length0: nat, decimal_point: int, ghost places: nat) returns (length: nat)
    requires length0 <= buffer.Length && (length0 > 0 ==> decimal_point + places >= length0)
    ensures length <= length0 && (length > 0 ==> buffer[length - 1] != '0')
    ensures Denoted(buffer[..length], decimal_point, places) == Denoted(buffer[..length0], decimal_point, places)
  {
    hide Denoted;
    length := length0;
    while length > 0 && buffer[length - 1] == '0'
      invariant 0 <= length <= length0
      invariant Denoted(buffer[..length], decimal_point, places) == Denoted(buffer[..length0], decimal_point, places)
      decreases length
    {
      assert buffer[..length] == buffer[..length - 1] + ['0'];
      TrailingZero(buffer[..length - 1], decimal_point, places);
      length := length - 1;
    }
  }

  method MoveDown(buffer: array<char>, from: nat, length: nat)
    requires from <= length <= buffer.Length
    modifies buffer
    ensures buffer[..length - from] == old(buffer[from..length])
  {
    for i := from to length
      invariant forall k: nat :: k < i - from ==> buffer[k] == old(buffer[k + from])
      invariant forall k: nat :: i <= k < length ==> buffer[k] == old(buffer[k])
    {
      buffer[i - from] := buffer[i];
    }
  }

  lemma TrailingZero(s: seq<char>, decimal_point: int, places: nat)
    requires decimal_point + places >= |s| + 1
    ensures Denoted(s + ['0'], decimal_point, places) == Denoted(s, decimal_point, places)
  {
    hide Dec, Pow10;
    DecAppend(s, '0');
    TenSucc(decimal_point + places - |s| - 1);
    MulAssociate(Dec(s), 10, Pow10(decimal_point + places - |s| - 1));
    if s == [] {
      DecZeros(s);
      MulZero(Pow10(decimal_point + places - |s| - 1));
    }
  }

  lemma LeadingZeros(s: seq<char>, k: nat, decimal_point: int, places: nat)
    requires k <= |s| && (forall i: nat :: i < k ==> s[i] == '0') && (s != [] ==> decimal_point + places >= |s|)
    ensures Denoted(s[k..], decimal_point - k, places) == Denoted(s, decimal_point, places)
  {
    hide Dec, Pow10;
    assert s == s[..k] + s[k..];
    DecZeros(s[..k]);
    DecConcat(s[..k], s[k..]);
    MulZero(Pow10(|s| - k));
    if s != [] {
      DecZeros([]);
      MulZero(Pow10(decimal_point + places - |s|));
    }
  }

  /** The digits are the double rounded half-up at the given number of places after the point. */
  ghost predicate FixedFor(d64: nat, s: seq<char>, decimal_point: int, places: nat)
    requires d64 < INFINITY
  {
    && AllDigits(s) && (s != [] ==> decimal_point + places >= |s|)
    && RoundedHalfUp(Denoted(s, decimal_point, places), Units(d64) * Pow10(places), Two(UNIT))
  }

  /** The digits begin with the first one that is not zero; without digits the point stands for the
      requested places. */
  predicate StartsRight(s: seq<char>, decimal_point: int, places: nat) {
    if s == [] then decimal_point + places == 0 else s[0] != '0'
  }

  lemma FixedUnits(d64: nat, s: seq<char>, decimal_point: int, places: nat)
    requires d64 < INFINITY
    requires Exponent(d64) >= 0 ==> FixedDigits(s, decimal_point, places, Significand(d64) * Two(Exponent(d64)), 0)
    requires Exponent(d64) < 0 ==> FixedDigits(s, decimal_point, places, Significand(d64), 0 - Exponent(d64))
    ensures FixedFor(d64, s, decimal_point, places)
  {
    hide Two, Pow10, Denoted, Significand, Exponent;
    Ranges(d64);
    var f, e := Significand(d64), Exponent(d64);
    TwoNone();
    UnitsIs(d64);
    if e >= 0 {
      TwoAdd(e, UNIT);
      ToUnits(s, decimal_point, places, f * Two(e), 0, Two(UNIT));
      MulAssociate(f, Two(e), Two(UNIT));
    } else {
      TwoAdd(0 - e, UNIT + e);
      ToUnits(s, decimal_point, places, f, 0 - e, Two(UNIT + e));
    }
  }

  lemma UnitsIs(d64: nat)
    requires d64 < INFINITY
    ensures Units(d64) == Significand(d64) * Two(Exponent(d64) + UNIT)
  {}

  lemma ToUnits(s: seq<char>, decimal_point: int, places: nat, n: nat, q: nat, k: nat)
    requires k > 0 && FixedDigits(s, decimal_point, places, n, q)
    ensures RoundedHalfUp(Denoted(s, decimal_point, places), (n * k) * Pow10(places), Two(q) * k)
  {
    hide Two, Pow10, Denoted;
    MulAssociate(n, k, Pow10(places));
    MulAssociate(n, Pow10(places), k);
    RoundScale(Denoted(s, decimal_point, places), n * Pow10(places), Two(q), k);
  }

  /** Complete digits of an integer are exact at every number of places. */
  lemma Exactly(s: seq<char>, n: nat, places: nat)
    requires AllDigits(s) && Dec(s) == n
    ensures FixedDigits(s, |s|, places, n, 0)
  {
    hide Dec, Pow10, Two;
    TwoNone();
    if s == [] {
      DecZeros(s);
      MulZero(Pow10(places));
    }
  }

  lemma WholeDigits(before: seq<char>, after: seq<char>, length: nat, n: nat)
    requires Appended(before, after, 0, length, n)
    ensures AllDigits(after[..length]) && Dec(after[..length]) == n
  {
    assert after[0..length] == after[..length];
  }

  /** The fast fixed conversion: when it succeeds, which it does for every double below 2^73 and at
      most 20 places, the result is the exact value correctly rounded. */
  method FastFixedDtoa(d64: uint64, fractional_count: nat, buffer: array<char>)
      returns (ok: bool, length: nat, decimal_point: int)
    requires d64 < INFINITY && buffer.Length >= 36
    modifies buffer
    ensures ok <==> Exponent(d64) <= 20 && fractional_count <= 20
    ensures length <= buffer.Length && (ok ==> FixedFor(d64, buffer[..length], decimal_point, fractional_count))
    ensures ok ==> StartsRight(buffer[..length], decimal_point, fractional_count)
    ensures ok && length > 0 ==> buffer[length - 1] != '0'
  {
    hide Dec, Pow10, Two, Significand, Exponent, FixedDigits, FixedFor, Appended, Partial, Denoted;
    Ranges(d64);
    var significand: uint64 := Significand(d64);
    var exponent := Exponent(d64);
    if exponent > 20 { return false, 0, 0; }
    if fractional_count > 20 { return false, 0, 0; }
    if exponent + 53 > 64 {
      length := FillLarge(significand, exponent, buffer);
      decimal_point := length;
      Exactly(buffer[..length], significand * Two(exponent), fractional_count);
    } else if exponent >= 0 {
      length := FillInteger(significand, exponent, buffer);
      decimal_point := length;
      Exactly(buffer[..length], significand * Two(exponent), fractional_count);
    } else if exponent > -53 {
      length, decimal_point := FillMixed(significand, exponent, fractional_count, buffer);
    } else if exponent < -128 {
      length, decimal_point := 0, 0 - fractional_count;
      AllZeros(significand, exponent, fractional_count, buffer[..0], decimal_point);
    } else {
      OnlyFraction(buffer[..0], significand, exponent);
      if exponent >= -64 {
        ghost var last_point, left;
        length, decimal_point, last_point, left :=
          FillFractionals64(significand, exponent, fractional_count, buffer, 0, significand);
      } else {
        length, decimal_point := FillFractionals128(significand, exponent, fractional_count, buffer, 0, significand);
      }
    }
    FixedUnits(d64, buffer[..length], decimal_point, fractional_count);
    FixedShape(d64, buffer[..length], decimal_point, fractional_count);
    ghost var s, p := buffer[..length], decimal_point;
    length, decimal_point := TrimZeros(buffer, length, decimal_point, fractional_count);
    if length == 0 {
      NoneDenoted(buffer[..length], decimal_point, 0 - fractional_count, fractional_count);
      decimal_point := 0 - fractional_count;
    }
    FixedSame(d64, s, p, buffer[..length], decimal_point, fractional_count);
    ok := true;
  }

  lemma FixedShape(d64: nat, s: seq<char>, decimal_point: int, places: nat)
    requires d64 < INFINITY && FixedFor(d64, s, decimal_point, places)
    ensures AllDigits(s) && (s != [] ==> decimal_point + places >= |s|)
  {}

  lemma NoneDenoted(s: seq<char>, p: int, q: int, places: nat)
    requires s == []
    ensures Denoted(s, p, places) == Denoted(s, q, places)
  {}

  lemma FixedSame(d64: nat, s: seq<char>, p: int, t: seq<char>, q: int, places: nat)
    requires d64 < INFINITY && FixedFor(d64, s, p, places) && AllDigits(t) && (t != [] ==> q + places >= |t|)
    requires Denoted(t, q, places) == Denoted(s, p, places)
    ensures FixedFor(d64, t, q, places)
  {}

  /** Up to 2^73: the leading digits are the quotient by 10^17, the rest fits 64 bits. */
  method FillLarge(significand: uint64, exponent: int, buffer: array<char>) returns (length: nat)
    requires 11 < exponent <= 20 && significand < 2 * HIDDEN_BIT && buffer.Length >= 36
    modifies buffer
    ensures length <= 36 && AllDigits(buffer[..length]) && Dec(buffer[..length]) == significand * Two(exponent)
  {
    hide Dec, Pow10, Two, Appended;
    var five17: uint64 := 0xB1_A2BC_2EC5;
    var quotient: nat, remainder: nat;
    LargeParts(significand, exponent);
    if exponent > 17 {
      var dividend: uint64 := significand * Two(exponent - 17);
      quotient := dividend / five17;
      remainder := dividend % five17 * Two(17);
    } else {
      var divisor: uint64 := five17 * Two(17 - exponent);
      quotient := significand / divisor;
      remainder := significand % divisor * Two(exponent);
    }
    TenSevens();
    ghost var b0 := buffer[..];
    var l1 := FillDigits32(quotient, buffer, 0, 10);
    ghost var b1 := buffer[..];
    length := FillDigits64FixedLength(remainder, buffer, l1);
    AppendedMore(b0, b1, buffer[..], 0, l1, length, quotient, remainder);
    WholeDigits(b0, buffer[..], length, quotient * Pow10(17) + remainder);
    assert buffer[..][..length] == buffer[..length];
  }

  const FIVE17: nat := 0xB1_A2BC_2EC5

  lemma Seventeen()
    ensures Two(17) == 131072 && Pow10(17) == FIVE17 * 131072 && Two(3) == 8 && Two(5) == 32
  {
    hide Two, Pow10;
    TwoTens();
    TwoAdd(1, 1);
    TwoAdd(2, 1);
    TwoAdd(3, 2);
    TwoAdd(5, 2);
    TwoAdd(10, 7);
    TenSevens();
  }

  /** Dividing by 10^17 as by 5^17, with the powers of two moved out. */
  lemma LargeParts(f: nat, e: int)
    requires 11 < e <= 20 && f < 2 * HIDDEN_BIT
    ensures e > 17 ==>
      var dividend := f * Two(e - 17);
      && 0 <= dividend < TWO64 && 0 <= dividend / FIVE17 < TWO32 && 0 <= dividend % FIVE17 * Two(17) < Pow10(17) < TWO64
      && dividend / FIVE17 * Pow10(17) + dividend % FIVE17 * Two(17) == f * Two(e)
    ensures e <= 17 ==>
      var divisor := FIVE17 * Two(17 - e);
      && 0 < divisor < TWO64 && 0 <= f / divisor < TWO32 && 0 <= f % divisor * Two(e) < Pow10(17) < TWO64
      && f / divisor * Pow10(17) + f % divisor * Two(e) == f * Two(e)
  {
    hide Two, Pow10;
    Seventeen();
    if e > 17 { LargeShifted(f, e); } else { LargeDivisor(f, e); }
  }

  lemma LargeShifted(f: nat, e: int)
    requires 17 < e <= 20 && f < 2 * HIDDEN_BIT
    ensures
      var dividend := f * Two(e - 17);
      && 0 <= dividend < TWO64 && 0 <= dividend / FIVE17 < TWO32 && 0 <= dividend % FIVE17 * 131072 < FIVE17 * 131072
      && dividend / FIVE17 * (FIVE17 * 131072) + dividend % FIVE17 * 131072 == f * Two(e)
  {
    hide Two;
    Seventeen();
    TwoMonotone(e - 17, 3);
    MulMonotone(f, Two(e - 17), 2 * HIDDEN_BIT - 1, 8);
    MulPositive(f, Two(e - 17));
    TwoAdd(e - 17, 17);
    MulAssociate(f, Two(e - 17), 131072);
  }

  lemma LargeDivisor(f: nat, e: int)
    requires 11 < e <= 17 && f < 2 * HIDDEN_BIT
    ensures
      var divisor := FIVE17 * Two(17 - e);
      && 0 < divisor < TWO64 && 0 <= f / divisor < TWO32 && 0 <= f % divisor * Two(e) < FIVE17 * 131072
      && f / divisor * (FIVE17 * 131072) + f % divisor * Two(e) == f * Two(e)
  {
    hide Two;
    Seventeen();
    TwoMonotone(17 - e, 5);
    TwoMonotone(0, 17 - e);
    TwoNone();
    TwoAdd(17 - e, e);
    var divisor := FIVE17 * Two(17 - e);
    MulMonotone(FIVE17, Two(17 - e), FIVE17, 32);
    MulMonotone(FIVE17, 1, FIVE17, Two(17 - e));
    var q, r := f / divisor, f % divisor;
    DivModDefinition(f, divisor);
    QuotientAtMost(f, divisor);
    MulMonotone(q, FIVE17, q, divisor);
    MulDistribute(q * divisor, r, Two(e));
    MulAssociate(q, divisor, Two(e));
    MulAssociate(FIVE17, Two(17 - e), Two(e));
    MulLess(r, divisor, Two(e));
    MulPositive(r, Two(e));
  }

  method FillInteger(significand: uint64, exponent: int, buffer: array<char>) returns (length: nat)
    requires 0 <= exponent <= 11 && significand < 2 * HIDDEN_BIT && buffer.Length >= 36
    modifies buffer
    ensures length <= 36 && AllDigits(buffer[..length]) && Dec(buffer[..length]) == significand * Two(exponent)
  {
    hide Dec, Pow10, Two, Appended;
    IntegerFits(significand, exponent);
    TenSevens();
    ghost var b0 := buffer[..];
    length := FillDigits64(significand * Two(exponent), buffer, 0, 20);
    WholeDigits(b0, buffer[..], length, significand * Two(exponent));
    assert buffer[..][..length] == buffer[..length];
  }

  lemma IntegerFits(significand: nat, exponent: nat)
    requires exponent <= 11 && significand < 2 * HIDDEN_BIT
    ensures 0 <= significand * Two(exponent) < TWO64
  {
    hide Two;
    TwoTens();
    TwoAdd(10, 1);
    TwoMonotone(exponent, 11);
    MulMonotone(significand, Two(exponent), 2 * HIDDEN_BIT - 1, 2048);
    MulPositive(significand, Two(exponent));
  }

  /** An integral part and a fraction. */
  method FillMixed(significand: uint64, exponent: int, fractional_count: nat, buffer: array<char>)
      returns (length: nat, decimal_point: int)
    requires -53 < exponent < 0 && significand < 2 * HIDDEN_BIT && buffer.Length >= 36 && fractional_count <= 20
    modifies buffer
    ensures length <= buffer.Length && FixedDigits(buffer[..length], decimal_point, fractional_count, significand, 0 - exponent)
  {
    hide Dec, Pow10, Two, Appended, FixedDigits;
    var integrals: nat := significand / Two(0 - exponent);
    MixedParts(significand, 0 - exponent);
    var fractionals := significand - integrals * Two(0 - exponent);
    TenSevens();
    ghost var b0 := buffer[..];
    if integrals > 0xFFFFFFFF {
      length := FillDigits64(integrals, buffer, 0, 16);
    } else {
      length := FillDigits32(integrals, buffer, 0, 10);
    }
    WholeDigits(b0, buffer[..], length, integrals);
    assert buffer[..][..length] == buffer[..length];
    MixedPartial(buffer[..length], significand, 0 - exponent, integrals, fractionals);
    ghost var last_point, left;
    length, decimal_point, last_point, left :=
      FillFractionals64(fractionals, exponent, fractional_count, buffer, length, significand);
  }

  lemma MixedParts(significand: nat, q: nat)
    requires 0 < q < 53 && significand < 2 * HIDDEN_BIT
    ensures 0 <= significand / Two(q) <= significand
    ensures 0 <= significand - significand / Two(q) * Two(q) == significand % Two(q) < Two(q)
  {
    hide Two;
    TakeDigit(significand, Two(q));
    QuotientAtMost(significand, Two(q));
    DivModDefinition(significand, Two(q));
  }

  lemma MixedPartial(s: seq<char>, n: nat, q: nat, integrals: nat, fractionals: nat)
    requires AllDigits(s) && Dec(s) == integrals && n == integrals * Two(q) + fractionals && fractionals < Two(q)
    ensures Partial(s, n, q, 0, fractionals)
  {
    hide Dec, Pow10, Two;
    TenIs();
    TwoNone();
  }

  lemma OnlyFraction(s: seq<char>, significand: nat, exponent: int)
    requires s == [] && exponent <= -53 && significand < 2 * HIDDEN_BIT
    ensures Partial(s, significand, 0 - exponent, 0, significand)
  {
    hide Two;
    DecZeros(s);
    TwoMonotone(53, 0 - exponent);
    FiftyThree();
    MulZero(Two(0 - exponent));
    MixedPartial(s, significand, 0 - exponent, 0, significand);
  }

  lemma FiftyThree()
    ensures Two(53) == 2 * HIDDEN_BIT
  {
    hide Two;
    TwoTens();
    TwoAdd(10, 10);
    TwoAdd(20, 20);
    TwoAdd(40, 10);
    TwoAdd(50, 1);
    TwoAdd(51, 1);
    TwoAdd(52, 1);
  }

  /** Below 2^-76 nothing shows at 20 places. */
  lemma AllZeros(significand: nat, exponent: int, places: nat, s: seq<char>, decimal_point: int)
    requires exponent < -128 && significand < 2 * HIDDEN_BIT && places <= 20 && s == []
    ensures FixedDigits(s, decimal_point, places, significand, 0 - exponent)
  {
    hide Two, Pow10;
    TenSevens();
    TenMonotone(places, 20);
    FiftyThree();
    SixtyThree();
    TwoMonotone(129, 0 - exponent);
    TwoAdd(64, 65);
    TwoAdd(64, 1);
    TwoTens();
    MulMonotone(significand, Pow10(places), 2 * HIDDEN_BIT, 1_0000_0000_0000_0000_0000);
  }
}
