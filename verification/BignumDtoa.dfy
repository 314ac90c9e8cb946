/** Exact digit generation on bignums (bignum-dtoa.cc). */
module BignumDtoa {
  import opened Words
  import opened Bigits
  import opened Bignums
  import opened BignumArithmetic
  import opened Decimal
  import opened ShortestDigits
  import opened Powers

  ghost predicate AllApart(a: Bignum, b: Bignum, c: Bignum, d: Bignum)
    reads a, b, c, d
  {
    a.Apart(b) && a.Apart(c) && a.Apart(d) && b.Apart(c) && b.Apart(d) && c.Apart(d)
  }

  /** The scaled remainder after k digits with value s: n * 10^k == (10 * s) * d + rest. */
  ghost predicate Progress(n: nat, d: nat, s: int, L: nat, rest: int) {
    n * L == (10 * s) * d + rest && 0 <= rest < 10 * d
  }

  method GenerateShortestDigits(numerator: Bignum, denominator: Bignum,
      delta_minus: Bignum, delta_plus0: Bignum, is_even: bool, buffer: array<char>,
      ghost room: nat) returns (length: nat)
    requires numerator.Ok() && denominator.Ok() && delta_minus.Ok() && delta_plus0.Ok()
    requires AllApart(numerator, denominator, delta_minus, delta_plus0)
    requires InRange(numerator.Value(), denominator.Value(), delta_minus.Value(), delta_plus0.Value(), is_even)
    requires 10 * denominator.Value() < P(CAPACITY)
    requires 0 < room <= buffer.Length
    requires denominator.Value() < (delta_minus.Value() + delta_plus0.Value()) * Pow10(room - 1)
    modifies buffer
    modifies numerator, numerator.bigits, delta_minus, delta_minus.bigits, delta_plus0, delta_plus0.bigits
    ensures length <= room
    ensures Shortest(buffer[..length], old(numerator.Value()), old(denominator.Value()),
                     old(delta_minus.Value()), old(delta_plus0.Value()), is_even)
  {
    hide Eval, P, Pow, Pow10, Dec, Inside, NoShorter, Best, Shortest;
    hide Bignum.Value, Bignum.Valid, Bignum.Clamped;
    ghost var n, dm, dp := numerator.Value(), delta_minus.Value(), delta_plus0.Value();
    // Deltas of the same value are kept in one object.
    var delta_plus := delta_plus0;
    var same := Bignum.Equal(delta_minus, delta_plus);
    if same { delta_plus := delta_minus; }
    length := DigitLoop(numerator, denominator, delta_minus, delta_plus, is_even, buffer, n, dm, dp, room);
  }

  method DigitLoop(numerator: Bignum, denominator: Bignum, delta_minus: Bignum, delta_plus: Bignum,
      is_even: bool, buffer: array<char>, ghost n: nat, ghost dm: nat, ghost dp: nat,
      ghost room: nat) returns (length: nat)
    requires numerator.Ok() && denominator.Ok() && delta_minus.Ok() && delta_plus.Ok()
    requires DigitObjects(numerator, denominator, delta_minus, delta_plus)
    requires n == numerator.Value() && dm == delta_minus.Value() && dp == delta_plus.Value()
    requires InRange(n, denominator.Value(), dm, dp, is_even)
    requires 10 * denominator.Value() < P(CAPACITY)
    requires 0 < room <= buffer.Length && denominator.Value() < (dm + dp) * Pow10(room - 1)
    modifies buffer
    modifies numerator, numerator.bigits, delta_minus, delta_minus.bigits, delta_plus, delta_plus.bigits
    ensures length <= room
    ensures Shortest(buffer[..length], n, denominator.Value(), dm, dp, is_even)
  {
    hide Eval, P, Pow, Pow10, Dec, Inside, NoShorter, Best, Shortest, Progress, InRange;
    hide Bignum.Value, Bignum.Valid, Bignum.Clamped;
    ghost var d := denominator.Value();
    length := 0;
    ghost var L := 1;
    RangeMeans(n, d, dm, dp, is_even);
    NoShorterAtStart(n, d, dm, dp, is_even);
    Start(n, d, buffer[..0]);
    while true
      invariant numerator.Ok() && delta_minus.Ok() && delta_plus.Ok() && denominator.Ok()
      invariant 0 <= length < room && (length > 0 ==> buffer[0] != '0')
      invariant L == Pow10(length) && AllDigits(buffer[..length])
      invariant Progress(n, d, Dec(buffer[..length]), L, numerator.Value())
      invariant delta_minus.Value() == dm * L < 10 * d && delta_plus.Value() == dp * L
      invariant NoShorter(n * L, d, dm * L, dp * L, is_even)
      invariant d == denominator.Value()
      decreases 10 * d - delta_minus.Value()
    {
      ghost var s0 := buffer[..length];
      var digit := EmitDigit(numerator, denominator, buffer, length, n, L);
      length := length + 1;
      ghost var s, r := 10 * Dec(s0) + digit, numerator.Value();
      DeltasPositive(dm, dp, L);
      Below(s, r, n * L, d, dm * L, dp * L, is_even);
      var in_delta_room_minus, in_delta_room_plus :=
        InDeltaRoom(numerator, denominator, delta_minus, delta_plus, is_even);
      if in_delta_room_minus || in_delta_room_plus {
        RoundLastDigit(numerator, denominator, in_delta_room_minus, in_delta_room_plus, buffer, length,
                       s0, s, n * L, dm * L, dp * L, is_even);
        IsShortest(buffer[..length], n, d, dm, dp, is_even, L);
        return;
      }
      NextPlace(n, d, dm, dp, s, digit, r, L, length, room, is_even);
      TimesTen(numerator, denominator, delta_minus, delta_plus);
      L := 10 * L;
    }
  }

  ghost predicate DigitObjects(numerator: Bignum, denominator: Bignum, delta_minus: Bignum, delta_plus: Bignum)
    reads numerator, denominator, delta_minus, delta_plus
  {
    && numerator.Apart(denominator) && numerator.Apart(delta_minus) && numerator.Apart(delta_plus)
    && denominator.Apart(delta_minus) && denominator.Apart(delta_plus)
    && (delta_minus == delta_plus || delta_minus.Apart(delta_plus))
  }

  /** Appends one quotient digit to the buffer. */
  method EmitDigit(numerator: Bignum, denominator: Bignum, buffer: array<char>, length: nat,
      ghost n: nat, ghost L: nat) returns (digit: nat)
    requires numerator.Ok() && denominator.Ok() && numerator.Apart(denominator)
    requires 10 * denominator.Value() < P(CAPACITY)
    requires length < buffer.Length && AllDigits(buffer[..length])
    requires Progress(n, denominator.Value(), Dec(buffer[..length]), L, numerator.Value())
    modifies numerator, numerator.bigits, buffer
    ensures numerator.Ok() && digit <= 9 && numerator.Value() < denominator.Value()
    ensures denominator.Ok() && denominator.Value() == old(denominator.Value())
    ensures buffer[..length + 1] == old(buffer[..length]) + [DigitChar(digit)]
    ensures AllDigits(buffer[..length + 1])
    ensures Dec(buffer[..length + 1]) == 10 * old(Dec(buffer[..length])) + digit
    ensures n * L == (10 * old(Dec(buffer[..length])) + digit) * denominator.Value() + numerator.Value()
  {
    hide Eval, P, Pow, Dec, Bignum.Value, Bignum.Valid, Bignum.Clamped;
    ghost var s0 := buffer[..length];
    ghost var large, same;
    digit, large, same := GenerateDigit(numerator, denominator);
    buffer[length] := DigitChar(digit);
    assert buffer[..length + 1] == s0 + [DigitChar(digit)];
    NextDigit(n, denominator.Value(), Dec(s0), L, digit, numerator.Value());
    DecAppend(s0, DigitChar(digit));
  }

  lemma IsShortest(s: seq<char>, n: nat, d: nat, dm: nat, dp: nat, even: bool, L: nat)
    requires |s| > 0 && AllDigits(s) && s[0] != '0' && L == Pow10(|s| - 1)
    requires Best(Dec(s), n * L, d, dm * L, dp * L, even)
    ensures Shortest(s, n, d, dm, dp, even)
  {}

  /** Scales the remainder and the deltas for the next digit; equal deltas may be one object. */
  method TimesTen(numerator: Bignum, denominator: Bignum, delta_minus: Bignum, delta_plus: Bignum)
    requires numerator.Ok() && denominator.Ok() && delta_minus.Ok() && delta_plus.Ok()
    requires numerator.Apart(delta_minus) && numerator.Apart(delta_plus)
    requires denominator.Apart(delta_minus) && denominator.Apart(delta_plus) && numerator.Apart(denominator)
    requires delta_minus == delta_plus || delta_minus.Apart(delta_plus)
    requires numerator.Value() < denominator.Value() && delta_minus.Value() <= denominator.Value()
    requires delta_plus.Value() <= denominator.Value() && 10 * denominator.Value() < P(CAPACITY)
    modifies numerator, numerator.bigits, delta_minus, delta_minus.bigits, delta_plus, delta_plus.bigits
    ensures numerator.Ok() && delta_minus.Ok() && delta_plus.Ok()
    ensures numerator.Value() == 10 * old(numerator.Value())
    ensures delta_minus.Value() == 10 * old(delta_minus.Value())
    ensures delta_plus.Value() == 10 * old(delta_plus.Value())
    ensures denominator.Ok() && denominator.Value() == old(denominator.Value())
  {
    hide Eval, P, Bignum.Value, Bignum.Valid, Bignum.Clamped;
    numerator.Times10();
    delta_minus.Times10();
    if delta_minus != delta_plus { delta_plus.Times10(); }
  }

  /** The last digit: kept, or incremented, which never turns a '9' over. */
  method RoundLastDigit(numerator: Bignum, denominator: Bignum, minus: bool, plus: bool, buffer: array<char>,
      length: nat, ghost s0: seq<char>, ghost s: int, ghost n: int, ghost dm: int, ghost dp: int, is_even: bool)
    requires numerator.Ok() && denominator.Ok() && (minus || plus)
    requires buffer != numerator.bigits as object && buffer != denominator.bigits as object
    requires 0 < length <= buffer.Length && AllDigits(buffer[..length])
    requires buffer[..length] == s0 + [buffer[length - 1]] && s == 10 * Dec(s0) + DigitOf(buffer[length - 1])
    requires n == s * denominator.Value() + numerator.Value() && numerator.Value() < denominator.Value()
    requires dm > 0 && dp > 0 && NoShorter(n, denominator.Value(), dm, dp, is_even)
    requires minus == Inside(s, n, denominator.Value(), dm, dp, is_even)
    requires plus == Inside(s + 1, n, denominator.Value(), dm, dp, is_even)
    requires length > 1 ==> buffer[0] != '0'
    modifies buffer
    ensures AllDigits(buffer[..length]) && buffer[0] != '0'
    ensures Best(Dec(buffer[..length]), n, denominator.Value(), dm, dp, is_even)
  {
    hide Eval, P, Pow, Dec, Inside, NoShorter, Best, Bignum.Value, Bignum.Valid, Bignum.Clamped;
    var digit := DigitOf(buffer[length - 1]);
    var up := RoundsUp(numerator, denominator, digit, minus, plus);
    DecAppend(s0, buffer[length - 1]);
    if up {
      RoundUp(s, numerator.Value(), n, denominator.Value(), dm, dp, is_even);
      buffer[length - 1] := DigitChar(digit + 1);
      assert buffer[..length] == s0 + [DigitChar(digit + 1)];
      DecAppend(s0, DigitChar(digit + 1));
    } else {
      RoundDown(s, numerator.Value(), n, denominator.Value(), dm, dp, is_even);
    }
    NotZero(buffer[..length], n, denominator.Value(), dm, dp, is_even);
  }

  /** One quotient digit; the remainder stays in the numerator.  The division's first assertion always
      holds here, the second (same) for all denominators that are not full. */
  method GenerateDigit(numerator: Bignum, denominator: Bignum) returns (digit: nat, ghost large: bool, ghost same: bool)
    requires numerator.Ok() && denominator.Ok() && numerator.Apart(denominator)
    requires numerator.Value() < 10 * denominator.Value() < P(CAPACITY)
    modifies numerator, numerator.bigits
    ensures numerator.Ok() && digit <= 9 && numerator.Value() < denominator.Value()
    ensures old(numerator.Value()) == digit * denominator.Value() + numerator.Value()
    ensures large && (NotFull(denominator.Value()) ==> same)
  {
    hide Eval, P;
    numerator.LengthBelow(CAPACITY);
    denominator.Positive();
    denominator.ValueBounds();
    ghost var n, d := numerator.Value(), denominator.Value();
    SmallQuotient(n, d, denominator.BigitLength(), denominator.bigits[denominator.used - 1]);
    if NotFull(d) { NotFullKeeps(n, d, denominator.BigitLength()); }
    digit, large, same := numerator.DivideModuloIntBignum(denominator);
    if digit >= 10 { MulLess(10, digit, d); }
  }

  /** Whether rounding down, and rounding up, stays within the interval. */
  method InDeltaRoom(numerator: Bignum, denominator: Bignum, delta_minus: Bignum, delta_plus: Bignum,
      is_even: bool) returns (minus: bool, plus: bool)
    requires numerator.Ok() && denominator.Ok() && delta_minus.Ok() && delta_plus.Ok()
    ensures minus <==> if is_even then numerator.Value() <= delta_minus.Value()
                       else numerator.Value() < delta_minus.Value()
    ensures plus <==> if is_even then numerator.Value() + delta_plus.Value() >= denominator.Value()
                      else numerator.Value() + delta_plus.Value() > denominator.Value()
  {
    if is_even {
      minus := Bignum.LessEqual(numerator, delta_minus);
    } else {
      minus := Bignum.Less(numerator, delta_minus);
    }
    var compare := Bignum.PlusCompare(numerator, delta_plus, denominator);
    plus := if is_even then compare >= 0 else compare > 0;
  }

  ghost predicate Tie(numerator: Bignum, denominator: Bignum)
    requires numerator.Valid() && denominator.Valid()
    reads numerator, numerator.bigits, denominator, denominator.bigits
  {
    2 * numerator.Value() == denominator.Value()
  }

  /** The rounding decision once at least one direction is allowed. */
  method RoundsUp(numerator: Bignum, denominator: Bignum, digit: nat, minus: bool, plus: bool)
      returns (up: bool)
    requires numerator.Ok() && denominator.Ok() && (minus || plus)
    ensures up ==> plus && (minus ==> 2 * numerator.Value() > denominator.Value() || Tie(numerator, denominator))
    ensures !up ==> minus && (plus ==> 2 * numerator.Value() < denominator.Value() || Tie(numerator, denominator))
    ensures Tie(numerator, denominator) && minus && plus ==> (up <==> digit % 2 == 1)
  {
    if minus && plus {
      var compare := Bignum.PlusCompare(numerator, numerator, denominator);
      if compare < 0 {
        up := false;
      } else if compare > 0 {
        up := true;
      } else {
        up := digit % 2 != 0;
      }
    } else {
      up := plus;
    }
  }

  lemma RangeMeans(n: nat, d: nat, dm: nat, dp: nat, even: bool)
    requires InRange(n, d, dm, dp, even)
    ensures n < 10 * d && dm > 0 && dp > 0 && dm < 10 * d
  {}

  lemma Start(n: nat, d: nat, s: seq<char>)
    requires s == [] && n < 10 * d
    ensures Pow10(0) == 1 && Progress(n, d, Dec(s), 1, n)
  {
    MulZero(d);
  }

  lemma DeltasPositive(dm: nat, dp: nat, L: nat)
    requires dm > 0 && dp > 0 && L > 0
    ensures dm * L > 0 && dp * L > 0
  {
    MulPositive(dm, L);
    MulPositive(dp, L);
  }

  lemma NextDigit(n: nat, d: nat, s: int, L: nat, digit: nat, r: nat)
    requires Progress(n, d, s, L, digit * d + r)
    ensures n * L == (10 * s + digit) * d + r
  {
    MulDistribute(10 * s, digit, d);
  }

  lemma NextScale(n: nat, d: nat, dm: nat, dp: nat, s: int, r: nat, L: nat, length: nat)
    requires n * L == s * d + r && r < d && length > 0 && L == Pow10(length - 1)
    ensures Progress(n, d, s, 10 * L, 10 * r) && 10 * L == Pow10(length)
    ensures n * (10 * L) == 10 * (n * L) && dm * (10 * L) == 10 * (dm * L) && dp * (10 * L) == 10 * (dp * L)
  {
    MulAssociate(n, L, 10);
    MulAssociate(dm, L, 10);
    MulAssociate(dp, L, 10);
    MulAssociate(10, s, d);
  }

  /** When neither rounding is possible yet, everything is ready for the next place. */
  lemma NextPlace(n: nat, d: nat, dm: nat, dp: nat, s: int, digit: nat, r: nat, L: nat, length: nat, room: nat, even: bool)
    requires InRange(n, d, dm, dp, even) && n * L == s * d + r && r < d && L > 0
    requires !(if even then r <= dm * L else r < dm * L)
    requires !(if even then r + dp * L >= d else r + dp * L > d)
    requires room > 0 && length > 0 && L == Pow10(length - 1) && d < (dm + dp) * Pow10(room - 1)
    ensures Progress(n, d, s, 10 * L, 10 * r) && 10 * L == Pow10(length) && length < room
    ensures dm * (10 * L) == 10 * (dm * L) && dp * (10 * L) == 10 * (dp * L) && 0 < dm * L <= d && dp * L <= d
    ensures NoShorter(n * (10 * L), d, dm * (10 * L), dp * (10 * L), even)
    ensures dm * (10 * L) < 10 * d
    ensures L == 1 && n * L == digit * d + r ==> digit != 0
  {
    hide Pow10, Inside, NoShorter, Progress;
    RangeMeans(n, d, dm, dp, even);
    DeltasPositive(dm, dp, L);
    Below(s, r, n * L, d, dm * L, dp * L, even);
    NoneInside(s, r, n * L, d, dm * L, dp * L, even);
    RoomForMore(d, dm, dp, L, length, room);
    FirstDigit(n, d, dm, dp, digit, r, L, even);
    NextScale(n, d, dm, dp, s, r, L, length);
  }

  lemma RoomForMore(d: nat, dm: nat, dp: nat, L: nat, length: nat, size: nat)
    requires size > 0 && length > 0 && dm * L + dp * L <= d < (dm + dp) * Pow10(size - 1)
    requires L == Pow10(length - 1)
    ensures length < size
  {
    MulDistribute(dm, dp, L);
    if length >= size {
      PowMonotone(10, size - 1, length - 1);
      MulMonotone(dm + dp, Pow10(size - 1), dm + dp, L);
    }
  }

  /** A first digit 0 is never kept without rounding up. */
  lemma FirstDigit(n: nat, d: nat, dm: nat, dp: nat, digit: nat, r: nat, L: nat, even: bool)
    requires InRange(n, d, dm, dp, even)
    requires if even then r + dp * L < d else r + dp * L <= d
    ensures L == 1 && n * L == digit * d + r ==> digit != 0
  {
    MulZero(d);
  }

  lemma NotZero(s: seq<char>, n: int, d: nat, dm: int, dp: int, even: bool)
    requires |s| > 0 && Best(Dec(s), n, d, dm, dp, even)
    ensures |s| == 1 ==> s[0] != '0'
  {
    assert !TensInside(0, n, d, dm, dp, even);
    if |s| == 1 && s[0] == '0' {
      assert s == [] + ['0'];
      DecAppend([], '0');
    }
  }

  // ----- a requested number of digits -----

  /** v is a / b rounded to the nearest integer, halves upwards. */
  ghost predicate RoundedHalfUp(v: int, a: int, b: int) {
    2 * v * b <= 2 * a + b < 2 * v * b + 2 * b
  }

  /** count digits of numerator / denominator, correctly rounded; a carry out of the first digit
      moves the decimal point. */
  method GenerateCountedDigits(count: nat, decimal_point0: int, numerator: Bignum, denominator: Bignum,
      buffer: array<char>) returns (length: nat, decimal_point: int)
    requires numerator.Ok() && denominator.Ok() && numerator.Apart(denominator)
    requires numerator.Value() < 10 * denominator.Value() < P(CAPACITY)
    requires 0 < count <= buffer.Length
    modifies numerator, numerator.bigits, buffer
    ensures length == count && AllDigits(buffer[..count])
    ensures decimal_point0 <= decimal_point <= decimal_point0 + 1
    ensures RoundedHalfUp(Dec(buffer[..count]) * (if decimal_point == decimal_point0 then 1 else 10),
              old(numerator.Value()) * Pow10(count - 1), old(denominator.Value()))
    ensures old(numerator.Value() >= denominator.Value()) ==> buffer[0] != '0'
  {
    hide Eval, P, Pow, Dec, Bignum.Value, Bignum.Valid, Bignum.Clamped;
    ghost var n, d := numerator.Value(), denominator.Value();
    ghost var L := 1;
    Start(n, d, buffer[..0]);
    for i := 0 to count - 1
      invariant numerator.Ok() && denominator.Ok() && d == denominator.Value()
      invariant L == Pow10(i) && AllDigits(buffer[..i])
      invariant Progress(n, d, Dec(buffer[..i]), L, numerator.Value())
      invariant i > 0 && n >= d ==> buffer[0] != '0'
    {
      var digit := EmitDigit(numerator, denominator, buffer, i, n, L);
      LeadingQuotient(n, d, digit, numerator.Value(), L);
      NextScale(n, d, 0, 0, Dec(buffer[..i + 1]), numerator.Value(), L, i + 1);
      numerator.Times10();
      L := 10 * L;
    }
    ghost var s0 := buffer[..count - 1];
    var digit := EmitDigit(numerator, denominator, buffer, count - 1, n, L);
    LeadingQuotient(n, d, digit, numerator.Value(), L);
    var compare := Bignum.PlusCompare(numerator, numerator, denominator);
    ghost var s := Dec(buffer[..count]);
    HalfUp(s, numerator.Value(), n * L, d);
    if compare >= 0 {
      buffer[count - 1] := ((digit + 1) + '0' as int) as char;
      assert buffer[..count] == s0 + [((digit + 1) + '0' as int) as char];
      DecAppend(s0, ((digit + 1) + '0' as int) as char);
    }
    assert AllDigits(buffer[..count - 1]) by { assert buffer[..count - 1] == s0; }
    length := count;
    var overflow := PropagateCarry(buffer, count);
    decimal_point := if overflow then decimal_point0 + 1 else decimal_point0;
  }

  lemma LeadingQuotient(n: nat, d: nat, digit: nat, r: nat, L: nat)
    requires r < d
    ensures L == 1 && n * L == digit * d + r && n >= d ==> digit != 0
  {
    MulZero(d);
  }

  lemma HalfUp(s: int, r: nat, n: int, d: nat)
    requires n == s * d + r && r < d
    ensures 2 * r >= d ==> RoundedHalfUp(s + 1, n, d)
    ensures 2 * r < d ==> RoundedHalfUp(s, n, d)
  {
    MulDistribute(s, 1, d);
    MulAssociate(2, s, d);
    MulAssociate(2, s + 1, d);
  }

  /** Digits up to requested_digits places after the point.  The result, if any digits are
      produced, is the number rounded half-up at that place; otherwise it rounds to zero. */
  method BignumToFixed(requested_digits: nat, decimal_point0: int, numerator: Bignum, denominator: Bignum,
      buffer: array<char>) returns (length: nat, decimal_point: int)
    requires numerator.Ok() && denominator.Ok() && numerator.Apart(denominator)
    requires numerator.Value() < 10 * denominator.Value() && 100 * denominator.Value() < P(CAPACITY)
    requires 1 <= buffer.Length && decimal_point0 + requested_digits <= buffer.Length
    modifies numerator, numerator.bigits, denominator, denominator.bigits, buffer
    ensures length <= buffer.Length && AllDigits(buffer[..length])
    ensures decimal_point + requested_digits >= length && (length == 0 ==> decimal_point + requested_digits == 0)
    ensures ExactFixed(buffer[..length], decimal_point + requested_digits - length,
              old(numerator.Value()), old(denominator.Value()), decimal_point0 - 1 + requested_digits)
    ensures old(numerator.Value()) >= old(denominator.Value()) && length > 0 ==> buffer[0] != '0'
  {
    hide Eval, P, Pow, Dec, Bignum.Value, Bignum.Valid, Bignum.Clamped;
    ghost var n, d := numerator.Value(), denominator.Value();
    if -decimal_point0 > requested_digits {
      TooSmall(buffer[..0], n, d, decimal_point0 - 1 + requested_digits);
      return 0, 0 - requested_digits;
    }
    if -decimal_point0 == requested_digits {
      denominator.Times10();
      var compare := Bignum.PlusCompare(numerator, numerator, denominator);
      LastPlace(n, d);
      if compare >= 0 {
        buffer[0] := '1';
        assert buffer[..1] == "1";
        return 1, decimal_point0 + 1;
      }
      return 0, decimal_point0;
    }
    length, decimal_point := GenerateCountedDigits(decimal_point0 + requested_digits, decimal_point0,
                                                   numerator, denominator, buffer);
    CountedIsFixed(buffer[..length], decimal_point - decimal_point0, n, d, length);
  }

  /** The digits s, scaled by 10^zeros, are n / d * 10^places rounded half-up; no digits are zero. */
  ghost predicate ExactFixed(s: seq<char>, zeros: int, n: nat, d: nat, places: int) {
    && (s != [] ==> 0 <= zeros)
    && RoundedHalfUp(if s == [] then 0 else Dec(s) * Pow10(zeros),
         n * Pow10(if places > 0 then places else 0), d * Pow10(if places < 0 then -places else 0))
  }

  lemma TooSmall(s: seq<char>, n: nat, d: nat, places: int)
    requires s == [] && n < 10 * d && places <= -2
    ensures forall zeros :: ExactFixed(s, zeros, n, d, places)
  {
    PowMonotone(10, 2, -places);
    assert Pow(10, 2) == 100;
    MulMonotone(d, 100, d, Pow10(-places));
  }

  lemma LastPlace(n: nat, d: nat)
    requires n < 10 * d
    ensures 2 * n >= 10 * d ==> ExactFixed("1", 0, n, d, -1)
    ensures 2 * n < 10 * d ==> forall zeros :: ExactFixed([], zeros, n, d, -1)
  {
    assert "1" == [] + ['1'];
    DecAppend([], '1');
    PowNone(10);
    assert Pow10(1) == 10;
  }

  lemma CountedIsFixed(s: seq<char>, moved: int, n: nat, d: nat, count: nat)
    requires |s| == count > 0 && 0 <= moved <= 1
    requires RoundedHalfUp(Dec(s) * (if moved == 0 then 1 else 10), n * Pow10(count - 1), d)
    ensures ExactFixed(s, moved, n, d, count - 1)
  {
    assert Pow10(0) == 1 && Pow10(1) == 10;
  }
}
