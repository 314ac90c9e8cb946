/** The fixed-capacity bignum of bignum.cc: 128 cells of 28 bits and an exponent counting whole
    zero digits.  Every method works in place on the cells; every contract speaks about the
    number denoted. */
module Bignums {
  import opened Words
  import opened Bigits
  import opened Powers
  import opened Decimal
  import opened BignumArithmetic

  class Bignum {
    const bigits: array<uint32>
    var used: nat
    var exponent: nat

    ghost predicate Valid()
      reads this, bigits
    {
      Shaped() && (used == 0 ==> exponent == 0)
    }

    ghost predicate Shaped()
      reads this, bigits
    {
      && bigits.Length == CAPACITY
      && used <= CAPACITY
      && Proper(bigits[..])
      && (forall i :: used <= i < CAPACITY ==> bigits[i] == 0)
    }

    ghost predicate Clamped()
      reads this, bigits
      requires Valid()
    {
      used == 0 || bigits[used - 1] != 0
    }

    /** Valid, and without leading zero digits. */
    ghost predicate Ok()
      reads this, bigits
    {
      Valid() && Clamped()
    }

    /** The cells as a number, without the exponent. */
    ghost function Mantissa(): (v: nat)
      reads this, bigits
      requires Valid()
    {
      Eval(bigits[..], used)
    }

    ghost function Value(): (v: nat)
      reads this, bigits
      requires Valid()
    {
      Mantissa() * P(exponent)
    }

    ghost predicate Apart(other: Bignum)
      reads this, other
    {
      this != other && bigits != other.bigits
    }

    constructor ()
      ensures Ok() && fresh(bigits) && used == 0 && Value() == 0
    {
      bigits := new uint32[CAPACITY](_ => 0);
      used := 0;
      exponent := 0;
    }

    function BigitLength(): (n: nat)
      reads this
    {
      used + exponent
    }

    method Zero()
      requires Valid()
      modifies this, bigits
      ensures Ok() && used == 0 && Value() == 0
    {
      for i := 0 to used
        modifies bigits
        invariant Valid()
        invariant forall j :: 0 <= j < i ==> bigits[j] == 0
      {
        bigits[i] := 0;
      }
      used := 0;
      exponent := 0;
    }

    method Clamp()
      requires Shaped()
      modifies this
      ensures Ok()
      ensures Value() == old(Eval(bigits[..], used) * P(exponent))
      ensures used <= old(used) && (used > 0 ==> exponent == old(exponent))
    {
      while used > 0 && bigits[used - 1] == 0
        invariant used <= old(used) && exponent == old(exponent)
        invariant forall i :: used <= i < CAPACITY ==> bigits[i] == 0
        invariant Eval(bigits[..], used) == Eval(bigits[..], old(used))
      {
        assert bigits[used - 1] * P(used - 1) == 0;
        used := used - 1;
      }
      if used == 0 {
        assert Eval(bigits[..], 0) * P(exponent) == 0;
        exponent := 0;
      }
    }

    method AssignUInt16(value: uint16)
      requires Valid()
      modifies this, bigits
      ensures Ok() && Value() == value
      ensures exponent == 0 && used <= 1
    {
      Zero();
      if value == 0 { return; }
      bigits[0] := value;
      used := 1;
      EvalStep(bigits[..], 1);
    }

    method AssignUInt64(value: uint64)
      requires Valid()
      modifies this, bigits
      ensures Ok() && Value() == value
      ensures exponent == 0 && used <= 3
    {
      Zero();
      if value == 0 { return; }
      var rest := value;
      var i := 0;
      while i < 3
        invariant 0 <= i <= 3 && 0 <= rest
        invariant i == 0 ==> rest < TWO64
        invariant i == 1 ==> rest < 0x10_0000_0000
        invariant i == 2 ==> rest < 0x100
        invariant i == 3 ==> rest == 0
        invariant Proper(bigits[..])
        invariant forall j :: i <= j < CAPACITY ==> bigits[j] == 0
        invariant Eval(bigits[..], i) + rest * P(i) == value
        invariant used == 0 && exponent == 0
      {
        ghost var s := bigits[..];
        bigits[i] := rest % BASE;
        EvalSame(s, bigits[..], i);
        PSucc(i);
        MulDistribute(rest / BASE * BASE, rest % BASE, P(i));
        MulAssociate(rest / BASE, BASE, P(i));
        rest := rest / BASE;
        i := i + 1;
      }
      used := 3;
      assert Eval(bigits[..], used) * P(exponent) == value;
      Clamp();
    }

    method AssignBignum(other: Bignum)
      requires Valid() && other.Valid() && Apart(other)
      modifies this, bigits
      ensures Valid() && used == other.used && exponent == other.exponent
      ensures bigits[..] == other.bigits[..]
      ensures Value() == other.Value() && (other.Clamped() ==> Clamped())
    {
      exponent := other.exponent;
      var i := 0;
      while i < other.used
        modifies bigits
        invariant 0 <= i <= other.used
        invariant forall j :: 0 <= j < i ==> bigits[j] == other.bigits[j]
        invariant forall j :: i <= j < CAPACITY && used <= j ==> bigits[j] == 0
      {
        bigits[i] := other.bigits[i];
        i := i + 1;
      }
      while i < used
        modifies bigits
        invariant other.used <= i
        invariant forall j :: 0 <= j < other.used ==> bigits[j] == other.bigits[j]
        invariant forall j :: other.used <= j < CAPACITY && j < i ==> bigits[j] == 0
        invariant forall j :: used <= j < CAPACITY && other.used <= j ==> bigits[j] == 0
      {
        bigits[i] := 0;
        i := i + 1;
      }
      used := other.used;
      assert bigits[..] == other.bigits[..];
    }

    method MultiplyByUInt32(factor: uint32)
      requires Ok() && Mantissa() * factor < P(CAPACITY)
      modifies this, bigits
      ensures Ok() && Mantissa() == old(Mantissa()) * factor
      ensures used > 0 ==> exponent == old(exponent)
      ensures old(used) > 0 && factor > 0 ==> used > 0
      ensures Value() == old(Value()) * factor
    {
      hide Eval, P;
      if factor == 1 { return; }
      if factor == 0 {
        Zero();
        return;
      }
      if used == 0 {
        EvalNone(bigits[..]);
        MulZero(factor);
        MulZero(P(exponent));
        return;
      }
      ghost var s0 := bigits[..];
      var carry := ScaleCells32(factor);
      LeadingDigit(s0, used);
      Rescaled(Eval(s0, used), factor, used, exponent);
      SpreadCarry(carry, factor * Eval(s0, used));
    }

    /** The column loop of MultiplyByUInt32. */
    method ScaleCells32(factor: uint32) returns (carry: uint64)
      requires Valid() && factor > 0
      modifies bigits
      ensures Valid() && carry < factor
      ensures Eval(bigits[..], used) + carry * P(used) == factor * old(Eval(bigits[..], used))
    {
      hide Eval, P;
      ghost var s0 := bigits[..];
      carry := 0;
      MulZero(P(0));
      MulZero(factor);
      EvalNone(bigits[..]);
      EvalNone(s0);
      for i := 0 to used
        invariant Proper(bigits[..])
        invariant forall j :: i <= j < CAPACITY ==> bigits[j] == s0[j]
        invariant Eval(bigits[..], i) + carry * P(i) == factor * Eval(s0, i)
        invariant carry < factor
      {
        ghost var s, c := bigits[..], carry;
        MulPositive(factor, bigits[i]);
        MulGap(bigits[i], BASE, factor);
        var product: uint64 := factor * bigits[i] + carry;
        bigits[i] := product % BASE;
        carry := product / BASE;
        ScaledColumns(s0, s, bigits[..], i, factor, c, carry);
      }
    }

    /** The loops at the end of the multiplications: append the carry, digit by digit. */
    method SpreadCarry(c: uint64, ghost total: nat)
      requires Valid() && 0 < used
      requires Eval(bigits[..], used) + c * P(used) == total
      requires P(used - 1) <= total < P(CAPACITY)
      modifies this`used, bigits
      ensures Ok() && used > 0 && Mantissa() == total
    {
      hide Eval, P;
      var carry: uint64 := c;
      while carry != 0
        invariant Valid() && 0 < used && exponent == old(exponent)
        invariant Eval(bigits[..], used) + carry * P(used) == total
        invariant carry == 0 ==> P(used - 1) <= total
        decreases carry
      {
        ghost var s := bigits[..];
        SpreadRoom(Eval(s, used), carry, used, total);
        bigits[used] := carry % BASE;
        EvalAppend(s, bigits[..], used);
        SpreadStep(Eval(s, used), carry, P(used));
        PSucc(used);
        used := used + 1;
        PLess(used - 2, used - 1);
        carry := carry / BASE;
      }
      LeadingDigit(bigits[..], used);
    }

    method MultiplyByUInt64(factor: uint64)
      requires Ok() && Mantissa() * factor < P(CAPACITY)
      modifies this, bigits
      ensures Ok() && Mantissa() == old(Mantissa()) * factor
      ensures used > 0 ==> exponent == old(exponent)
      ensures old(used) > 0 && factor > 0 ==> used > 0
      ensures Value() == old(Value()) * factor
    {
      hide Eval, P;
      if factor == 1 { return; }
      if factor == 0 {
        Zero();
        return;
      }
      ghost var s0 := bigits[..];
      var carry := ScaleCells(factor);
      if used == 0 {
        NothingTimes(s0, bigits[..], factor, exponent);
        return;
      }
      LeadingDigit(s0, used);
      Rescaled(Eval(s0, used), factor, used, exponent);
      SpreadCarry(carry, factor * Eval(s0, used));
    }

    /** The column loop of MultiplyByUInt64. */
    method ScaleCells(factor: uint64) returns (carry: uint64)
      requires Valid() && factor > 0
      modifies bigits
      ensures Valid() && carry < factor
      ensures Eval(bigits[..], used) + carry * P(used) == factor * old(Eval(bigits[..], used))
    {
      hide Eval, P;
      ghost var s0 := bigits[..];
      carry := 0;
      var low: uint32, high: uint32 := factor % TWO32, factor / TWO32;
      MulZero(P(0));
      MulZero(factor);
      EvalNone(bigits[..]);
      EvalNone(s0);
      for i := 0 to used
        invariant Proper(bigits[..])
        invariant forall j :: i <= j < CAPACITY ==> bigits[j] == s0[j]
        invariant Eval(bigits[..], i) + carry * P(i) == factor * Eval(s0, i)
        invariant carry < factor
      {
        ghost var s, c := bigits[..], carry;
        WordProducts(low, high, factor, bigits[i], carry);
        var product_low: uint64 := low * bigits[i];
        var product_high: uint64 := high * bigits[i];
        var tmp: uint64 := carry % BASE + product_low;
        bigits[i] := tmp % BASE;
        carry := carry / BASE + tmp / BASE + product_high * 16;
        ScaledColumns(s0, s, bigits[..], i, factor, c, carry);
      }
    }

    method BigitsShiftLeft(shift_amount: nat)
      requires Ok() && 0 < used < CAPACITY && shift_amount < BIGIT_SIZE
      modifies this`used, bigits
      ensures Ok() && used > 0 && used <= old(used) + 1
      ensures Mantissa() == Pow(2, shift_amount) * old(Mantissa())
    {
      hide Eval, P;
      ghost var s0, p := bigits[..], Pow(2, shift_amount);
      var carry := ShiftCells(shift_amount);
      LeadingDigit(s0, used);
      MulLess(1, p, Eval(s0, used));
      ghost var s := bigits[..];
      if carry != 0 {
        bigits[used] := carry;
        EvalAppend(s, bigits[..], used);
        used := used + 1;
      } else {
        MulZero(P(used));
        LeadingDigit(s, used);
      }
    }

    /** The column loop of BigitsShiftLeft.  The 32-bit word really is shifted out of range
        before it is masked. */
    method ShiftCells(shift_amount: nat) returns (carry: uint32)
      requires Valid() && shift_amount < BIGIT_SIZE
      modifies bigits
      ensures Valid() && carry < BASE
      ensures Eval(bigits[..], used) + carry * P(used)
           == Pow(2, shift_amount) * old(Eval(bigits[..], used))
    {
      hide Eval, P, Pow;
      ghost var s0 := bigits[..];
      var p, q := Pow(2, shift_amount), Pow(2, BIGIT_SIZE - shift_amount);
      PowAdd(2, shift_amount, BIGIT_SIZE - shift_amount);
      BaseIsPow();
      carry := 0;
      MulZero(P(0));
      MulZero(p);
      EvalNone(bigits[..]);
      EvalNone(s0);
      for i := 0 to used
        invariant Proper(bigits[..])
        invariant forall j :: i <= j < CAPACITY ==> bigits[j] == s0[j]
        invariant Eval(bigits[..], i) + carry * P(i) == p * Eval(s0, i)
        invariant carry < p
      {
        ghost var s, c := bigits[..], carry;
        var bigit;
        bigit, carry := ShiftBigit(bigits[i], carry, p, q);
        bigits[i] := bigit;
        ScaledColumns(s0, s, bigits[..], i, p, c, carry);
      }
      ShiftCarry(p, q, carry);
    }

    method ShiftLeft(shift_amount: nat)
      requires Ok() && (used > 0 ==> used < CAPACITY)
      modifies this, bigits
      ensures Ok() && Value() == old(Value()) * Pow(2, shift_amount)
      ensures used <= old(used) + 1
      ensures used > 0 ==> exponent == old(exponent) + shift_amount / BIGIT_SIZE
    {
      hide Eval, P;
      if used == 0 {
        EvalNone(bigits[..]);
        MulZero(P(exponent));
        MulZero(Pow(2, shift_amount));
        return;
      }
      ghost var m, e := Mantissa(), exponent;
      exponent := exponent + shift_amount / BIGIT_SIZE;
      BigitsShiftLeft(shift_amount % BIGIT_SIZE);
      ShiftValue(m, e, shift_amount);
    }

    /** The two loops of Align: zero_digits zero cells below the others. */
    method MoveCellsUp(zero_digits: nat)
      requires Valid() && used + zero_digits <= CAPACITY
      modifies bigits
      ensures forall j :: 0 <= j < zero_digits ==> bigits[j] == 0
      ensures forall j :: zero_digits <= j < CAPACITY ==> bigits[j] == old(bigits[j - zero_digits])
    {
      ghost var s0 := bigits[..];
      var i := used;
      while i > 0
        invariant 0 <= i <= used
        invariant forall j :: 0 <= j < i ==> bigits[j] == s0[j]
        invariant forall j :: i + zero_digits <= j < CAPACITY ==> bigits[j] == s0[j - zero_digits]
      {
        i := i - 1;
        bigits[i + zero_digits] := bigits[i];
      }
      for i := 0 to zero_digits
        invariant forall j :: 0 <= j < i ==> bigits[j] == 0
        invariant forall j :: zero_digits <= j < CAPACITY ==> bigits[j] == s0[j - zero_digits]
      {
        bigits[i] := 0;
      }
    }

    /** Gives the cells the exponent of other, if that is smaller, by appending zero cells. */
    method Align(other: Bignum)
      requires Ok() && other.Valid() && Apart(other)
      requires used + exponent <= CAPACITY + other.exponent || exponent <= other.exponent
      modifies this, bigits
      ensures Ok() && Value() == old(Value()) && BigitLength() == old(BigitLength())
      ensures exponent == if old(exponent) > other.exponent then other.exponent else old(exponent)
    {
      if exponent > other.exponent {
        var zero_digits := exponent - other.exponent;
        ghost var s0 := bigits[..];
        MoveCellsUp(zero_digits);
        assert forall j :: 0 <= j < CAPACITY ==> bigits[j] == 0 || bigits[j] in s0;
        assert bigits[used + zero_digits - 1] == s0[used - 1];
        EvalShift(s0, bigits[..], zero_digits, used);
        PowAdd(BASE, zero_digits, other.exponent);
        MulAssociate(Eval(s0, used), P(zero_digits), P(other.exponent));
        used := used + zero_digits;
        exponent := exponent - zero_digits;
      }
    }

    method AddUInt64(operand: uint64)
      requires Ok()
      requires 1 + (if BigitLength() > 3 then BigitLength() else 3) <= CAPACITY
      modifies this, bigits
      ensures Ok() && Value() == old(Value()) + operand
      ensures exponent <= old(exponent)
    {
      if operand == 0 { return; }
      var other := new Bignum();
      other.AssignUInt64(operand);
      AddBignum(other);
    }

    method AddBignum(other: Bignum)
      requires Ok() && other.Ok() && Apart(other)
      requires var low := if exponent < other.exponent then exponent else other.exponent;
               1 + BigitLength() <= CAPACITY + low && 1 + other.BigitLength() <= CAPACITY + low
      modifies this, bigits
      ensures Ok() && Value() == old(Value()) + other.Value()
      ensures exponent <= old(exponent)
    {
      Align(other);
      AddAligned(other);
    }

    method AddAligned(other: Bignum)
      requires Ok() && other.Ok() && Apart(other) && exponent <= other.exponent
      requires 1 + BigitLength() <= CAPACITY + exponent && 1 + other.BigitLength() <= CAPACITY + exponent
      modifies this`used, bigits
      ensures Ok() && Value() == old(Value()) + other.Value()
    {
      hide Eval, P;
      ghost var s0, m, off := bigits[..], used, other.exponent - exponent;
      var carry, bigit_pos := AddCells(other, other.exponent - exponent);
      bigit_pos := CarryCells(other, carry, bigit_pos, s0, off);
      if bigit_pos > used {
        EvalZeros(s0, used, bigit_pos);
        used := bigit_pos;
      } else {
        EvalTail(s0, bigits[..], bigit_pos, used);
      }
      AddValue(Eval(s0, m), other.Mantissa(), off, exponent);
    }

    /** First loop of AddBignum: the digits of other. */
    method AddCells(other: Bignum, offset: nat) returns (carry: uint32, bigit_pos: nat)
      requires Valid() && other.Ok() && Apart(other)
      requires offset + other.used <= CAPACITY
      modifies bigits
      ensures Proper(bigits[..]) && bigit_pos == offset + other.used && carry <= 1
      ensures forall j :: bigit_pos <= j < CAPACITY ==> bigits[j] == old(bigits[j])
      ensures Eval(bigits[..], bigit_pos) + carry * P(bigit_pos)
           == old(Eval(bigits[..], offset + other.used)) + other.Mantissa() * P(offset)
      ensures if other.used > 0 then carry == 0 ==> bigits[bigit_pos - 1] != 0 else carry == 0
    {
      hide Eval, P;
      ghost var s0, o := bigits[..], other.bigits[..];
      carry, bigit_pos := 0, offset;
      MulZero(P(offset));
      EvalNone(o);
      for i := 0 to other.used
        invariant Proper(bigits[..]) && bigit_pos == offset + i && carry <= 1
        invariant forall j :: bigit_pos <= j < CAPACITY ==> bigits[j] == s0[j]
        invariant Eval(bigits[..], offset + i) + carry * P(offset + i)
               == Eval(s0, offset + i) + Eval(o, i) * P(offset)
        invariant i == other.used && i > 0 && carry == 0 ==> bigits[bigit_pos - 1] != 0
        invariant i == 0 ==> carry == 0
      {
        ghost var s, c := bigits[..], carry;
        var sum: uint32 := bigits[bigit_pos] + other.bigits[i] + carry;
        bigits[bigit_pos] := sum % BASE;
        carry := sum / BASE;
        EvalAppend(s, bigits[..], offset + i);
        EvalStep(s0, offset + i + 1);
        EvalStep(o, i + 1);
        AddStep(Eval(s, offset + i), Eval(s0, offset + i), Eval(o, i), s0[bigit_pos], o[i],
                c, sum % BASE, carry, offset, i);
        bigit_pos := bigit_pos + 1;
      }
    }

    /** Second loop of AddBignum: the carry. */
    method CarryCells(other: Bignum, c: uint32, pos: nat, ghost s0: seq<uint32>, ghost off: nat)
        returns (bigit_pos: nat)
      requires bigits.Length == CAPACITY && Proper(bigits[..]) && c <= 1
      requires used < CAPACITY && off + other.used < CAPACITY && pos == off + other.used
      requires other.Ok() && Apart(other)
      requires |s0| == CAPACITY && Proper(s0) && forall j :: used <= j < CAPACITY ==> s0[j] == 0
      requires forall j :: pos <= j < CAPACITY ==> bigits[j] == s0[j]
      requires Eval(bigits[..], pos) + c * P(pos) == Eval(s0, pos) + other.Mantissa() * P(off)
      requires other.used > 0 && c == 0 ==> bigits[pos - 1] != 0
      requires other.used == 0 ==> c == 0
      modifies bigits
      ensures pos <= bigit_pos <= CAPACITY && Proper(bigits[..])
      ensures forall j :: bigit_pos <= j < CAPACITY ==> bigits[j] == s0[j]
      ensures Eval(bigits[..], bigit_pos) == Eval(s0, bigit_pos) + other.Mantissa() * P(off)
      ensures if other.used > 0 then bigits[bigit_pos - 1] != 0 else bigit_pos == pos
    {
      hide Eval, P;
      var carry := c;
      bigit_pos := pos;
      ghost var k := other.Mantissa() * P(off);
      while carry != 0
        invariant pos <= bigit_pos <= CAPACITY && 0 <= carry <= 1 && Proper(bigits[..])
        invariant carry != 0 ==> bigit_pos <= used || bigit_pos == pos
        invariant forall j :: bigit_pos <= j < CAPACITY ==> bigits[j] == s0[j]
        invariant Eval(bigits[..], bigit_pos) + carry * P(bigit_pos) == Eval(s0, bigit_pos) + k
        invariant other.used > 0 && carry == 0 ==> bigits[bigit_pos - 1] != 0
        invariant other.used == 0 ==> carry == 0 && bigit_pos == pos
        decreases carry, CAPACITY - bigit_pos
      {
        ghost var s, c := bigits[..], carry;
        var sum: uint32 := bigits[bigit_pos] + carry;
        bigits[bigit_pos] := sum % BASE;
        carry := sum / BASE;
        EvalAppend(s, bigits[..], bigit_pos);
        EvalStep(s0, bigit_pos + 1);
        CarryStep(Eval(s, bigit_pos), Eval(s0, bigit_pos), k, s0[bigit_pos], c, sum % BASE,
                  carry, bigit_pos);
        bigit_pos := bigit_pos + 1;
      }
      MulZero(P(bigit_pos));
    }

    /** All digits, with the zeros the exponent stands for. */
    ghost function Digits(): (d: seq<uint32>)
      reads this, bigits
      requires Valid()
      ensures |d| == BigitLength() && Proper(d)
    {
      Virtual(bigits[..], used, exponent)
    }

    lemma DigitsValue()
      requires Valid()
      ensures Eval(Digits(), BigitLength()) == Value()
    {
      VirtualValue(bigits[..], used, exponent);
    }

    /** The length brackets the value from both sides. */
    lemma ValueBounds()
      requires Ok()
      ensures Value() < P(BigitLength())
      ensures used > 0 ==> P(BigitLength() - 1) <= bigits[used - 1] * P(BigitLength() - 1) <= Value()
      ensures used > 0 ==> Value() < bigits[used - 1] * P(BigitLength() - 1) + P(BigitLength() - 1)
    {
      DigitsValue();
      EvalBound(Digits(), BigitLength());
      if used > 0 {
        var n := BigitLength();
        assert Digits()[n - 1] == bigits[used - 1];
        EvalLeading(Digits(), n);
        EvalBound(Digits(), n - 1);
        EvalStep(Digits(), n);
      }
    }

    method BigitAt(index: nat, ghost d: seq<uint32>) returns (b: uint32)
      requires Valid() && d == Digits()
      ensures b == At(d, index)
    {
      if index >= BigitLength() { return 0; }
      if index < exponent { return 0; }
      return bigits[index - exponent];
    }

    static method Compare(a: Bignum, b: Bignum) returns (r: int)
      requires a.Ok() && b.Ok()
      ensures r == Sign(a.Value() - b.Value())
    {
      a.ValueBounds();
      b.ValueBounds();
      var bigit_length_a, bigit_length_b := a.BigitLength(), b.BigitLength();
      if bigit_length_a < bigit_length_b {
        PLess(bigit_length_a, bigit_length_b - 1);
        return -1;
      }
      if bigit_length_a > bigit_length_b {
        PLess(bigit_length_b, bigit_length_a - 1);
        return 1;
      }
      a.DigitsValue();
      b.DigitsValue();
      ghost var at;
      r, at := CompareColumns(a, b, a.Digits(), b.Digits());
      FirstDifference(a.Digits(), b.Digits(), at, r);
    }

    /** The digit loop of Compare. */
    static method CompareColumns(a: Bignum, b: Bignum, ghost da: seq<uint32>, ghost db: seq<uint32>)
        returns (r: int, ghost at: nat)
      requires a.Valid() && b.Valid() && a.BigitLength() == b.BigitLength()
      requires da == a.Digits() && db == b.Digits()
      ensures r == Sign(-Net(da, [], db, at, |db|))
      ensures r == 0 ==> AllZeroBelow(da, [], db, at)
    {
      var low := if a.exponent < b.exponent then a.exponent else b.exponent;
      var i := a.BigitLength();
      while i > low
        invariant low <= i || i == a.BigitLength()
        invariant Net(da, [], db, i, |db|) == 0
      {
        i := i - 1;
        var bigit_a := a.BigitAt(i, da);
        var bigit_b := b.BigitAt(i, db);
        assert bigit_a + Net(da, [], db, i, |db|) == bigit_b;
        if bigit_a < bigit_b { return -1, i; }
        if bigit_a > bigit_b { return 1, i; }
      }
      return 0, i;
    }

    static method Equal(a: Bignum, b: Bignum) returns (r: bool)
      requires a.Ok() && b.Ok()
      ensures r <==> a.Value() == b.Value()
    {
      var c := Compare(a, b);
      return c == 0;
    }

    static method Less(a: Bignum, b: Bignum) returns (r: bool)
      requires a.Ok() && b.Ok()
      ensures r <==> a.Value() < b.Value()
    {
      var c := Compare(a, b);
      return c < 0;
    }

    static method LessEqual(a: Bignum, b: Bignum) returns (r: bool)
      requires a.Ok() && b.Ok()
      ensures r <==> a.Value() <= b.Value()
    {
      var c := Compare(a, b);
      return c <= 0;
    }

    /** Compare(a + b, c) without computing the sum. */
    static method PlusCompare(a: Bignum, b: Bignum, c: Bignum) returns (r: int)
      requires a.Ok() && b.Ok() && c.Ok()
      ensures r == Sign(a.Value() + b.Value() - c.Value())
      decreases a.BigitLength() < b.BigitLength()
    {
      hide Eval, P, Bignum.Value, Bignum.Digits;
      if a.BigitLength() < b.BigitLength() {
        r := PlusCompare(b, a, c);
        return;
      }
      a.ValueBounds();
      b.ValueBounds();
      c.ValueBounds();
      if a.BigitLength() + 1 < c.BigitLength() {
        TooShort(a.Value(), b.Value(), c.Value(), a.BigitLength(), b.BigitLength(), c.BigitLength());
        return -1;
      }
      if a.BigitLength() > c.BigitLength() {
        PLess(c.BigitLength(), a.BigitLength() - 1);
        return 1;
      }
      if a.exponent >= b.BigitLength() && a.BigitLength() < c.BigitLength() {
        a.DisjointSum(b.Value(), b.BigitLength());
        PLess(a.BigitLength(), c.BigitLength() - 1);
        return -1;
      }
      a.DigitsValue();
      b.DigitsValue();
      c.DigitsValue();
      ghost var da, db, dc := a.Digits(), b.Digits(), c.Digits();
      ghost var at;
      r, at := PlusCompareColumns(a, b, c, da, db, dc);
      ColumnsDecide(da, db, dc, at, r);
    }

    /** The digit loop of PlusCompare; the borrow is 0 or 1 before each shift. */
    static method PlusCompareColumns(a: Bignum, b: Bignum, c: Bignum,
        ghost da: seq<uint32>, ghost db: seq<uint32>, ghost dc: seq<uint32>) returns (r: int, ghost at: nat)
      requires a.Valid() && b.Valid() && c.Valid()
      requires da == a.Digits() && db == b.Digits() && dc == c.Digits()
      requires b.BigitLength() <= a.BigitLength() <= c.BigitLength()
      ensures Decided(Net(da, db, dc, at, |dc|), r, AllZeroBelow(da, db, dc, at))
    {
      var borrow: uint32 := 0;
      var min_exponent := if a.exponent < b.exponent then a.exponent else b.exponent;
      min_exponent := if c.exponent < min_exponent then c.exponent else min_exponent;
      var i := c.BigitLength();
      ghost var ahead := 0;
      while i > min_exponent
        invariant min_exponent <= i || i == c.BigitLength()
        invariant 0 <= ahead <= 1 && ahead == Net(da, db, dc, i, |dc|)
        invariant borrow == 0x1000_0000 * ahead
      {
        i := i - 1;
        var chunk_a := a.BigitAt(i, da);
        var chunk_b := b.BigitAt(i, db);
        var chunk_c := c.BigitAt(i, dc);
        ahead := chunk_c + borrow - (chunk_a + chunk_b);
        assert ahead == Net(da, db, dc, i, |dc|);
        var sum: uint32 := chunk_a + chunk_b;
        if sum > chunk_c + borrow {
          return 1, i;
        } else {
          borrow := chunk_c + borrow - sum;
          if borrow > 1 { return -1, i; }
          borrow := borrow * BASE;
        }
      }
      assert AllZeroBelow(da, db, dc, i);
      if borrow == 0 { return 0, i; }
      return -1, i;
    }

    /** If the digits of this start above those of b, their sum is no longer than this. */
    lemma DisjointSum(b: nat, lb: nat)
      requires Ok() && b < P(lb) && lb <= exponent
      ensures Value() + b < P(BigitLength())
    {
      EvalBound(bigits[..], used);
      MulGap(Mantissa(), P(used), P(exponent));
      PowAdd(BASE, used, exponent);
      PLess(lb, exponent);
    }

    method SubtractBignum(other: Bignum)
      requires Ok() && other.Ok() && Apart(other)
      requires other.Value() <= Value()
      requires BigitLength() <= CAPACITY + other.exponent || exponent <= other.exponent
      modifies this, bigits
      ensures Ok() && Value() == old(Value()) - other.Value()
      ensures used > 0 ==> exponent == old(if exponent > other.exponent then other.exponent else exponent)
    {
      Align(other);
      NotLonger(other);
      SubtractAligned(other);
      Clamp();
    }

    method SubtractAligned(other: Bignum)
      requires Valid() && other.Ok() && Apart(other) && exponent <= other.exponent
      requires other.Value() <= Value() && other.BigitLength() <= BigitLength()
      modifies bigits
      ensures Shaped() && Eval(bigits[..], used) * P(exponent) == old(Value()) - other.Value()
    {
      hide Eval, P;
      ghost var s0, off := bigits[..], other.exponent - exponent;
      ghost var k := other.Mantissa() * P(off);
      AlignedOrder(Mantissa(), other.Mantissa(), off, exponent);
      var borrow := SubtractCells(other, other.exponent - exponent);
      BorrowCells(borrow, other.exponent - exponent + other.used, s0, k);
      AddValue(Eval(s0, used), other.Mantissa(), off, exponent);
    }

    /** A smaller number is no longer. */
    lemma NotLonger(other: Bignum)
      requires Ok() && other.Ok() && other.Value() <= Value()
      ensures other.BigitLength() <= BigitLength()
    {
      ValueBounds();
      other.ValueBounds();
      if other.BigitLength() > BigitLength() {
        PLess(BigitLength(), other.BigitLength() - 1);
      }
    }

    /** First loop of SubtractBignum. */
    method SubtractCells(other: Bignum, offset: nat) returns (borrow: uint32)
      requires Valid() && other.Ok() && Apart(other) && offset + other.used <= used
      modifies bigits
      ensures Proper(bigits[..]) && borrow <= 1
      ensures forall j :: offset + other.used <= j < CAPACITY ==> bigits[j] == old(bigits[j])
      ensures Eval(bigits[..], offset + other.used) + other.Mantissa() * P(offset)
           == old(Eval(bigits[..], offset + other.used)) + borrow * P(offset + other.used)
    {
      hide Eval, P;
      ghost var s0, o := bigits[..], other.bigits[..];
      borrow := 0;
      MulZero(P(offset));
      EvalNone(o);
      for i := 0 to other.used
        invariant Proper(bigits[..]) && borrow <= 1
        invariant forall j :: offset + i <= j < CAPACITY ==> bigits[j] == s0[j]
        invariant Eval(bigits[..], offset + i) + (1 * Eval(o, i)) * P(offset)
               == Eval(s0, offset + i) + borrow * P(offset + i)
      {
        ghost var s, br := bigits[..], borrow;
        var bigit;
        bigit, borrow := SubtractBigit(bigits[i + offset], other.bigits[i] + borrow);
        bigits[i + offset] := bigit;
        EvalAppend(s, bigits[..], offset + i);
        EvalStep(s0, offset + i + 1);
        EvalStep(o, i + 1);
        ColumnStep(Eval(s, offset + i), Eval(s0, offset + i), Eval(o, i), 1, s0[offset + i], o[i],
                   br, bigit, borrow, offset, i);
      }
    }

    /** Second loop of SubtractBignum: the borrow stops before the top. */
    method BorrowCells(b: uint32, pos: nat, ghost s0: seq<uint32>, ghost k: nat)
      requires Shaped() && pos <= used && b <= 1
      requires |s0| == CAPACITY && Proper(s0) && Eval(s0, used) >= k
      requires forall j :: pos <= j < CAPACITY ==> bigits[j] == s0[j]
      requires Eval(bigits[..], pos) + k == Eval(s0, pos) + b * P(pos)
      modifies bigits
      ensures Shaped()
      ensures Eval(bigits[..], used) == Eval(s0, used) - k
    {
      hide Eval, P;
      var borrow: uint32 := b;
      var i := pos;
      while borrow != 0
        invariant Shaped() && pos <= i <= used && 0 <= borrow <= 1
        invariant forall j :: i <= j < CAPACITY ==> bigits[j] == s0[j]
        invariant Eval(bigits[..], i) + k == Eval(s0, i) + borrow * P(i)
        decreases borrow, used - i
      {
        ghost var s, br := bigits[..], borrow;
        EvalBound(s, i);
        BorrowRoom(Eval(s, i), Eval(s0, i), k, borrow, i, used);
        var bigit;
        bigit, borrow := SubtractBigit(bigits[i], borrow);
        bigits[i] := bigit;
        EvalAppend(s, bigits[..], i);
        EvalStep(s0, i + 1);
        BorrowStep(Eval(s, i), Eval(s0, i), k, s0[i], br, bigit, borrow, i);
        i := i + 1;
      }
      EvalTail(s0, bigits[..], i, used);
    }

    lemma Positive()
      requires Ok()
      ensures used > 0 <==> Value() > 0
    {
      ValueBounds();
      if used == 0 { MulZero(P(exponent)); }
    }

    /** this := this - factor * other */
    method SubtractTimes(other: Bignum, factor: nat)
      requires Ok() && other.Ok() && Apart(other) && exponent <= other.exponent && other.used > 0
      requires factor <= TWO16 && factor * other.Value() <= Value()
      modifies this, bigits
      ensures Ok() && Value() == old(Value()) - factor * other.Value()
      ensures used > 0 ==> exponent == old(exponent)
    {
      other.Positive();
      if factor < 3 {
        for i := 0 to factor
          invariant Ok() && Value() == old(Value()) - i * other.Value()
          invariant used > 0 ==> exponent == old(exponent)
        {
          MulGap(i, factor, other.Value());
          MulDistribute(i, 1, other.Value());
          Positive();
          SubtractBignum(other);
        }
        return;
      }
      MulLess(1, factor, other.Value());
      NotLonger(other);
      var done := SubtractTimesAligned(other, factor);
      if !done { Clamp(); }
    }

    /** The two loops of SubtractTimes.  When the second stops early (done), the digits above are
        untouched and the number is still clamped. */
    method SubtractTimesAligned(other: Bignum, factor: nat) returns (done: bool)
      requires Ok() && other.Ok() && Apart(other) && exponent <= other.exponent
      requires factor <= TWO16 && factor * other.Value() <= Value() && other.BigitLength() <= BigitLength()
      modifies bigits
      ensures Shaped() && Eval(bigits[..], used) * P(exponent) == old(Value()) - factor * other.Value()
      ensures done ==> used > 0 && bigits[used - 1] != 0
    {
      hide Eval, P;
      ghost var s0, off := bigits[..], other.exponent - exponent;
      ghost var k := (factor * other.Mantissa()) * P(off);
      MulAssociate(factor, other.Mantissa(), P(other.exponent));
      AlignedOrder(Mantissa(), factor * other.Mantissa(), off, exponent);
      var borrow := SubtractTimesCells(other, factor, other.exponent - exponent);
      done := BorrowCellsEarly(borrow, other.exponent - exponent + other.used, s0, k);
      AddValue(Eval(s0, used), factor * other.Mantissa(), off, exponent);
    }

    method SubtractTimesCells(other: Bignum, factor: nat, offset: nat) returns (borrow: uint32)
      requires Valid() && other.Ok() && Apart(other) && offset + other.used <= used && factor <= TWO16
      modifies bigits
      ensures Proper(bigits[..]) && borrow <= factor
      ensures forall j :: offset + other.used <= j < CAPACITY ==> bigits[j] == old(bigits[j])
      ensures Eval(bigits[..], offset + other.used) + (factor * other.Mantissa()) * P(offset)
           == old(Eval(bigits[..], offset + other.used)) + borrow * P(offset + other.used)
    {
      hide Eval, P;
      ghost var s0, o := bigits[..], other.bigits[..];
      borrow := 0;
      MulZero(P(offset));
      MulZero(factor);
      EvalNone(o);
      for i := 0 to other.used
        invariant Proper(bigits[..]) && borrow <= factor
        invariant forall j :: offset + i <= j < CAPACITY ==> bigits[j] == s0[j]
        invariant Eval(bigits[..], offset + i) + (factor * Eval(o, i)) * P(offset)
               == Eval(s0, offset + i) + borrow * P(offset + i)
      {
        ghost var s, br := bigits[..], borrow;
        var bigit;
        bigit, borrow := SubtractProduct(bigits[i + offset], factor, other.bigits[i], borrow);
        bigits[i + offset] := bigit;
        EvalAppend(s, bigits[..], offset + i);
        EvalStep(s0, offset + i + 1);
        EvalStep(o, i + 1);
        ColumnStep(Eval(s, offset + i), Eval(s0, offset + i), Eval(o, i), factor, s0[offset + i], o[i],
                   br, bigit, borrow, offset, i);
      }
    }

    method BorrowCellsEarly(b: uint32, pos: nat, ghost s0: seq<uint32>, ghost k: nat) returns (done: bool)
      requires Shaped() && pos <= used && b <= BASE
      requires |s0| == CAPACITY && Proper(s0) && Eval(s0, used) >= k
      requires used > 0 ==> s0[used - 1] != 0
      requires forall j :: pos <= j < CAPACITY ==> bigits[j] == s0[j]
      requires Eval(bigits[..], pos) + k == Eval(s0, pos) + b * P(pos)
      modifies bigits
      ensures Shaped()
      ensures Eval(bigits[..], used) == Eval(s0, used) - k
      ensures done ==> used > 0 && bigits[used - 1] != 0
    {
      hide Eval, P;
      var borrow: uint32 := b;
      done := false;
      for i := pos to used
        invariant Shaped() && 0 <= borrow <= BASE
        invariant forall j :: i <= j < CAPACITY ==> bigits[j] == s0[j]
        invariant Eval(bigits[..], i) + k == Eval(s0, i) + borrow * P(i)
      {
        if borrow == 0 {
          EvalTail(s0, bigits[..], i, used);
          return true;
        }
        ghost var s, br := bigits[..], borrow;
        var bigit;
        bigit, borrow := SubtractBigit(bigits[i], borrow);
        bigits[i] := bigit;
        EvalAppend(s, bigits[..], i);
        EvalStep(s0, i + 1);
        BorrowStep(Eval(s, i), Eval(s0, i), k, s0[i], br, bigit, borrow, i);
      }
      EvalBound(bigits[..], used);
      NoBorrowLeft(Eval(bigits[..], used), Eval(s0, used), k, borrow, used);
    }

    /** Divides this by other: the quotient is returned, the remainder stays in this.  large and same say
        whether the debug assertions hold about other's first digit, checked for every leading digit
        that is removed, and about the equal length afterwards. */
    method DivideModuloIntBignum(other: Bignum) returns (result: uint16, ghost large: bool, ghost same: bool)
      requires Ok() && other.Ok() && Apart(other) && other.used > 0
      requires Value() < TWO16 * other.Value()
      requires BigitLength() <= CAPACITY + other.exponent || exponent <= other.exponent
      modifies this, bigits
      ensures Ok() && Value() < other.Value()
      ensures old(Value()) == result * other.Value() + Value() && other.Value() > 0
      ensures large <==> LeadingLarge(old(Value()), other.BigitLength(), other.bigits[other.used - 1])
      ensures same <==> KeepsLength(old(Value()), other.Value(), other.BigitLength())
    {
      hide Eval, P;
      ghost var v, o := Value(), other.Value();
      MulZero(o);
      other.Positive();
      if BigitLength() < other.BigitLength() {
        ValueBounds();
        other.ValueBounds();
        PLess(BigitLength(), other.BigitLength() - 1);
        PLess(other.BigitLength() - 1, other.BigitLength());
        return 0, true, true;
      }
      Align(other);
      result, large, same := RemoveLeadingBigits(other, v);
      if other.used == 1 {
        result := DivideLastBigit(other, v, result);
      } else {
        result := DivideByEstimate(other, v, result);
      }
    }

    /** Both numbers have the same length now; or this is shorter, and then the estimate is 0. */
    method DivideByEstimate(other: Bignum, ghost v: nat, r: uint16) returns (result: uint16)
      requires Ok() && other.Ok() && Apart(other) && other.used > 0 && used > 0
      requires exponent <= other.exponent && BigitLength() <= other.BigitLength()
      requires BigitLength() < other.BigitLength() ==> other.bigits[other.used - 1] == BASE - 1
      requires v < TWO16 * other.Value() && v == r * other.Value() + Value()
      modifies this, bigits
      ensures Ok() && Value() < other.Value() && v == result * other.Value() + Value()
    {
      hide Eval, P;
      ValueBounds();
      other.ValueBounds();
      var this_bigit, other_bigit := bigits[used - 1], other.bigits[other.used - 1];
      var division_estimate, next_product := DivisionEstimate(this_bigit, other_bigit,
        Value(), other.Value(), BigitLength(), other.BigitLength());
      QuotientBound(v, other.Value(), r, division_estimate, Value());
      result := r + division_estimate;
      SubtractTimes(other, division_estimate);
      if next_product > this_bigit { return; }
      result := SubtractWhileLarger(other, v, result);
    }

    method SubtractWhileLarger(other: Bignum, ghost v: nat, r: uint16) returns (result: uint16)
      requires Ok() && other.Ok() && Apart(other) && other.used > 0 && exponent <= other.exponent
      requires v < TWO16 * other.Value() && v == r * other.Value() + Value()
      modifies this, bigits
      ensures Ok() && Value() < other.Value() && v == result * other.Value() + Value()
    {
      hide Eval, P;
      ghost var o := other.Value();
      other.Positive();
      result := r;
      var more := LessEqual(other, this);
      while more
        invariant Ok() && exponent <= other.exponent && v == result * o + Value()
        invariant more <==> o <= Value()
        decreases Value()
      {
        QuotientBound(v, o, result, 1, Value());
        SubtractBignum(other);
        result := result + 1;
        more := LessEqual(other, this);
      }
    }

    /** The loop that runs while this has more digits than other. */
    method RemoveLeadingBigits(other: Bignum, ghost v: nat) returns (result: uint16, ghost large: bool, ghost same: bool)
      requires Ok() && other.Ok() && Apart(other) && other.used > 0 && exponent <= other.exponent
      requires v == Value() < TWO16 * other.Value() && BigitLength() >= other.BigitLength()
      modifies this, bigits
      ensures Ok() && used > 0 && exponent <= other.exponent && BigitLength() <= other.BigitLength()
      ensures v == result * other.Value() + Value()
      ensures BigitLength() < other.BigitLength()
        ==> other.used > 1 && other.bigits[other.used - 1] == BASE - 1
      ensures other.Value() > 0 && (large <==> LeadingLarge(v, other.BigitLength(), other.bigits[other.used - 1]))
      ensures same <==> BigitLength() == other.BigitLength()
      ensures same <==> KeepsLength(v, other.Value(), other.BigitLength())
    {
      hide Eval, P, Reduced, KeepsLength;
      ghost var o, n := other.Value(), other.BigitLength();
      ghost var top := other.bigits[other.used - 1];
      other.ValueBounds();
      other.Positive();
      ValueBounds();
      PLess(n - 1, BigitLength() - 1);
      NothingRemoved(v, o, n);
      result, large := 0, true;
      while BigitLength() > other.BigitLength()
        invariant Ok() && used > 0 && exponent <= other.exponent
        invariant v == result * o + Value()
        invariant BigitLength() < n ==> other.used > 1 && other.bigits[other.used - 1] == BASE - 1
        invariant Reduced(v, o, n, Value()) && (large <==> Value() == v || top >= BASE / 16)
        decreases Value()
      {
        ValueBounds();
        ghost var w, t := Value(), bigits[used - 1];
        large := large && top >= BASE / 16;
        LeadingFits(v, o, result, w, t, BigitLength(), n);
        LeavesGap(v, o, w, t, n);
        result := result + bigits[used - 1];
        SubtractTimes(other, bigits[used - 1]);
        ValueBounds();
        Positive();
        if BigitLength() < n {
          PLess(BigitLength(), n - 1);
          NearlyFull(o, w, t, Value(), other.bigits[other.used - 1], n);
          if other.used == 1 { other.SingleDigit(); }
        }
      }
      LengthIs(n);
      same := BigitLength() == n;
      FinalLength(v, o, result, Value(), n);
    }

    lemma LengthIs(n: nat)
      requires Ok() && 0 < used && BigitLength() <= n
      ensures n > 0 && Value() < P(n) && (BigitLength() == n <==> Value() >= P(n - 1))
    {
      hide Eval, P;
      ValueBounds();
      PLess(BigitLength(), n);
      PLess(n - 1, BigitLength() - 1);
      PLess(BigitLength(), n - 1);
    }

    lemma SingleDigit()
      requires Ok() && used == 1
      ensures Value() == bigits[0] * P(BigitLength() - 1)
    {
      EvalStep(bigits[..], 1);
    }

    /** The shortcut for a divisor of one bigit. */
    method DivideLastBigit(other: Bignum, ghost v: nat, r: uint16) returns (result: uint16)
      requires Ok() && other.Ok() && Apart(other) && other.used == 1 && used > 0
      requires BigitLength() == other.BigitLength() && v < TWO16 * other.Value()
      requires v == r * other.Value() + Value()
      modifies this, bigits
      ensures Ok() && Value() < other.Value() && v == result * other.Value() + Value()
    {
      hide Eval, P;
      ghost var s, p := bigits[..], P(BigitLength() - 1);
      ghost var w := Value();
      var this_bigit, other_bigit := bigits[used - 1], other.bigits[other.used - 1];
      other.SingleDigit();
      ValueBounds();
      var quotient := this_bigit / other_bigit;
      LastBigit(w, this_bigit, other_bigit, p);
      QuotientBound(v, other.Value(), r, quotient, w);
      bigits[used - 1] := this_bigit - other_bigit * quotient;
      EvalAppend(s, bigits[..], used - 1);
      EvalStep(s, used);
      PowAdd(BASE, used - 1, exponent);
      AddValue(Eval(s, used - 1), this_bigit, used - 1, exponent);
      AddValue(Eval(s, used - 1), this_bigit - other_bigit * quotient, used - 1, exponent);
      result := r + quotient;
      MulDistribute(r, quotient, other.Value());
      Clamp();
    }

    method MultiplyByPowerOfTen(exp: nat)
      requires Ok() && Mantissa() * Pow(5, exp) < P(CAPACITY - 1)
      modifies this, bigits
      ensures Ok() && Value() == old(Value()) * Pow(10, exp)
      ensures used > 0 ==> exponent == old(exponent) + exp / BIGIT_SIZE
    {
      hide Eval, P;
      if exp == 0 { return; }
      if used == 0 {
        Positive();
        MulZero(Pow(10, exp));
        return;
      }
      ghost var m, e := Mantissa(), exponent;
      MultiplyByPowerOfFive(exp);
      ValueBounds();
      FitsBelow(Mantissa(), used, exponent, CAPACITY - 1);
      PowProduct(5, 2, exp);
      TenFromFive(m, Pow(5, exp), P(e), Pow(2, exp));
      ShiftLeft(exp);
    }

    /** The multiplications of MultiplyByPowerOfTen, by 5^27, 5^13 and a rest. */
    method MultiplyByPowerOfFive(exp: nat)
      requires Ok() && used > 0 && Mantissa() * Pow(5, exp) < P(CAPACITY - 1)
      modifies this, bigits
      ensures Ok() && used > 0 && exponent == old(exponent)
      ensures Mantissa() == old(Mantissa()) * Pow(5, exp)
    {
      hide Eval, P, Pow;
      FivePowers();
      PowNone(5);
      PLess(CAPACITY - 1, CAPACITY);
      ghost var m := Mantissa();
      Positive();
      MulMantissaPositive();
      var remaining_exponent := exp;
      while remaining_exponent >= 27
        invariant Ok() && used > 0 && exponent == old(exponent) && 0 <= remaining_exponent <= exp
        invariant Mantissa() == m * Pow(5, exp - remaining_exponent)
      {
        FiveStep(m, exp, exp - remaining_exponent, 27);
        MultiplyByUInt64(0x6765c793fa10079d);
        remaining_exponent := remaining_exponent - 27;
      }
      while remaining_exponent >= 13
        invariant Ok() && used > 0 && exponent == old(exponent) && 0 <= remaining_exponent <= exp
        invariant Mantissa() == m * Pow(5, exp - remaining_exponent)
      {
        FiveStep(m, exp, exp - remaining_exponent, 13);
        MultiplyByUInt32(1220703125);
        remaining_exponent := remaining_exponent - 13;
      }
      if remaining_exponent > 0 {
        SmallFivePowers(remaining_exponent);
        FiveStep(m, exp, exp - remaining_exponent, remaining_exponent);
        MultiplyByUInt32(FIVE_1_TO_12[remaining_exponent - 1]);
      }
    }

    lemma MulMantissaPositive()
      requires Ok()
      ensures used > 0 <==> Mantissa() > 0
    {
      Positive();
      if Mantissa() == 0 { MulZero(P(exponent)); } else { MulPositive(Mantissa(), P(exponent)); }
    }

    /** Comba multiplication of this with itself, column by column, in the same cells. */
    method Square()
      requires Ok() && 2 * used <= CAPACITY
      modifies this, bigits
      ensures Ok() && Value() == old(Value()) * old(Value())
      ensures used > 0 ==> exponent == 2 * old(exponent)
    {
      hide Eval, P, Col, Cols;
      ghost var s, n, e := bigits[..], used, exponent;
      var product_length := 2 * used;
      CopyCellsUp();
      var accumulator := LowColumns(s);
      accumulator := HighColumns(s, accumulator);
      ColsProduct(s, n, n);
      EvalBound(s, n);
      SquareFits(Eval(s, n), n);
      EvalBound(bigits[..], product_length);
      NoCarryLeft(Eval(bigits[..], product_length), Eval(s, n) * Eval(s, n), accumulator, product_length);
      assert accumulator == 0;
      used := product_length;
      exponent := exponent * 2;
      Clamp();
      SquareValue(Eval(s, n), e);
    }

    method CopyCellsUp()
      requires Valid() && 2 * used <= CAPACITY
      modifies bigits
      ensures Proper(bigits[..])
      ensures forall j :: 0 <= j < used ==> bigits[j] == bigits[used + j] == old(bigits[j])
      ensures forall j :: 2 * used <= j < CAPACITY ==> bigits[j] == 0
    {
      for i := 0 to used
        invariant Proper(bigits[..])
        invariant forall j :: 0 <= j < used ==> bigits[j] == old(bigits[j])
        invariant forall j :: 0 <= j < i ==> bigits[used + j] == old(bigits[j])
        invariant forall j :: used + i <= j < CAPACITY ==> bigits[j] == 0
      {
        bigits[used + i] := bigits[i];
      }
    }

    /** Columns 0 to used - 1: their digits go over the original, which is no longer read. */
    method LowColumns(ghost s: seq<uint32>) returns (accumulator: uint64)
      requires bigits.Length == CAPACITY && 2 * used <= CAPACITY && Proper(bigits[..])
      requires |s| == CAPACITY && Proper(s)
      requires forall j :: 0 <= j < used ==> bigits[used + j] == s[j]
      requires forall j :: 2 * used <= j < CAPACITY ==> bigits[j] == 0
      modifies bigits
      ensures Proper(bigits[..]) && accumulator <= used * BASE
      ensures forall j :: 0 <= j < used ==> bigits[used + j] == s[j]
      ensures forall j :: 2 * used <= j < CAPACITY ==> bigits[j] == 0
      ensures Eval(bigits[..], used) + accumulator * P(used) == Cols(s, used, used, used)
    {
      hide Eval, P, Col, Cols;
      var copy_offset := used;
      accumulator := 0;
      EvalNone(bigits[..]);
      ColsStart(s, used);
      MulZero(P(0));
      for i := 0 to used
        invariant Proper(bigits[..]) && 0 <= accumulator <= used * BASE
        invariant forall j :: 0 <= j < used ==> bigits[used + j] == s[j]
        invariant forall j :: 2 * used <= j < CAPACITY ==> bigits[j] == 0
        invariant Eval(bigits[..], i) + accumulator * P(i) == Cols(s, used, used, i)
      {
        ghost var acc0, t := accumulator, bigits[..];
        ColLow(s, used, used, i);
        accumulator := ColumnSum(s, copy_offset, i, i, 0, accumulator);
        var digit;
        digit, accumulator := SplitAccumulator(accumulator);
        bigits[i] := digit;
        EvalAppend(t, bigits[..], i);
        ColsStep(s, used, used, i);
        CarryStep(Eval(t, i), Cols(s, used, used, i), 0, Col(s, used, used, i), acc0, digit, accumulator, i);
      }
    }

    /** Columns used to 2 * used - 1: each overwrites a copied digit the later columns do not need. */
    method HighColumns(ghost s: seq<uint32>, acc: uint64) returns (accumulator: uint64)
      requires bigits.Length == CAPACITY && 2 * used <= CAPACITY && Proper(bigits[..])
      requires |s| == CAPACITY && Proper(s) && acc <= used * BASE
      requires forall j :: 0 <= j < used ==> bigits[used + j] == s[j]
      requires forall j :: 2 * used <= j < CAPACITY ==> bigits[j] == 0
      requires Eval(bigits[..], used) + acc * P(used) == Cols(s, used, used, used)
      modifies bigits
      ensures Proper(bigits[..]) && forall j :: 2 * used <= j < CAPACITY ==> bigits[j] == 0
      ensures Eval(bigits[..], 2 * used) + accumulator * P(2 * used) == Cols(s, used, used, 2 * used)
    {
      hide Eval, P, Col, Cols;
      var copy_offset := used;
      accumulator := acc;
      for i := used to 2 * used
        invariant Proper(bigits[..]) && 0 <= accumulator <= used * BASE
        invariant forall j :: i - used <= j < used ==> bigits[used + j] == s[j]
        invariant forall j :: 2 * used <= j < CAPACITY ==> bigits[j] == 0
        invariant Eval(bigits[..], i) + accumulator * P(i) == Cols(s, used, used, i)
      {
        ghost var acc0, t := accumulator, bigits[..];
        accumulator := ColumnSum(s, copy_offset, i, used - 1, i - (used - 1), accumulator);
        var digit;
        digit, accumulator := SplitAccumulator(accumulator);
        bigits[i] := digit;
        EvalAppend(t, bigits[..], i);
        ColsStep(s, used, used, i);
        CarryStep(Eval(t, i), Cols(s, used, used, i), 0, Col(s, used, used, i), acc0, digit, accumulator, i);
      }
    }

    /** The inner loop of both phases: adds the products of column k to the accumulator. */
    method ColumnSum(ghost s: seq<uint32>, copy_offset: nat, ghost k: nat, index1: nat, index2: nat, acc: uint64)
        returns (accumulator: uint64)
      requires bigits.Length == CAPACITY && 2 * used <= CAPACITY && copy_offset == used
      requires |s| == CAPACITY && Proper(s) && acc <= used * BASE
      requires index1 < used && index1 + index2 == k
      requires index1 == used - 1 || index2 == 0
      requires forall j :: 0 <= j < used && k < used + j ==> bigits[used + j] == s[j]
      ensures accumulator == acc + Col(s, index1 + 1, used, k)
      ensures accumulator < (used * BASE + 1) * BASE
    {
      hide Eval, P, Col, Cols;
      accumulator := acc;
      var bigit_index1: int, bigit_index2 := index1, index2;
      ColBound(s, index1 + 1, used, k);
      while bigit_index1 >= 0 && bigit_index2 < used
        invariant -1 <= bigit_index1 <= index1 && bigit_index1 + bigit_index2 == k && bigit_index2 >= 0
        invariant accumulator + Col(s, bigit_index1 + 1, used, k) == acc + Col(s, index1 + 1, used, k)
        decreases bigit_index1
      {
        var chunk1 := bigits[copy_offset + bigit_index1];
        var chunk2 := bigits[copy_offset + bigit_index2];
        ColStep(s, bigit_index1, used, k);
        MulPositive(chunk1, chunk2);
        accumulator := accumulator + (chunk1 as int) * (chunk2 as int);
        bigit_index1 := bigit_index1 - 1;
        bigit_index2 := bigit_index2 + 1;
      }
      if bigit_index1 >= 0 { ColEmpty(s, bigit_index1 + 1, used, k); } else { ColNone(s, used, k); }
    }

    /** base^power_exponent.  The one capacity check made up front covers every later growth. */
    method AssignPowerUInt16(base0: uint16, power_exponent: nat)
      requires Valid() && base0 != 0
      requires BitLength(OddPart(base0)) * power_exponent / BIGIT_SIZE + 2 <= CAPACITY
      modifies this, bigits
      ensures Ok() && Value() == Pow(base0, power_exponent)
    {
      hide Eval, P, Pow, OddPart, Twos, BitLength;
      PowNone(base0);
      if power_exponent == 0 {
        AssignUInt16(1);
        return;
      }
      Zero();
      var base, shifts := StripTwos(base0);
      var bit_size := CountBits(base);
      ghost var final_size := bit_size * power_exponent;
      var mask := MaskAbove(power_exponent);
      ghost var done;
      var this_value: uint64, delayed_multiplication;
      this_value, delayed_multiplication, mask, done := PowerInWord(base, bit_size, power_exponent, mask);
      AssignUInt64(this_value);
      PowerRoom(base, bit_size, power_exponent, done);
      if delayed_multiplication {
        MantissaIsValue();
        MultiplyByUInt32(base);
      }
      PowerByBignum(base, bit_size, power_exponent, mask, done);
      PowerRoom(base, bit_size, power_exponent, power_exponent);
      ValueBounds();
      PowerLength(base, bit_size, power_exponent, power_exponent, used, exponent, Value());
      ShiftLeft(shifts * power_exponent);
      StrippedPower(base0, base, shifts, power_exponent);
    }

    lemma MantissaIsValue()
      requires Valid() && exponent == 0
      ensures Mantissa() == Value()
    {}

    /** The part of AssignPowerUInt16 that squares the bignum. */
    method PowerByBignum(base: uint16, ghost bit_size: nat, power_exponent: nat, m: nat, ghost d: nat)
      requires Ok() && base > 0 && exponent == 0 && power_exponent > 0
      requires bit_size == BitLength(base) && bit_size * power_exponent / BIGIT_SIZE + 2 <= CAPACITY
      requires Progress(power_exponent, m, d) && Value() == Pow(base, d)
      modifies this, bigits
      ensures Ok() && exponent == 0 && Value() == Pow(base, power_exponent)
    {
      hide Eval, P, Pow, BitLength;
      var mask := m;
      ghost var done: nat := d;
      while mask != 0
        invariant Ok() && exponent == 0 && 0 <= mask
        invariant Progress(power_exponent, mask, done) && Value() == Pow(base, done)
        decreases mask
      {
        NextBit(power_exponent, mask, done);
        PowerRoom(base, bit_size, power_exponent, 2 * done);
        ValueBounds();
        SquareRoom(base, bit_size, power_exponent, done, used);
        Square();
        Positive();
        PowAdd(base, done, done);
        if power_exponent / mask % 2 != 0 {
          PowerRoom(base, bit_size, power_exponent, 2 * done + 1);
          PowAdd(base, 2 * done, 1);
          PowOne(base);
          MantissaIsValue();
          MultiplyByUInt32(base);
        }
        done := power_exponent / mask;
        mask := mask / 2;
      }
    }

    /** Reads a string of decimal digits, 19 at a time. */
    method AssignDecimalString(value: seq<char>)
      requires Valid() && AllDigits(value) && Pow10(|value|) < P(CAPACITY - 2)
      modifies this, bigits
      ensures Ok() && Value() == Dec(value) && exponent == 0
    {
      hide Eval, P, Pow;
      Zero();
      var length, pos := |value|, 0;
      while length >= 19
        invariant Ok() && exponent == 0 && 0 <= pos && 0 <= length && pos + length == |value|
        invariant Value() == Dec(value[..pos])
        decreases length
      {
        DecimalChunk(value, pos, 19);
        var digits := ReadUInt64(value, pos, 19);
        AppendDigits(digits, 19, Pow10(|value|));
        pos := pos + 19;
        length := length - 19;
      }
      DecimalChunk(value, pos, length);
      var digits := ReadUInt64(value, pos, length);
      AppendDigits(digits, length, Pow10(|value|));
      assert value[..pos + length] == value;
    }

    /** this := this * 10^n + digits */
    method AppendDigits(digits: uint64, n: nat, ghost bound: nat)
      requires Ok() && exponent == 0 && n <= 19
      requires Value() * Pow10(n) + digits < bound < P(CAPACITY - 2)
      modifies this, bigits
      ensures Ok() && exponent == 0 && Value() == old(Value()) * Pow10(n) + digits
    {
      hide Eval, P, Pow;
      PowBaseMonotone(5, 10, n);
      MantissaIsValue();
      MulMonotone(Value(), Pow(5, n), Value(), Pow(10, n));
      PLess(CAPACITY - 2, CAPACITY - 1);
      MultiplyByPowerOfTen(n);
      ValueBounds();
      FitsBelowZero(Value(), used, exponent, CAPACITY - 2);
      AddUInt64(digits);
    }

    method Times10()
      requires Ok() && Value() * 10 < P(CAPACITY)
      modifies this, bigits
      ensures Ok() && Value() == old(Value()) * 10
    {
      hide Eval, P;
      MantissaAtMostValue();
      MultiplyByUInt32(10);
    }

    lemma MantissaAtMostValue()
      requires Valid()
      ensures Mantissa() <= Value()
    {
      MulLess(0, 1, P(exponent));
      MulMonotone(Mantissa(), 1, Mantissa(), P(exponent));
    }

    /** ShiftLeft(1) */
    method Double()
      requires Ok() && Value() < P(CAPACITY - 1)
      modifies this, bigits
      ensures Ok() && Value() == old(Value()) * 2
    {
      hide Eval, P;
      LengthBelow(CAPACITY - 1);
      PowOne(2);
      ShiftLeft(1);
    }

    /** A value below BASE^k has at most k digits, exponent included. */
    lemma LengthBelow(k: nat)
      requires Ok() && Value() < P(k)
      ensures BigitLength() <= k
    {
      ValueBounds();
      if BigitLength() > k {
        PLess(k, BigitLength() - 1);
      }
    }
  }
}
