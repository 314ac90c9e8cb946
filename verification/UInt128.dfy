/** Unsigned 128-bit numbers as two 64-bit halves (class UInt128 of fixed-dtoa.cc). */
module UInt128s {
  import opened Words
  import opened Powers
  import opened DiyFps

  const TWO128: int := 0x1_0000_0000_0000_0000_0000_0000_0000_0000

  class UInt128 {
    var high_bits: uint64
    var low_bits: uint64

    ghost function Value(): (v: nat)
      reads this
      ensures v < TWO128
    {
      high_bits * TWO64 + low_bits
    }

    constructor (high: uint64, low: uint64)
      ensures high_bits == high && low_bits == low && Value() == high * TWO64 + low
    {
      high_bits, low_bits := high, low;
    }

    /** Exact as long as the product has 128 bits; every partial sum fits 64 bits. */
    method Multiply(multiplicand: uint32)
      requires Value() * multiplicand < TWO128
      modifies this
      ensures Value() == old(Value()) * multiplicand
    {
      ghost var h, l := high_bits, low_bits;
      var accumulator: uint32;
      low_bits, accumulator := MultiplyHalf(low_bits, multiplicand, 0);
      ghost var carry := accumulator;
      high_bits, accumulator := MultiplyHalf(high_bits, multiplicand, accumulator);
      Halves(h, l, multiplicand, low_bits, carry, high_bits, accumulator);
    }

    /** Shifts right or left; bits that leave the 128 are lost. */
    method Shift(shift_amount: int)
      requires -64 <= shift_amount <= 64
      modifies this
      ensures shift_amount >= 0 ==> Value() == old(Value()) / Two(shift_amount)
      ensures shift_amount <= 0 ==> Value() == old(Value()) * Two(0 - shift_amount) % TWO128
    {
      hide Two;
      ghost var h, l := high_bits, low_bits;
      WholeShifts(h, l);
      if shift_amount == 0 {
        return;
      } else if shift_amount == -64 {
        high_bits := low_bits;
        low_bits := 0;
      } else if shift_amount == 64 {
        low_bits := high_bits;
        high_bits := 0;
      } else if shift_amount <= 0 {
        ShiftBitsLeft(0 - shift_amount);
      } else {
        ShiftBitsRight(shift_amount);
      }
    }

    method ShiftBitsLeft(amount: nat)
      requires 0 < amount < 64
      modifies this
      ensures Value() == old(Value()) * Two(amount) % TWO128
    {
      hide Two;
      LeftShift(high_bits, low_bits, amount);
      high_bits := high_bits * Two(amount) % TWO64 + low_bits / Two(64 - amount);
      low_bits := low_bits * Two(amount) % TWO64;
    }

    method ShiftBitsRight(amount: nat)
      requires 0 < amount < 64
      modifies this
      ensures Value() == old(Value()) / Two(amount)
    {
      hide Two;
      RightShift(high_bits, low_bits, amount);
      low_bits := low_bits / Two(amount) + high_bits * Two(64 - amount) % TWO64;
      high_bits := high_bits / Two(amount);
    }

    /** Keeps the remainder modulo 2^power and returns the quotient. */
    method DivModPowerOf2(power: nat) returns (result: nat)
      requires 0 < power < 128 && Value() / Two(power) < TWO31
      modifies this
      ensures result == old(Value()) / Two(power) && Value() == old(Value()) % Two(power)
    {
      hide Two;
      ghost var h, l := high_bits, low_bits;
      if power >= 64 {
        HighQuotient(h, l, power);
        result := high_bits / Two(power - 64);
        high_bits := high_bits - result * Two(power - 64);
      } else {
        LowQuotient(h, l, power);
        var part_low: uint64 := low_bits / Two(power);
        var part_high: uint64 := high_bits * Two(64 - power) % TWO64;
        result := part_low + part_high;
        high_bits := 0;
        low_bits := low_bits - part_low * Two(power);
      }
    }

    method IsZero() returns (zero: bool)
      ensures zero <==> Value() == 0
    {
      zero := high_bits == 0 && low_bits == 0;
    }

    method BitAt(position: nat) returns (bit: nat)
      requires position < 128
      ensures bit == Value() / Two(position) % 2
    {
      hide Two;
      BitOf(high_bits, low_bits, position);
      if position >= 64 {
        bit := high_bits / Two(position - 64) % 2;
      } else {
        bit := low_bits / Two(position) % 2;
      }
    }
  }

  /** One half of the product, in two 32-bit steps. */
  method MultiplyHalf(bits: uint64, multiplicand: uint32, carry: uint32) returns (product: uint64, accumulator: uint32)
    ensures accumulator * TWO64 + product == bits * multiplicand + carry
  {
    HalfProduct(bits % TWO32, multiplicand, carry);
    var low: uint64 := carry + bits % TWO32 * multiplicand;
    var part: uint32 := low % TWO32;
    HalfProduct(bits / TWO32, multiplicand, low / TWO32);
    var high: uint64 := low / TWO32 + bits / TWO32 * multiplicand;
    TwoSteps(bits, multiplicand, carry, low, high);
    product := ShiftedIn(high, part);
    accumulator := high / TWO32;
  }

  lemma TwoSteps(bits: int, m: int, carry: int, low: int, high: int)
    requires low == carry + bits % TWO32 * m && high == low / TWO32 + bits / TWO32 * m
    ensures high * TWO32 + low % TWO32 == bits * m + carry
  {
    MulDistribute(bits / TWO32 * TWO32, bits % TWO32, m);
    MulAssociate(bits / TWO32, TWO32, m);
    MulAssociate(bits / TWO32, m, TWO32);
  }

  lemma Halves(h: int, l: int, m: int, low: int, carry: int, high: int, acc: int)
    requires carry * TWO64 + low == l * m && acc * TWO64 + high == h * m + carry
    requires (h * TWO64 + l) * m < TWO128 && 0 <= acc && 0 <= high && 0 <= low
    ensures high * TWO64 + low == (h * TWO64 + l) * m
  {
    var hm, lm := h * m, l * m;
    MulDistribute(h * TWO64, l, m);
    MulAssociate(h, TWO64, m);
    MulAssociate(TWO64, h, m);
    assert (h * TWO64 + l) * m == hm * TWO64 + lm;
    assert (h * TWO64 + l) * m == acc * TWO128 + high * TWO64 + low;
  }

  /** (accumulator << 32) + part in 64 bits */
  function ShiftedIn(accumulator: uint64, part: uint32): (r: uint64)
    ensures r == accumulator % TWO32 * TWO32 + part
  {
    assert accumulator * TWO32 % TWO64 == accumulator % TWO32 * TWO32;
    accumulator * TWO32 % TWO64 + part
  }

  lemma HalfProduct(x: int, m: int, carry: int)
    requires 0 <= x < TWO32 && 0 <= m < TWO32 && 0 <= carry < TWO32
    ensures 0 <= x * m + carry < TWO64
  {
    PartFits(x, m);
  }

  lemma WholeShifts(h: uint64, l: uint64)
    ensures var v := h * TWO64 + l;
            && v / Two(0) == v && v * Two(0) % TWO128 == v
            && v / Two(64) == h && v * Two(64) % TWO128 == l * TWO64
  {
    hide Two;
    TwoNone();
    SixtyThree();
    var v := h * TWO64 + l;
    DivModUnique(v, 1, v, 0);
    DivModUnique(v * 1, TWO128, 0, v);
    DivModUnique(v, TWO64, h, l);
    DivModUnique(v * TWO64, TWO128, h, l * TWO64);
  }

  /** 2^64 is 2^k times the rest. */
  lemma SplitTwo(k: nat)
    requires k <= 64
    ensures Two(k) * Two(64 - k) == TWO64
  {
    hide Two;
    TwoAdd(k, 64 - k);
    SixtyThree();
  }

  lemma RightShift(h: uint64, l: uint64, k: nat)
    requires 0 < k < 64
    ensures
      var high, low := h / Two(k), l / Two(k) + h * Two(64 - k) % TWO64;
      0 <= high < TWO64 && 0 <= low < TWO64 && high * TWO64 + low == (h * TWO64 + l) / Two(k)
  {
    hide Two;
    SplitTwo(k);
    var p, q := Two(k), Two(64 - k);
    var a, b, c, d := h / p, h % p, l / p, l % p;
    DivModDefinition(h, p);
    DivModDefinition(l, p);
    // h * q == a * 2^64 + b * q
    MulDistribute(a * p, b, q);
    MulAssociate(a, p, q);
    MulLess(b, p, q);
    MulPositive(b, q);
    DivModUnique(h * q, TWO64, a, b * q);
    MulGap(b, p, q);
    QuotientBelow(l, p, q);
    MulDistribute(a * TWO64 + b * q, c, p);
    MulDistribute(a * TWO64, b * q, p);
    MulAssociate(a, TWO64, p);
    MulAssociate(a, p, TWO64);
    MulAssociate(b, q, p);
    MulDistribute(a * p, b, TWO64);
    DivModUnique(h * TWO64 + l, p, a * TWO64 + b * q + c, d);
    QuotientAtMost(h, p);
  }

  lemma QuotientBelow(x: nat, p: nat, q: nat)
    requires p > 0 && x < p * q
    ensures 0 <= x / p < q
  {
    DivModDefinition(x, p);
    if x / p >= q { MulLess(q, x / p, p); }
  }

  lemma QuotientAtMost(x: nat, p: nat)
    requires p > 0
    ensures 0 <= x / p <= x
  {
    DivModDefinition(x, p);
    if x / p > x { MulLess(1, p, x / p); }
  }

  lemma LeftShift(h: uint64, l: uint64, k: nat)
    requires 0 < k < 64
    ensures
      var high, low := h * Two(k) % TWO64 + l / Two(64 - k), l * Two(k) % TWO64;
      0 <= high < TWO64 && 0 <= low < TWO64 && high * TWO64 + low == (h * TWO64 + l) * Two(k) % TWO128
  {
    hide Two;
    SplitTwo(k);
    var p, q := Two(k), Two(64 - k);
    var a, b, c, d := h / q, h % q, l / q, l % q;
    DivModDefinition(h, q);
    DivModDefinition(l, q);
    // h * p == a * 2^64 + b * p, and l * p == c * 2^64 + d * p
    MulDistribute(a * q, b, p);
    MulAssociate(a, q, p);
    MulDistribute(c * q, d, p);
    MulAssociate(c, q, p);
    MulLess(b, q, p);
    MulLess(d, q, p);
    MulPositive(b, p);
    MulPositive(d, p);
    DivModUnique(h * p, TWO64, a, b * p);
    DivModUnique(l * p, TWO64, c, d * p);
    QuotientBelow(l, q, p);
    MulGap(b, q, p);
    MulDistribute(h * TWO64, l, p);
    MulAssociate(h, TWO64, p);
    MulAssociate(h, p, TWO64);
    MulDistribute(a * TWO64, b * p, TWO64);
    DivModUnique((h * TWO64 + l) * p, TWO128, a, (b * p + c) * TWO64 + d * p);
  }

  lemma HighQuotient(h: uint64, l: uint64, power: nat)
    requires 64 <= power < 128
    ensures
      var p := Two(power - 64);
      && 0 <= h - h / p * p <= h && 0 <= h / p
      && h / p == (h * TWO64 + l) / Two(power) && (h - h / p * p) * TWO64 + l == (h * TWO64 + l) % Two(power)
  {
    hide Two;
    SixtyThree();
    TwoAdd(power - 64, 64);
    var p := Two(power - 64);
    var q, r := h / p, h % p;
    DivModDefinition(h, p);
    MulDistribute(q * p, r, TWO64);
    MulAssociate(q, p, TWO64);
    MulGap(r, p, TWO64);
    QuotientAtMost(h, p);
    MulPositive(q, p);
    DivModUnique(h * TWO64 + l, Two(power), q, r * TWO64 + l);
  }

  lemma LowQuotient(h: uint64, l: uint64, power: nat)
    requires 0 < power < 64 && (h * TWO64 + l) / Two(power) < TWO31
    ensures
      var p := Two(power);
      && 0 <= l - l / p * p <= l && 0 <= l / p
      && l / p + h * Two(64 - power) % TWO64 == (h * TWO64 + l) / p && l - l / p * p == (h * TWO64 + l) % p
  {
    hide Two;
    SplitTwo(power);
    var p, g := Two(power), Two(64 - power);
    var q, r := l / p, l % p;
    DivModDefinition(l, p);
    MulAssociate(h, p, g);
    MulAssociate(h, g, p);
    MulDistribute(h * g, q, p);
    DivModUnique(h * TWO64 + l, p, h * g + q, r);
    MulPositive(h, g);
    QuotientAtMost(l, p);
    MulPositive(q, p);
  }

  lemma BitOf(h: uint64, l: uint64, position: nat)
    requires position < 128
    ensures position >= 64 ==> h / Two(position - 64) == (h * TWO64 + l) / Two(position)
    ensures position < 64 ==> l / Two(position) % 2 == (h * TWO64 + l) / Two(position) % 2
  {
    hide Two;
    if position >= 64 {
      HighQuotient(h, l, position);
    } else {
      LowBit(h, l, position);
    }
  }

  lemma LowBit(h: uint64, l: uint64, position: nat)
    requires position < 64
    ensures l / Two(position) % 2 == (h * TWO64 + l) / Two(position) % 2
  {
    hide Two;
    SplitTwo(position);
    var p, g := Two(position), Two(64 - position);
    DivModDefinition(l, p);
    MulAssociate(h, p, g);
    MulAssociate(h, g, p);
    MulDistribute(h * g, l / p, p);
    DivModUnique(h * TWO64 + l, p, h * g + l / p, l % p);
    TwoSucc(63 - position);
    Parity(h, Two(63 - position), l / p);
  }

  lemma Parity(h: int, x: int, y: int)
    ensures (h * (2 * x) + y) % 2 == y % 2
  {
    MulAssociate(h, 2, x);
    MulAssociate(2, h, x);
  }
}
