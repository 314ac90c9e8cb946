/** Floating-point numbers with a 64-bit significand (diy-fp.h, diy-fp.cc). */
module DiyFps {
  import opened Words
  import opened Powers

  const UINT64_MSB: int := 0x8000_0000_0000_0000
  const TEN_BITS_BELOW: int := 0x40_0000_0000_0000

  /** The upper half of a 128-bit product, rounded to nearest, ties up. */
  function RoundedProduct(x: int, y: int): int {
    (x * y + UINT64_MSB) / TWO64
  }

  lemma ProductError(x: int, y: int)
    ensures -UINT64_MSB < RoundedProduct(x, y) * TWO64 - x * y <= UINT64_MSB
  {
    DivModDefinition(x * y + UINT64_MSB, TWO64);
  }

  class DiyFp {
    var f: uint64
    var e: int

    constructor (f: uint64, e: int)
      ensures this.f == f && this.e == e
    {
      this.f, this.e := f, e;
    }

    /** The product, exactly rounded although no intermediate result has more than 64 bits. */
    method Multiply(other: DiyFp)
      modifies this
      ensures f == RoundedProduct(old(f), old(other.f)) && e == old(e + other.e) + 64
    {
      var a: uint64, b: uint64 := f / TWO32, f % TWO32;
      var c: uint64, d: uint64 := other.f / TWO32, other.f % TWO32;
      PartsFit(a, b, c, d);
      var ac: uint64, bc: uint64, ad: uint64, bd: uint64 := a * c, b * c, a * d, b * d;
      var tmp: uint64 := bd / TWO32 + ad % TWO32 + bc % TWO32;
      tmp := tmp + TWO31;
      assert f == a * TWO32 + b && other.f == c * TWO32 + d;
      PartialProducts(f, other.f, a, b, c, d);
      e := e + (other.e + 64);
      f := ac + ad / TWO32 + bc / TWO32 + tmp / TWO32;
    }

    static method Times(a: DiyFp, b: DiyFp) returns (result: DiyFp)
      ensures fresh(result) && result.f == RoundedProduct(a.f, b.f) && result.e == a.e + b.e + 64
    {
      result := new DiyFp(a.f, a.e);
      result.Multiply(b);
    }

    /** The same value with the top bit of the significand set. */
    method Normalize()
      requires f != 0
      modifies this
      ensures f >= UINT64_MSB && 0 <= old(e) - e <= 63
      ensures f == old(f) * Two(old(e) - e)
    {
      hide Two;
      ghost var f0, e0 := f, e;
      TwoNone();
      var f1: uint64, e1 := f, e;
      while f1 < TEN_BITS_BELOW
        invariant 0 < f1 && 0 <= e0 - e1 && f1 == f0 * Two(e0 - e1) && Two(e0 - e1) <= f1
        decreases TWO64 - f1
      {
        TwoTens();
        TwoAdd(e0 - e1, 10);
        MulAssociate(f0, Two(e0 - e1), 1024);
        f1 := f1 * 1024;
        e1 := e1 - 10;
      }
      while f1 < UINT64_MSB
        invariant 0 < f1 && 0 <= e0 - e1 && f1 == f0 * Two(e0 - e1) && Two(e0 - e1) <= f1
        decreases TWO64 - f1
      {
        TwoTens();
        TwoAdd(e0 - e1, 1);
        MulAssociate(f0, Two(e0 - e1), 2);
        f1 := f1 * 2;
        e1 := e1 - 1;
      }
      FewShifts(e0 - e1, f1);
      f := f1;
      e := e1;
    }
  }

  lemma TwoTens()
    ensures Two(1) == 2 && Two(10) == 1024
  {
    TwoAdd(5, 5);
    assert Two(5) == 32;
  }

  lemma FewShifts(n: nat, f: uint64)
    requires Two(n) <= f
    ensures n <= 63
  {
    hide Two;
    if n > 63 { ManyShifts(n); }
  }

  lemma ManyShifts(n: nat)
    requires n >= 64
    ensures Two(n) >= TWO64
  {
    hide Two;
    SixtyThree();
    TwoAdd(64, n - 64);
    MulLess(1, Two(n - 64), Two(64));
  }

  lemma SixtyThree()
    ensures Two(63) == UINT64_MSB && Two(64) == TWO64 && Two(32) == TWO32
  {
    hide Two;
    TwoTens();
    TwoAdd(10, 10);
    TwoAdd(20, 10);
    TwoAdd(30, 1);
    TwoAdd(31, 1);
    TwoAdd(31, 32);
    TwoAdd(32, 32);
  }

  lemma PartsFit(a: int, b: int, c: int, d: int)
    requires 0 <= a < TWO32 && 0 <= b < TWO32 && 0 <= c < TWO32 && 0 <= d < TWO32
    ensures 0 <= a * c <= 0xFFFFFFFE00000001 && 0 <= a * d <= 0xFFFFFFFE00000001
    ensures 0 <= b * c <= 0xFFFFFFFE00000001 && 0 <= b * d <= 0xFFFFFFFE00000001
  {
    PartFits(a, c);
    PartFits(a, d);
    PartFits(b, c);
    PartFits(b, d);
  }

  lemma PartFits(x: int, y: int)
    requires 0 <= x < TWO32 && 0 <= y < TWO32
    ensures 0 <= x * y <= 0xFFFFFFFE00000001
  {
    var m := TWO32 - 1;
    if y > 0 { MulLess(x, m, y); }
    MulLess(y, m, m);
    MulPositive(x, y);
    MulZero(x);
  }

  /** The four partial products, recombined without the low bits that cannot affect the rounding. */
  lemma PartialProducts(x: int, y: int, a: int, b: int, c: int, d: int)
    requires 0 <= a < TWO32 && 0 <= b < TWO32 && 0 <= c < TWO32 && 0 <= d < TWO32
    requires x == a * TWO32 + b && y == c * TWO32 + d
    ensures
      var tmp := (b * d) / TWO32 + (a * d) % TWO32 + (b * c) % TWO32 + TWO31;
      var r := a * c + (a * d) / TWO32 + (b * c) / TWO32 + tmp / TWO32;
      r == RoundedProduct(x, y) && 0 <= r < TWO64
  {
    PartsFit(a, b, c, d);
    var ac, ad, bc, bd := a * c, a * d, b * c, b * d;
    assert x * y == ac * TWO64 + (ad + bc) * TWO32 + bd by {
      MulDistribute(a * TWO32, b, y);
      MulAssociate(a, TWO32, y);
      assert a * y == ac * TWO32 + ad;
      assert b * y == bc * TWO32 + bd;
    }
    var tmp := bd / TWO32 + ad % TWO32 + bc % TWO32 + TWO31;
    var r := ac + ad / TWO32 + bc / TWO32 + tmp / TWO32;
    DivModUnique(x * y + UINT64_MSB, TWO64, r, tmp % TWO32 * TWO32 + bd % TWO32);
  }
}
