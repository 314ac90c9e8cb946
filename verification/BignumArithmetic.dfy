/** Single-digit steps and the arithmetic facts behind the Bignum class (bignum.cc). */
module BignumArithmetic {
  import opened Words
  import opened Bigits
  import opened Powers
  import opened Decimal

  /** kBigitCapacity */
  const CAPACITY: nat := 128

  /** A 64-bit factor is applied as two 32-bit halves; nothing overflows 64 bits, and the new
      carry is again below the factor. */
  lemma WordProducts(low: uint32, high: uint32, factor: uint64, d: uint32, c: uint64)
    requires factor == low + TWO32 * high && 0 <= d < BASE && c < factor
    ensures 0 <= low * d && 0 <= high * d
    ensures
      var tmp := c % BASE + low * d;
      var hi := c / BASE + tmp / BASE + high * d * 16;
      tmp < TWO64 && hi < factor && factor * d + c == tmp % BASE + BASE * hi
  {
    MulDistribute(low, TWO32 * high, d);
    MulAssociate(TWO32, high, d);
    MulPositive(low, d);
    MulPositive(high, d);
    MulGap(low, TWO32, d + 1);
    MulDistribute(d, 1, low);
    var tmp := c % BASE + low * d;
    var hi := c / BASE + tmp / BASE + high * d * 16;
    CarryBound(factor, d, c, tmp % BASE, hi);
  }

  /** Reducing to 32 bits before masking to 28 changes nothing. */
  lemma MaskSum(x: nat, c: nat, hi: nat, lo: nat)
    requires x == hi * BASE + lo && lo + c < BASE
    ensures (x % TWO32 + c) % TWO32 % BASE == lo + c
  {
    assert TWO32 == 16 * BASE;
  }

  lemma ShiftWordParts(d: nat, p: nat, q: nat)
    requires p * q == BASE && d < BASE && 0 < q
    ensures 0 <= d * p == (d / q) * BASE + (d % q) * p
    ensures 0 <= (d % q) * p <= BASE - p && 0 <= d / q < p
  {
    var hi, l := d / q, d % q;
    DivModDefinition(d, q);
    MulDistribute(hi * q, l, p);
    MulAssociate(hi, q, p);
    MulGap(l, q, p);
    MulPositive(l, p);
    MulPositive(d, p);
    if hi >= p { MulLess(p, hi, q); }
  }

  lemma ShiftWord(d: uint32, c: nat, p: nat, q: nat)
    requires p * q == BASE && d < BASE && c < p && 0 < q
    ensures 0 <= d * p == p * d && 0 <= d / q < p
    ensures p * d + c == (d * p % TWO32 + c) % TWO32 % BASE + BASE * (d / q)
  {
    ShiftWordParts(d, p, q);
    MaskSum(d * p, c, d / q, (d % q) * p);
  }

  /** A difference in one 32-bit word: the digit, and the word's top bit as the borrow. */
  method SubtractBigit(bigit: uint32, subtrahend: uint32) returns (lo: uint32, borrow: uint32)
    requires bigit < BASE && subtrahend <= BASE
    ensures lo < BASE && borrow <= 1 && bigit - subtrahend == lo - BASE * borrow
  {
    var difference: uint32 := (bigit - subtrahend) % TWO32;
    lo := difference % BASE;
    borrow := difference / TWO31;
  }

  /** One iteration of SubtractTimes' first loop; the borrow never exceeds the factor. */
  method SubtractProduct(bigit: uint32, factor: nat, other: uint32, borrow: uint32)
      returns (lo: uint32, new_borrow: uint32)
    requires bigit < BASE && other < BASE && borrow <= factor <= TWO16
    ensures lo < BASE && new_borrow <= factor
    ensures bigit - factor * other - borrow == lo - BASE * new_borrow
  {
    MulPositive(factor, other);
    MulGap(other, BASE, factor + 1);
    MulDistribute(factor, 1, other);
    var product: uint64 := factor * other;
    var remove: uint64 := borrow + product;
    var bit;
    lo, bit := SubtractBigit(bigit, remove % BASE);
    new_borrow := bit + remove / BASE;
  }

  /** The quotient estimate from the leading bigits, and the product it is checked with. */
  method DivisionEstimate(this_bigit: uint32, other_bigit: uint32,
      ghost w: nat, ghost o: nat, ghost lw: nat, ghost lo: nat) returns (estimate: nat, product: uint32)
    requires 0 < lw <= lo && 0 < other_bigit < BASE && this_bigit < BASE
    requires other_bigit * P(lo - 1) <= o < other_bigit * P(lo - 1) + P(lo - 1)
    requires this_bigit * P(lw - 1) <= w < this_bigit * P(lw - 1) + P(lw - 1) && w < P(lw)
    requires lw < lo ==> other_bigit == BASE - 1
    ensures estimate * o <= w && (product > this_bigit ==> w - estimate * o < o)
  {
    EstimateFits(w, o, this_bigit, other_bigit, lw, lo);
    estimate := this_bigit / (other_bigit + 1);
    MulPositive(other_bigit, estimate + 1);
    product := other_bigit * (estimate + 1);
  }

  /** One iteration of BigitsShiftLeft. */
  method ShiftBigit(bigit: uint32, carry: uint32, p: nat, q: nat) returns (lo: uint32, new_carry: uint32)
    requires bigit < BASE && carry < p && p * q == BASE && 0 < q
    ensures lo < BASE && new_carry < p && p * bigit + carry == lo + BASE * new_carry
  {
    ShiftWord(bigit, carry, p, q);
    ShiftCarry(p, q, bigit / q);
    new_carry := bigit / q;
    lo := (bigit * p % TWO32 + carry) % TWO32 % BASE;
  }

  lemma ShiftCarry(p: nat, q: nat, c: nat)
    requires p * q == BASE && 0 < q && c < p
    ensures c < BASE
  {
    MulLess(1, q, p);
  }

  lemma ShiftValue(m: nat, e: nat, shift: nat)
    ensures (Pow(2, shift % 28) * m) * P(e + shift / 28) == (m * P(e)) * Pow(2, shift)
  {
    var k, r := shift / 28, shift % 28;
    BaseIsPow();
    PowMul(2, 28, k);
    PowAdd(2, 28 * k, r);
    PowAdd(BASE, e, k);
    MulShuffle(Pow(2, r), m, P(e), P(k));
  }

  lemma MulShuffle(a: int, b: int, c: int, d: int)
    ensures (a * b) * (c * d) == (b * c) * (d * a)
  {
    calc {
      (a * b) * (c * d);
      { MulAssociate(a, b, c * d); }
      a * (b * (c * d));
      { MulAssociate(b, c, d); }
      a * ((b * c) * d);
      { MulAssociate(b * c, d, a); }
      (b * c) * (d * a);
    }
  }

  lemma TooShort(a: nat, b: nat, c: nat, la: nat, lb: nat, lc: nat)
    requires lb <= la && la + 1 < lc && a < P(la) && b < P(lb) && P(lc - 1) <= c
    ensures a + b < c
  {
    PLess(lb, la);
    PLess(la + 1, lc - 1);
    PSucc(la);
  }

  ghost predicate AllZeroBelow(a: seq<uint32>, b: seq<uint32>, c: seq<uint32>, i: nat) {
    forall j :: 0 <= j < i ==> At(a, j) == 0 && At(b, j) == 0 && At(c, j) == 0
  }

  /** What the high part of c - a - b must be for the answer r about a + b and c. */
  ghost predicate Decided(net: int, r: int, exact: bool) {
    || (r == 1 && net < 0)
    || (r == -1 && net > 1)
    || (r == Sign(-net) && exact)
  }

  lemma FirstDifference(a: seq<uint32>, b: seq<uint32>, i: nat, r: int)
    requires Proper(a) && Proper(b) && |a| == |b|
    requires r == Sign(-Net(a, [], b, i, |b|)) && (r == 0 ==> AllZeroBelow(a, [], b, i))
    ensures r == Sign(Eval(a, |a|) - Eval(b, |b|))
  {
    NetHigh(a, [], b, i, |b|);
    if r == 0 {
      assert forall j :: 0 <= j < i && j < |a| ==> At(a, j) == a[j];
      assert forall j :: 0 <= j < i && j < |b| ==> At(b, j) == b[j];
    }
    HighLow(a, i);
    HighLow(b, i);
    HighEnd([], i);
    if r > 0 { MulGap(High(b, i), High(a, i), P(i)); }
    if r < 0 { MulGap(High(a, i), High(b, i), P(i)); }
  }

  lemma ColumnsDecide(a: seq<uint32>, b: seq<uint32>, c: seq<uint32>, i: nat, r: int)
    requires Proper(a) && Proper(b) && Proper(c) && |b| <= |a| <= |c|
    requires Decided(Net(a, b, c, i, |c|), r, AllZeroBelow(a, b, c, i))
    ensures r == Sign(Eval(a, |a|) + Eval(b, |b|) - Eval(c, |c|))
  {
    NetHigh(a, b, c, i, |c|);
    if AllZeroBelow(a, b, c, i) {
      assert forall j :: 0 <= j < i && j < |a| ==> At(a, j) == a[j];
      assert forall j :: 0 <= j < i && j < |b| ==> At(b, j) == b[j];
      assert forall j :: 0 <= j < i && j < |c| ==> At(c, j) == c[j];
    }
    HighLow(a, i);
    HighLow(b, i);
    HighLow(c, i);
    HighPartsDecide(Eval(a, |a|), Eval(b, |b|), Eval(c, |c|), High(a, i), High(b, i), High(c, i), P(i),
                    r, AllZeroBelow(a, b, c, i));
  }

  /** A comparison of a + b with c from the quotients ha, hb, hc by p, exact or not. */
  lemma HighPartsDecide(a: int, b: int, c: int, ha: int, hb: int, hc: int, p: nat, r: int, exact: bool)
    requires p > 0 && Decided(hc - ha - hb, r, exact)
    requires ha * p <= a < ha * p + p && hb * p <= b < hb * p + p && hc * p <= c < hc * p + p
    requires exact ==> a == ha * p && b == hb * p && c == hc * p
    ensures r == Sign(a + b - c)
  {
    MulDistribute(ha, hb, p);
    if r == 1 && ha + hb > hc {
      MulGap(hc, ha + hb, p);
    } else if r == -1 && ha + hb + 1 < hc {
      MulGap(ha + hb, ha + hb + 1, p);
      MulGap(ha + hb + 1, hc, p);
    } else {
      MulLess(ha + hb, hc, p);
    }
  }

  /** Adding q to a partial quotient r keeps it a partial quotient, and within 16 bits. */
  lemma QuotientBound(v: nat, o: nat, r: nat, q: nat, w: nat)
    requires v < TWO16 * o && v == r * o + w && q * o <= w
    ensures r + q < TWO16 && v == (r + q) * o + (w - q * o)
  {
    MulDistribute(r, q, o);
    if r + q >= TWO16 { MulLess(TWO16, r + q, o); }
  }

  /** If w has one digit more than o, its leading digit t can be taken off as a quotient. */
  lemma LeadingFits(v: nat, o: nat, r: nat, w: nat, t: nat, lw: nat, lo: nat)
    requires 0 < lo < lw && P(lo - 1) <= o < P(lo) && P(lw - 1) <= t * P(lw - 1) <= w
    requires v < TWO16 * o && v == r * o + w
    ensures 0 < t * o < w && t * P(lo) <= w && t > 0
    ensures r + t < TWO16 && v == (r + t) * o + (w - t * o)
  {
    PLess(lo, lw - 1);
    if t == 0 { MulZero(P(lw - 1)); }
    MulPositive(t, o);
    MulLess(o, P(lo), t);
    MulLess(P(lo), P(lw - 1), t);
    QuotientBound(v, o, r, t, w);
  }

  /** What is left of v after taking off multiples of o, if any. */
  ghost predicate Reduced(v: nat, o: nat, n: nat, rest: nat)
    requires n > 0
  {
    && rest <= v
    && ((rest == v && v >= P(n - 1)) || (rest < v && v >= P(n) && rest >= P(n) - o))
  }

  lemma NothingRemoved(v: nat, o: nat, n: nat)
    requires n > 0 && v >= P(n - 1)
    ensures Reduced(v, o, n, v)
  {}

  lemma LeavesGap(v: nat, o: nat, w: nat, t: nat, n: nat)
    requires n > 0 && 0 < o < P(n) && t > 0 && 0 < t * o <= w && t * P(n) <= w && Reduced(v, o, n, w)
    ensures Reduced(v, o, n, w - t * o) && w - t * o < v
  {
    MulDistribute(P(n), o, t);
    MulLess(1, t, P(n) - o);
    MulLess(1, t, P(n));
  }

  /** If taking off t multiples leaves less than the divisor's length, the divisor is all but full. */
  lemma NearlyFull(o: nat, w: nat, t: nat, rest: nat, top: nat, n: nat)
    requires 0 < n && t > 0 && t * P(n) <= w && rest == w - t * o && rest < P(n - 1)
    requires top < BASE && o < top * P(n - 1) + P(n - 1) && o < P(n)
    ensures top == BASE - 1 && o > top * P(n - 1)
  {
    PSucc(n - 1);
    MulDistribute(P(n), o, t);
    MulLess(1, t, P(n) - o);
    MulDistribute(BASE, 1, P(n - 1));
    if top < BASE - 1 { MulGap(top, BASE - 1, P(n - 1)); }
  }

  // What the debug assertions of the division check, for a number v and a divisor o of n digits.

  /** Where there are leading digits to remove, the divisor's first digit is not small. */
  ghost predicate LeadingLarge(v: nat, n: nat, top: nat) {
    v >= P(n) ==> top >= BASE / 16
  }

  /** Removing them leaves as many digits as the divisor has. */
  ghost predicate KeepsLength(v: nat, o: nat, n: nat)
    requires o > 0 && n > 0
  {
    v >= P(n) ==> !(P(n) - o <= v % o < P(n - 1))
  }

  /** A divisor whose first digit is not the largest one. */
  ghost predicate NotFull(o: nat) {
    forall n: nat :: n > 0 && P(n - 1) <= o < P(n) ==> o < (BASE - 1) * P(n - 1)
  }

  /** The remainder after the leading digits have been removed: short exactly if the last one is. */
  lemma FinalLength(v: nat, o: nat, q: nat, rest: nat, n: nat)
    requires n > 0 && P(n - 1) <= o < P(n) && v == q * o + rest && rest < P(n) && Reduced(v, o, n, rest)
    ensures o > 0 && (rest >= P(n - 1) <==> KeepsLength(v, o, n)) && (rest == v <==> v < P(n))
  {
    hide P;
    var a, b := rest / o, rest % o;
    DivModDefinition(rest, o);
    MulDistribute(q, a, o);
    QuotientNotNegative(rest, o);
    DivModUnique(v, o, q + a, b);
    if a >= 1 { MulLess(1, a, o); } else { MulZero(o); }
  }

  lemma QuotientNotNegative(x: nat, o: nat)
    requires o > 0
    ensures x / o >= 0
  {}

  /** Small quotients, as those of the digit generation, meet the first assertion. */
  lemma SmallQuotient(v: nat, o: nat, n: nat, top: nat)
    requires n > 0 && v < 16 * o && o < top * P(n - 1) + P(n - 1)
    ensures LeadingLarge(v, n, top)
  {
    PSucc(n - 1);
    if v >= P(n) && top < BASE / 16 {
      MulGap(top, BASE / 16, P(n - 1));
    }
  }

  /** Divisors that are not full meet the second. */
  lemma NotFullKeeps(v: nat, o: nat, n: nat)
    requires n > 0 && P(n - 1) <= o < P(n) && NotFull(o)
    ensures o > 0 && KeepsLength(v, o, n)
  {
    PSucc(n - 1);
    MulDistribute(BASE - 1, 1, P(n - 1));
  }

  /** The first assertion fails for 2^28 and 2^13, whose quotient is 2^15. */
  lemma LeadingSmall()
    ensures P(0) <= 0x2000 < P(1) && !LeadingLarge(0x1000_0000, 1, 0x2000) && 0x1000_0000 < TWO16 * 0x2000
  {
    PowNone(BASE);
    PSucc(0);
  }

  /** The second fails for 2^56 and 2^56 - 1: what is left is 1, a number of one digit. */
  lemma LengthLost()
    ensures
      var v, o := 0x100_0000_0000_0000, 0xFF_FFFF_FFFF_FFFF;
      P(1) <= o < P(2) && v < TWO16 * o && !KeepsLength(v, o, 2)
  {
    PowNone(BASE);
    PSucc(0);
    PSucc(1);
  }

  /** The estimate from the leading digits never exceeds the quotient; if it reaches the digit
      bound it is the quotient. */
  lemma EstimateFits(w: nat, o: nat, tb: nat, ob: nat, lw: nat, lo: nat)
    requires 0 < lw <= lo && 0 < ob < BASE && tb < BASE
    requires ob * P(lo - 1) <= o < ob * P(lo - 1) + P(lo - 1)
    requires tb * P(lw - 1) <= w < tb * P(lw - 1) + P(lw - 1) && w < P(lw)
    requires lw < lo ==> ob == BASE - 1
    ensures 0 <= tb / (ob + 1) * o <= w && ob * (tb / (ob + 1) + 1) <= tb + ob
    ensures ob * (tb / (ob + 1) + 1) > tb ==> w - tb / (ob + 1) * o < o
  {
    DivModDefinition(tb, ob + 1);
    EstimateProduct(tb, ob, tb / (ob + 1));
    if lw < lo {
      MulZero(o);
      PLess(lw, lo - 1);
      MulLess(1, ob, P(lo - 1));
    } else {
      Estimate(w, o, tb, ob, tb / (ob + 1), P(lo - 1));
    }
  }

  lemma EstimateProduct(tb: nat, ob: nat, e: nat)
    requires e * (ob + 1) <= tb
    ensures ob * (e + 1) <= tb + ob && e * (ob + 1) == ob * e + e
  {
    MulDistribute(ob, 1, e);
    MulDistribute(e, 1, ob);
  }

  lemma Estimate(w: nat, o: nat, tb: nat, ob: nat, e: nat, p: nat)
    requires p > 0 && ob * p <= o < ob * p + p && tb * p <= w < tb * p + p
    requires e * (ob + 1) <= tb
    ensures 0 <= e * o <= w
    ensures ob * (e + 1) > tb ==> w - e * o < o
  {
    EstimateBelow(o, tb, ob, e, p);
    if ob * (e + 1) > tb {
      MulGap(tb, ob * (e + 1), p);
      MulAssociate(e + 1, ob, p);
      MulLessEqual(ob * p, o, e + 1);
      MulDistribute(e, 1, o);
    }
  }

  lemma EstimateBelow(o: nat, tb: nat, ob: nat, e: nat, p: nat)
    requires p > 0 && o < ob * p + p && e * (ob + 1) <= tb
    ensures 0 <= e * o <= tb * p
  {
    MulLess(e * (ob + 1), tb, p);
    MulAssociate(e, ob + 1, p);
    MulDistribute(ob, 1, p);
    MulLessEqual(o, ob * p + p, e);
    MulPositive(e, o);
  }

  lemma MulLessEqual(x: int, y: int, k: nat)
    requires x <= y
    ensures k * x <= k * y
  {
    if k > 0 { MulLess(x, y, k); }
  }

  lemma LastBigit(w: nat, tb: nat, ob: nat, p: nat)
    requires ob > 0 && p > 0 && tb * p <= w < tb * p + p
    ensures
      var q := tb / ob;
      0 <= tb - ob * q < ob && q * (ob * p) <= w && w - q * (ob * p) < ob * p
      && (tb - ob * q) * p == tb * p - q * (ob * p)
  {
    var q := tb / ob;
    DivModDefinition(tb, ob);
    MulAssociate(q, ob, p);
    MulDistribute(tb, ob * q, p);
    MulGap(tb - ob * q, ob, p);
  }

  /** A number with n digits, the first not zero, that is below BASE^k has at most k digits. */
  lemma FitsBelow(m: nat, n: nat, e: nat, k: nat)
    requires m < P(k) && (n > 0 ==> P(n + e - 1) <= m * P(e))
    ensures n <= k
  {
    if n > k {
      PowAdd(BASE, n - 1, e);
      MulLess(P(n - 1), m, P(e));
      PLess(k, n - 1);
    }
  }

  lemma TenFromFive(m: int, five: int, p: int, two: int)
    ensures (m * five) * p * two == m * p * (five * two)
  {
    MulShuffle(five, m, p, two);
    MulAssociate(m * five, p, two);
    assert five * m == m * five;
    assert two * five == five * two;
  }

  /** One factor 5^k of 5^exp, of which 5^done has been applied. */
  lemma FiveStep(m: nat, exp: nat, done: nat, k: nat)
    requires m > 0 && done + k <= exp && m * Pow(5, exp) < P(CAPACITY - 1)
    ensures (m * Pow(5, done)) * Pow(5, k) == m * Pow(5, done + k) < P(CAPACITY)
    ensures m * Pow(5, done + k) > 0
  {
    hide Pow, P;
    PowAdd(5, done, k);
    MulAssociate(m, Pow(5, done), Pow(5, k));
    PowMonotone(5, done + k, exp);
    MulLess(Pow(5, done + k), Pow(5, exp), m);
    PLess(CAPACITY - 1, CAPACITY);
    MulPositive(m, Pow(5, done + k));
  }

  method SplitAccumulator(accumulator: uint64) returns (digit: uint32, rest: uint64)
    ensures digit < BASE && accumulator == digit + BASE * rest
  {
    digit := accumulator % TWO32 % BASE;
    rest := accumulator / BASE;
  }

  lemma ColNone(s: seq<uint32>, n: nat, k: nat)
    requires n <= |s|
    ensures Col(s, 0, n, k) == 0
  {}

  lemma ColsStart(s: seq<uint32>, n: nat)
    requires n <= |s|
    ensures Cols(s, n, n, 0) == 0
  {}

  lemma SquareFits(m: nat, n: nat)
    requires m < P(n)
    ensures 0 <= m * m < P(2 * n)
  {
    PowAddP(n, n);
    MulPositive(m, m);
    MulLess(m, P(n), P(n));
    MulMonotone(m, m, m, P(n));
  }

  lemma NoCarryLeft(t: nat, total: nat, c: nat, n: nat)
    requires t + c * P(n) == total < P(n)
    ensures c == 0
  {
    if c > 0 { MulLess(1, c, P(n)); }
  }

  lemma SquareValue(m: nat, e: nat)
    ensures (m * m) * P(e * 2) == (m * P(e)) * (m * P(e))
  {
    PowAddP(e, e);
    MulShuffle(m, m, P(e), P(e));
    assert P(e) * m == m * P(e);
  }

  predicate IsPowerOfTwo(m: nat) {
    m == 1 || (m > 1 && m % 2 == 0 && IsPowerOfTwo(m / 2))
  }

  /** Divides out the factors 2 of the base. */
  method StripTwos(base0: uint16) returns (base: uint16, shifts: nat)
    requires base0 > 0
    ensures base == OddPart(base0) && shifts == Twos(base0)
  {
    base, shifts := base0, 0;
    while base % 2 == 0
      invariant 0 < base && OddPart(base) == OddPart(base0) && shifts + Twos(base) == Twos(base0)
      decreases base
    {
      base := base / 2;
      shifts := shifts + 1;
    }
  }

  method CountBits(base: uint16) returns (bit_size: nat)
    ensures bit_size == BitLength(base)
  {
    bit_size := 0;
    var tmp_base := base;
    while tmp_base != 0
      invariant 0 <= tmp_base && bit_size + BitLength(tmp_base) == BitLength(base)
      decreases tmp_base
    {
      tmp_base := tmp_base / 2;
      bit_size := bit_size + 1;
    }
  }

  /** The bits of n above mask's are the exponent reached so far. */
  ghost predicate Progress(n: nat, mask: nat, done: nat) {
    if mask == 0 then done == n else IsPowerOfTwo(mask) && done == n / (2 * mask)
  }

  /** The mask of the second highest bit of n, or 0 if there is none. */
  method MaskAbove(n: nat) returns (mask: nat)
    requires n > 0
    ensures Progress(n, mask, 1)
  {
    mask := 1;
    while n >= mask
      invariant IsPowerOfTwo(mask) && (mask == 1 || mask / 2 <= n)
      decreases n + 1 - mask
    {
      mask := mask * 2;
    }
    mask := mask / 4;
    if mask > 0 { DivModUnique(n, 2 * mask, 1, n - 2 * mask); }
  }

  lemma PowOne(b: nat)
    ensures Pow(b, 1) == b
  {
    PowNone(b);
  }

  /** Bit by bit from the top: the next prefix of n is twice the last one plus the next bit. */
  lemma HalfPower(mask: nat)
    requires mask > 0 && IsPowerOfTwo(mask)
    ensures mask > 1 ==> mask == 2 * (mask / 2) && IsPowerOfTwo(mask / 2)
  {}

  lemma NothingTimes(s0: seq<uint32>, s: seq<uint32>, factor: nat, e: nat)
    ensures Eval(s0, 0) == 0 == Eval(s, 0) && 0 * factor == 0 && 0 * P(e) == 0
  {}

  lemma NextBit(n: nat, mask: nat, done: nat)
    requires mask > 0 && Progress(n, mask, done)
    ensures n / mask == 2 * done + n / mask % 2 <= n
    ensures Progress(n, mask / 2, n / mask)
  {
    hide IsPowerOfTwo;
    HalfPower(mask);
    HalfQuotient(n, mask);
    if mask == 1 { DivModUnique(n, 1, n, 0); }
  }

  lemma HalfQuotient(n: nat, mask: nat)
    requires mask > 0
    ensures n / mask == 2 * (n / (2 * mask)) + n / mask % 2 <= n
  {
    var q, r, a, b := n / mask, n % mask, n / mask / 2, n / mask % 2;
    DivModDefinition(n, mask);
    MulDistribute(2 * a, b, mask);
    MulAssociate(a, 2, mask);
    BitTimes(b, mask);
    DivModUnique(n, 2 * mask, a, b * mask + r);
    if q > n { QuotientSmall(n, mask, q); }
  }

  lemma BitTimes(b: nat, mask: nat)
    requires b < 2
    ensures b * mask == if b == 1 then mask else 0
  {}

  lemma QuotientSmall(n: nat, mask: nat, q: nat)
    requires mask > 0 && q * mask <= n
    ensures q <= n
  {
    if q > n { MulGap(n, q, mask); }
  }

  /** The loop of AssignPowerUInt16 that works in a 64-bit word. */
  method PowerInWord(base: uint16, bit_size: nat, power_exponent: nat, m: nat)
      returns (this_value: uint64, delayed: bool, mask: nat, ghost done: nat)
    requires base > 0 && bit_size == BitLength(base) && power_exponent > 0
    requires Progress(power_exponent, m, 1)
    ensures Progress(power_exponent, mask, done) && done <= power_exponent
    ensures this_value * (if delayed then base else 1) == Pow(base, done)
  {
    hide Pow, BitLength;
    this_value, delayed, mask, done := base, false, m, 1;
    PowOne(base);
    WordBits(base, bit_size);
    while mask != 0 && this_value < TWO32
      invariant Progress(power_exponent, mask, done) && done <= power_exponent
      invariant 0 < this_value < TWO64 && (delayed ==> this_value >= TWO32)
      invariant this_value * (if delayed then base else 1) == Pow(base, done)
      decreases mask
    {
      NextBit(power_exponent, mask, done);
      PowAdd(base, done, done);
      SquareInWord(this_value);
      this_value := this_value * this_value;
      if power_exponent / mask % 2 != 0 {
        PowAdd(base, 2 * done, 1);
        if this_value < Two(64 - bit_size) {
          TimesBaseInWord(this_value, base, bit_size);
          this_value := this_value * base;
        } else {
          delayed := true;
        }
      }
      done := power_exponent / mask;
      mask := mask / 2;
    }
  }

  lemma SquareInWord(v: nat)
    requires 0 < v < TWO32
    ensures 0 < v * v < TWO64
  {
    MulPositive(v, v);
    MulMonotone(v, v, TWO32 - 1, TWO32 - 1);
  }

  lemma WordPowers()
    ensures Pow(2, 16) == TWO16 && Pow(2, 32) == TWO32 && Pow(2, 64) == TWO64
  {
    hide Pow;
    PowOne(2);
    PowAdd(2, 1, 1);
    PowAdd(2, 2, 2);
    PowAdd(2, 4, 4);
    PowAdd(2, 8, 8);
    PowAdd(2, 16, 16);
    PowAdd(2, 32, 32);
  }

  lemma WordBits(base: uint16, bit_size: nat)
    requires bit_size == BitLength(base)
    ensures bit_size <= 16 && Two(64 - bit_size) >= TWO32
  {
    hide Pow, BitLength;
    WordPowers();
    BitLengthMonotone(base, 16);
    Pow2Less(32, 64 - bit_size);
  }

  lemma TimesBaseInWord(v: nat, base: uint16, bit_size: nat)
    requires base > 0 && bit_size == BitLength(base) && bit_size <= 16 && 0 < v < Two(64 - bit_size)
    ensures 0 < v * base < TWO64
  {
    hide Pow, BitLength;
    WordPowers();
    BitLengthBounds(base);
    MulPositive(v, base);
    MulLess(v, Pow(2, 64 - bit_size), base);
    MulLess(base, Pow(2, bit_size), Pow(2, 64 - bit_size));
    PowAdd(2, 64 - bit_size, bit_size);
  }

  /** Every intermediate power is below 2^final_size, which the capacity check covers. */
  lemma PowerRoom(base: uint16, bit_size: nat, n: nat, done: nat)
    requires base > 0 && bit_size == BitLength(base) && done <= n
    requires bit_size * n / BIGIT_SIZE + 2 <= CAPACITY
    ensures Pow(base, done) <= Pow(2, bit_size * n) < P(CAPACITY - 1) < P(CAPACITY)
  {
    hide Pow, P, BitLength;
    BitLengthBounds(base);
    PowBaseMonotone(base, Pow(2, bit_size), done);
    PowMul(2, bit_size, done);
    MulMonotone(bit_size, done, bit_size, n);
    Pow2Less(bit_size * done, bit_size * n);
    PAsPow2(CAPACITY - 1);
    Pow2Less(bit_size * n, BIGIT_SIZE * (CAPACITY - 1));
    PLess(CAPACITY - 1, CAPACITY);
  }

  /** Twice the digits of base^done fit if base^(2 * done) is an intermediate power. */
  lemma SquareRoom(base: uint16, bit_size: nat, n: nat, done: nat, used: nat)
    requires base > 0 && bit_size == BitLength(base) && 2 * done <= n
    requires bit_size * n / BIGIT_SIZE + 2 <= CAPACITY
    requires used > 0 ==> P(used - 1) <= Pow(base, done)
    ensures 2 * used <= CAPACITY
  {
    hide Pow, P, BitLength;
    if used > 0 {
      PowerRoom(base, bit_size, n, 2 * done);
      PowAdd(base, done, done);
      MulMonotone(P(used - 1), P(used - 1), Pow(base, done), Pow(base, done));
      PowAddP(used - 1, used - 1);
      PAsPow2(used - 1 + used - 1);
      Pow2Less(BIGIT_SIZE * (used - 1 + used - 1), bit_size * n);
    }
  }

  lemma PowerLength(base: uint16, bit_size: nat, n: nat, done: nat, used: nat, e: nat, v: nat)
    requires base > 0 && bit_size == BitLength(base) && done <= n
    requires bit_size * n / BIGIT_SIZE + 2 <= CAPACITY
    requires v == Pow(base, done) && (used > 0 ==> P(used + e - 1) <= v)
    ensures used < CAPACITY
  {
    hide Pow, P, BitLength;
    if used > 0 {
      PowerRoom(base, bit_size, n, done);
      PLess(used + e - 1, CAPACITY - 1);
    }
  }

  lemma {:induction false} Stripped(b: nat)
    requires b > 0
    ensures b == OddPart(b) * Pow(2, Twos(b))
    decreases b
  {
    if b % 2 == 0 {
      Stripped(b / 2);
      MulAssociate(OddPart(b), Pow(2, Twos(b / 2)), 2);
    }
  }

  lemma StrippedPower(b: nat, odd: nat, shifts: nat, n: nat)
    requires b > 0 && odd == OddPart(b) && shifts == Twos(b)
    ensures Pow(odd, n) * Pow(2, shifts * n) == Pow(b, n)
  {
    Stripped(b);
    PowProduct(odd, Pow(2, shifts), n);
    PowMul(2, shifts, n);
  }

  method ReadUInt64(buffer: seq<char>, from: nat, digits_to_read: nat) returns (result: uint64)
    requires AllDigits(buffer) && from + digits_to_read <= |buffer| && digits_to_read <= 19
    ensures result == Dec(buffer[from..from + digits_to_read])
  {
    hide Dec, Pow10;
    result := 0;
    DecZeros(buffer[from..from]);
    for i := from to from + digits_to_read
      invariant result == Dec(buffer[from..i])
    {
      var digit := DigitOf(buffer[i]);
      DecAppend(buffer[from..i], buffer[i]);
      assert buffer[from..i + 1] == buffer[from..i] + [buffer[i]];
      DecBounds(buffer[from..i + 1]);
      NineteenDigits(i + 1 - from);
      result := result * 10 + digit;
    }
  }

  lemma NineteenDigits(n: nat)
    requires n <= 19
    ensures Pow10(n) < TWO64
  {
    hide Pow;
    PowOne(10);
    PowAdd(10, 1, 1);
    PowAdd(10, 2, 1);
    PowAdd(10, 3, 3);
    PowAdd(10, 6, 6);
    PowAdd(10, 12, 6);
    PowAdd(10, 18, 1);
    PowMonotone(10, n, 19);
  }

  /** Reading n more digits of a string. */
  lemma DecimalChunk(value: seq<char>, pos: nat, n: nat)
    requires AllDigits(value) && pos + n <= |value|
    ensures Dec(value[..pos + n]) == Dec(value[..pos]) * Pow10(n) + Dec(value[pos..pos + n])
    ensures 0 <= Dec(value[..pos + n]) < Pow10(|value|)
  {
    assert value[..pos + n] == value[..pos] + value[pos..pos + n];
    DecConcat(value[..pos], value[pos..pos + n]);
    DecBounds(value[..pos + n]);
    PowMonotone(10, pos + n, |value|);
  }

  lemma FitsBelowZero(v: nat, n: nat, e: nat, k: nat)
    requires v < P(k) && (n > 0 ==> P(n + e - 1) <= v)
    ensures n <= k
  {
    if n > k { PLess(k, n + e - 1); }
  }

  lemma AddValue(m: int, o: int, off: nat, e: nat)
    ensures (m + o * P(off)) * P(e) == m * P(e) + o * P(off + e)
    ensures (m - o * P(off)) * P(e) == m * P(e) - o * P(off + e)
  {
    PowAdd(BASE, off, e);
    MulAssociate(o, P(off), P(e));
    MulDistribute(m, o * P(off), P(e));
  }

  lemma AlignedOrder(m: nat, o: nat, off: nat, e: nat)
    requires o * P(off + e) <= m * P(e)
    ensures o * P(off) <= m
  {
    AddValue(0, o, off, e);
    AddValue(m, o, off, e);
    MulLess(o * P(off), m, P(e));
  }

  lemma Rescaled(m: nat, f: nat, n: nat, e: nat)
    requires 0 < n && P(n - 1) <= m && 0 < f && m * f < P(CAPACITY)
    ensures P(n - 1) <= f * m < P(CAPACITY) && f * m == m * f
    ensures (f * m) * P(e) == (m * P(e)) * f
  {
    MulLess(1, f, m);
    MulAssociate(f, m, P(e));
  }

  /** A carry that is part of a number fitting into the cells has a cell to go to. */
  lemma SpreadRoom(e: nat, c: nat, n: nat, total: nat)
    requires c > 0 && e + c * P(n) == total < P(CAPACITY)
    ensures n < CAPACITY && P(n) <= total
  {
    MulLess(1, c, P(n));
    PLess(n, CAPACITY);
  }
}
