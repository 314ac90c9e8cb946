/** Sequences of base 2^28 digits, least significant first: the number they denote, and the
    facts about it that the in-place bignum algorithms need. */
module Bigits {
  import opened Words

  const BIGIT_SIZE: nat := 28
  const BASE: nat := 0x1000_0000

  ghost predicate Proper(s: seq<uint32>) {
    forall i :: 0 <= i < |s| ==> s[i] < BASE
  }

  /** BASE^n */
  ghost function P(n: nat): (p: nat)
    ensures p > 0
  {
    Pow(BASE, n)
  }

  /** The number denoted by the first n digits of s. */
  ghost function Eval(s: seq<uint32>, n: nat): (v: nat)
    requires n <= |s|
  {
    if n == 0 then 0 else MulPositive(s[n - 1], P(n - 1)); Eval(s, n - 1) + s[n - 1] * P(n - 1)
  }

  lemma BaseIsPow()
    ensures Pow(2, BIGIT_SIZE) == BASE
  {
    assert Pow(2, 3) == 8;
    PowAdd(2, 3, 4);
    PowAdd(2, 7, 7);
    PowAdd(2, 14, 14);
  }

  lemma PSucc(n: nat)
    ensures P(n + 1) == BASE * P(n)
  {}

  lemma EvalNone(s: seq<uint32>)
    ensures Eval(s, 0) == 0
  {}

  lemma EvalStep(s: seq<uint32>, n: nat)
    requires 0 < n <= |s|
    ensures Eval(s, n) == Eval(s, n - 1) + s[n - 1] * P(n - 1)
  {}

  lemma {:induction false} EvalSame(s: seq<uint32>, t: seq<uint32>, n: nat)
    requires n <= |s| && n <= |t|
    requires forall i :: 0 <= i < n ==> s[i] == t[i]
    ensures Eval(s, n) == Eval(t, n)
    decreases n
  {
    if n > 0 { EvalSame(s, t, n - 1); }
  }

  lemma {:induction false} EvalBound(s: seq<uint32>, n: nat)
    requires n <= |s| && forall i :: 0 <= i < n ==> s[i] < BASE
    ensures Eval(s, n) < P(n)
    decreases n
  {
    if n > 0 {
      EvalBound(s, n - 1);
      MulGap(s[n - 1], BASE, P(n - 1));
    }
  }

  /** A number whose leading digit is not zero. */
  lemma EvalLeading(s: seq<uint32>, n: nat)
    requires 0 < n <= |s| && s[n - 1] != 0
    ensures Eval(s, n) >= s[n - 1] * P(n - 1) >= P(n - 1)
  {
    MulLess(1, s[n - 1], P(n - 1));
  }

  /** Trailing zero digits (at the most significant end) do not count. */
  lemma {:induction false} EvalZeros(s: seq<uint32>, m: nat, n: nat)
    requires m <= n <= |s| && forall i :: m <= i < n ==> s[i] == 0
    ensures Eval(s, n) == Eval(s, m)
    decreases n
  {
    if m < n {
      EvalZeros(s, m, n - 1);
      assert 0 * P(n - 1) == 0;
    }
  }

  /** Low part and high part. */
  lemma {:induction false} EvalSplit(s: seq<uint32>, k: nat, n: nat)
    requires k <= n <= |s|
    ensures Eval(s, n) == Eval(s, k) + Eval(s[k..], n - k) * P(k)
    decreases n
  {
    if k < n {
      EvalSplit(s, k, n - 1);
      PowAdd(BASE, n - 1 - k, k);
      var h, d, q, p := Eval(s[k..], n - 1 - k), s[n - 1], P(n - 1 - k), P(k);
      MulDistribute(h, d * q, p);
      MulAssociate(d, q, p);
      EvalStep(s[k..], n - k);
    } else {
      assert Eval(s[k..], 0) * P(k) == 0;
    }
  }

  /** Shifting by whole digits: k zero digits below s. */
  lemma EvalShift(s: seq<uint32>, t: seq<uint32>, k: nat, n: nat)
    requires n <= |s| && k + n <= |t|
    requires forall i :: 0 <= i < k ==> t[i] == 0
    requires forall i :: 0 <= i < n ==> t[k + i] == s[i]
    ensures Eval(t, k + n) == Eval(s, n) * P(k)
  {
    EvalSplit(t, k, k + n);
    EvalZeros(t, 0, k);
    EvalSame(s, t[k..], n);
  }

  /** The digits of s from position i upward, as a number. */
  ghost function High(s: seq<uint32>, i: nat): (v: nat)
    decreases |s| - i
  {
    if i >= |s| then 0 else s[i] + 0x1000_0000 * High(s, i + 1)
  }

  lemma {:induction false} HighSplit(s: seq<uint32>, i: nat)
    requires i <= |s|
    ensures Eval(s, |s|) == Eval(s, i) + High(s, i) * P(i)
    decreases |s| - i
  {
    if i < |s| {
      HighSplit(s, i + 1);
      PSucc(i);
      MulDistribute(s[i], BASE * High(s, i + 1), P(i));
      MulAssociate(BASE, High(s, i + 1), P(i));
      MulAssociate(High(s, i + 1), BASE, P(i));
    } else {
      assert High(s, i) * P(i) == 0;
    }
  }

  /** What lies below position i is a proper remainder, and it is zero if the digits there are. */
  lemma HighLow(s: seq<uint32>, i: nat)
    requires Proper(s)
    ensures High(s, i) * P(i) <= Eval(s, |s|) < High(s, i) * P(i) + P(i)
    ensures (forall j :: 0 <= j < i && j < |s| ==> s[j] == 0) ==> Eval(s, |s|) == High(s, i) * P(i)
  {
    if i <= |s| {
      HighSplit(s, i);
      EvalBound(s, i);
      if forall j :: 0 <= j < i && j < |s| ==> s[j] == 0 { EvalZeros(s, 0, i); }
    } else {
      EvalBound(s, |s|);
      PowMonotone(BASE, |s|, i);
      assert High(s, i) * P(i) == 0;
      if forall j :: 0 <= j < i && j < |s| ==> s[j] == 0 { EvalZeros(s, 0, |s|); }
    }
  }

  /** A leading digit other than zero is the same as a value with that many digits. */
  lemma LeadingDigit(s: seq<uint32>, n: nat)
    requires 0 < n <= |s| && Proper(s)
    ensures s[n - 1] != 0 <==> Eval(s, n) >= P(n - 1)
  {
    EvalBound(s, n - 1);
    if s[n - 1] != 0 {
      EvalLeading(s, n);
    } else {
      assert s[n - 1] * P(n - 1) == 0;
    }
  }

  lemma PLess(m: nat, n: nat)
    ensures P(m) < P(n) <==> m < n
    ensures P(m) <= P(n) <==> m <= n
  {
    if m < n { PowStrict(BASE, m, n); }
    if n < m { PowStrict(BASE, n, m); }
  }

  /** Writing digit n extends the denoted number by that digit. */
  lemma EvalAppend(s: seq<uint32>, t: seq<uint32>, n: nat)
    requires n < |s| == |t| && forall i :: 0 <= i < n ==> s[i] == t[i]
    ensures Eval(t, n + 1) == Eval(s, n) + t[n] * P(n)
  {
    EvalSame(s, t, n);
  }

  /** The columns up to and including i, after column i has been multiplied by f in place. */
  lemma ScaledColumns(s0: seq<uint32>, s: seq<uint32>, t: seq<uint32>, i: nat, f: int, c: int, hi: int)
    requires i < |s0| == |s| == |t| && forall j :: 0 <= j < i ==> s[j] == t[j]
    requires Eval(s, i) + c * P(i) == f * Eval(s0, i) && f * s0[i] + c == t[i] + BASE * hi
    ensures Eval(t, i + 1) + hi * P(i + 1) == f * Eval(s0, i + 1)
  {
    hide Eval, P;
    EvalAppend(s, t, i);
    EvalStep(s0, i + 1);
    ScaleStep(Eval(s, i), Eval(s0, i), f, s0[i], c, t[i], hi, P(i));
    PSucc(i);
  }

  /** One column of a multiplication by a single word: lo is written, hi carried on. */
  lemma ScaleStep(e: int, x: int, f: int, d: int, c: int, lo: int, hi: int, p: int)
    requires e + c * p == f * x
    requires f * d + c == lo + BASE * hi
    ensures (e + lo * p) + hi * (BASE * p) == f * (x + d * p)
  {
    calc {
      (e + lo * p) + hi * (BASE * p);
      { MulAssociate(hi, BASE, p); }
      e + lo * p + (BASE * hi) * p;
      { MulDistribute(lo, BASE * hi, p); }
      e + (f * d + c) * p;
      { MulDistribute(f * d, c, p); }
      e + c * p + (f * d) * p;
      { MulAssociate(f, d, p); }
      f * x + f * (d * p);
      { MulDistribute(x, d * p, f); }
      f * (x + d * p);
    }
  }

  /** The carry out of a column stays below the factor. */
  lemma CarryBound(f: int, d: int, c: int, lo: int, hi: int)
    requires 0 <= c < f && 0 <= d < BASE && 0 <= lo
    requires f * d + c == lo + BASE * hi
    ensures hi < f
  {
    MulGap(d, BASE, f);
  }

  /** One step of spreading a carry over fresh digits. */
  lemma SpreadStep(e: int, c: int, p: int)
    requires 0 <= c
    ensures e + c * p == (e + c % BASE * p) + c / BASE * (BASE * p)
  {
    MulDistribute(c / BASE * BASE, c % BASE, p);
    MulAssociate(c / BASE, BASE, p);
  }

  /** One column of t := s - f * o * BASE^off, with borrow br coming in and br' going out. */
  lemma ColumnStep(et: int, es: int, eo: int, f: int, a: int, b: int, br: int, lo: int, br': int,
                   off: nat, i: nat)
    requires et + (f * eo) * P(off) == es + br * P(off + i)
    requires a - f * b - br == lo - BASE * br'
    ensures (et + lo * P(off + i)) + (f * (eo + b * P(i))) * P(off)
         == (es + a * P(off + i)) + br' * P(off + i + 1)
  {
    var p := P(off + i);
    PowAdd(BASE, i, off);
    calc {
      (f * (eo + b * P(i))) * P(off);
      { MulDistribute(eo, b * P(i), f); MulAssociate(f, b, P(i)); }
      (f * eo + (f * b) * P(i)) * P(off);
      { MulDistribute(f * eo, (f * b) * P(i), P(off)); MulAssociate(f * b, P(i), P(off)); }
      (f * eo) * P(off) + (f * b) * p;
    }
    BorrowStep(et, es, (f * eo) * P(off), a - f * b, br, lo, br', off + i);
    MulDistribute(a, f * b, p);
  }

  /** The same where the subtrahend has no more digits; k is what was subtracted. */
  lemma BorrowStep(et: int, es: int, k: int, a: int, br: int, lo: int, br': int, n: nat)
    requires et + k == es + br * P(n)
    requires a - br == lo - BASE * br'
    ensures (et + lo * P(n)) + k == (es + a * P(n)) + br' * P(n + 1)
  {
    var p := P(n);
    PSucc(n);
    MulAssociate(br', BASE, p);
    MulDistribute(a, br, p);
    MulDistribute(lo, BASE * br', p);
  }

  /** Equal digits contribute equally. */
  lemma {:induction false} EvalTail(s: seq<uint32>, t: seq<uint32>, m: nat, n: nat)
    requires m <= n <= |s| && n <= |t|
    requires forall i :: m <= i < n ==> s[i] == t[i]
    ensures Eval(t, n) - Eval(t, m) == Eval(s, n) - Eval(s, m)
    decreases n
  {
    if m < n { EvalTail(s, t, m, n - 1); }
  }

  /** Addition: a column with carry c coming in and hi going out. */
  lemma AddStep(et: int, es: int, eo: int, a: int, b: int, c: int, lo: int, hi: int, off: nat, i: nat)
    requires et + c * P(off + i) == es + eo * P(off)
    requires a + b + c == lo + BASE * hi
    ensures (et + lo * P(off + i)) + hi * P(off + i + 1)
         == (es + a * P(off + i)) + (eo + b * P(i)) * P(off)
  {
    PowAdd(BASE, i, off);
    MulDistribute(eo, b * P(i), P(off));
    MulAssociate(b, P(i), P(off));
    MulDistribute(a, b, P(off + i));
    CarryStep(et, es, eo * P(off), a + b, c, lo, hi, off + i);
  }

  lemma CarryStep(et: int, es: int, k: int, a: int, c: int, lo: int, hi: int, n: nat)
    requires et + c * P(n) == es + k
    requires a + c == lo + BASE * hi
    ensures (et + lo * P(n)) + hi * P(n + 1) == (es + a * P(n)) + k
  {
    PSucc(n);
    MulAssociate(hi, BASE, P(n));
    MulDistribute(a, c, P(n));
    MulDistribute(lo, BASE * hi, P(n));
  }

  /** The digits including the hidden zeros that an exponent stands for. */
  ghost function Virtual(s: seq<uint32>, n: nat, e: nat): (v: seq<uint32>)
    requires n <= |s|
    ensures |v| == e + n
    ensures Proper(s) ==> Proper(v)
  {
    seq(e, _ => 0) + s[..n]
  }

  lemma VirtualValue(s: seq<uint32>, n: nat, e: nat)
    requires n <= |s|
    ensures Eval(Virtual(s, n, e), e + n) == Eval(s, n) * P(e)
  {
    EvalShift(s, Virtual(s, n, e), e, n);
  }

  function At(s: seq<uint32>, i: nat): uint32 {
    if i < |s| then s[i] else 0
  }

  lemma HighStep(s: seq<uint32>, i: nat)
    ensures High(s, i) == At(s, i) + 0x1000_0000 * High(s, i + 1)
  {}

  lemma HighEnd(s: seq<uint32>, i: nat)
    requires |s| <= i
    ensures High(s, i) == 0
  {}

  /** High part of c - a - b. */
  ghost function Net(a: seq<uint32>, b: seq<uint32>, c: seq<uint32>, i: nat, n: nat): int
    decreases n - i
  {
    if i >= n then 0 else At(c, i) - At(a, i) - At(b, i) + 0x1000_0000 * Net(a, b, c, i + 1, n)
  }

  lemma {:induction false} NetHigh(a: seq<uint32>, b: seq<uint32>, c: seq<uint32>, i: nat, n: nat)
    requires |a| <= n && |b| <= n && |c| <= n
    ensures Net(a, b, c, i, n) == High(c, i) - High(a, i) - High(b, i)
    decreases n - i
  {
    if i < n {
      HighStep(a, i);
      HighStep(b, i);
      HighStep(c, i);
      NetHigh(a, b, c, i + 1, n);
    }
  }

  /** A borrow cannot leave the top digit if what is subtracted is no more than the number. */
  lemma NoBorrowLeft(t: nat, m: nat, k: int, br: nat, n: nat)
    requires t < P(n) && k <= m && t + k == m + br * P(n)
    ensures br == 0
  {
    if br > 0 { MulLess(1, br, P(n)); }
  }

  lemma BorrowRoom(t: nat, m: nat, k: int, br: nat, i: nat, n: nat)
    requires i <= n && br > 0 && t < P(i) && t + k == m + br * P(i) && (i == n ==> k <= m)
    ensures i < n
  {
    if i == n { NoBorrowLeft(t, m, k, br, n); }
  }

  /** The product of digits i and k - i of s, if k - i is a digit position below n. */
  ghost function Pair(s: seq<uint32>, i: nat, n: nat, k: nat): (p: nat)
    requires i < |s| && n <= |s|
  {
    if 0 <= k - i < n then MulPositive(s[i], s[k - i]); (s[i] as int) * (s[k - i] as int) else 0
  }

  /** Column k of the product of the first m digits of s with its first n digits. */
  ghost function Col(s: seq<uint32>, m: nat, n: nat, k: nat): (c: nat)
    requires m <= n <= |s|
  {
    if m == 0 then 0 else Col(s, m - 1, n, k) + Pair(s, m - 1, n, k)
  }

  /** The columns below position top, each in its place. */
  ghost function Cols(s: seq<uint32>, m: nat, n: nat, top: nat): nat
    requires m <= n <= |s|
  {
    if top == 0 then 0
    else MulPositive(Col(s, m, n, top - 1), P(top - 1)); Cols(s, m, n, top - 1) + Col(s, m, n, top - 1) * P(top - 1)
  }

  lemma ColsStep(s: seq<uint32>, m: nat, n: nat, top: nat)
    requires m <= n <= |s|
    ensures Cols(s, m, n, top + 1) == Cols(s, m, n, top) + Col(s, m, n, top) * P(top)
  {}

  /** One more digit in the first factor adds that digit times the second factor. */
  lemma {:induction false} ColsRow(s: seq<uint32>, m: nat, n: nat, top: nat)
    requires m < n <= |s| && top <= m + n
    ensures Cols(s, m + 1, n, top)
         == Cols(s, m, n, top) + (s[m] * P(m)) * Eval(s, if top < m then 0 else top - m)
    decreases top
  {
    hide P, Eval, Pair;
    if top == 0 {
      EvalNone(s);
      MulZero(s[m] * P(m));
    } else {
      var k := top - 1;
      ColsRow(s, m, n, k);
      var c, e := Col(s, m, n, k), Pair(s, m, n, k);
      assert Col(s, m + 1, n, k) == c + e;
      MulDistribute(c, e, P(k));
      PairTerm(s, m, n, k);
    }
  }

  lemma PairTerm(s: seq<uint32>, m: nat, n: nat, k: nat)
    requires m < n <= |s| && k < m + n
    ensures Pair(s, m, n, k) * P(k)
         == (s[m] * P(m)) * Eval(s, if k + 1 < m then 0 else k + 1 - m)
          - (s[m] * P(m)) * Eval(s, if k < m then 0 else k - m)
  {
    hide P, Eval;
    if k < m {
      MulZero(P(k));
    } else {
      PowAddP(k - m, m);
      var a, b, pm, pd := s[m], s[k - m], P(m), P(k - m);
      RowTerm(a, b, pm, pd, P(k));
      EvalStep(s, k - m + 1);
      MulSum(a * pm, Eval(s, k - m), b * pd);
    }
  }

  lemma PowAddP(m: nat, n: nat)
    ensures P(m + n) == P(m) * P(n)
  {
    PowAdd(BASE, m, n);
  }

  lemma RowTerm(a: int, b: int, pm: int, pd: int, pk: int)
    requires pk == pd * pm
    ensures (a * b) * pk == (a * pm) * (b * pd)
  {
    MulAssociate(a * b, pd, pm);
    MulAssociate(a, b, pd);
    MulAssociate(a, b * pd, pm);
    MulAssociate(a, pm, b * pd);
  }

  lemma MulSum(k: int, x: int, y: int)
    ensures k * (x + y) == k * x + k * y
  {}

  /** The columns add up to the product. */
  lemma {:induction false} ColsProduct(s: seq<uint32>, m: nat, n: nat)
    requires m <= n <= |s|
    ensures Cols(s, m, n, 2 * n) == Eval(s, m) * Eval(s, n)
    decreases m
  {
    if m == 0 {
      ColsNone(s, n, 2 * n);
      MulZero(Eval(s, n));
    } else {
      ColsProduct(s, m - 1, n);
      ColsRow(s, m - 1, n, m - 1 + n);
      ColsHigh(s, m - 1, n, m - 1 + n, 2 * n);
      ColsHigh(s, m, n, m - 1 + n, 2 * n);
      MulDistribute(Eval(s, m - 1), s[m - 1] * P(m - 1), Eval(s, n));
    }
  }

  lemma {:induction false} ColsNone(s: seq<uint32>, n: nat, top: nat)
    requires n <= |s|
    ensures Cols(s, 0, n, top) == 0
    decreases top
  {
    if top > 0 {
      ColsNone(s, n, top - 1);
      MulZero(P(top - 1));
    }
  }

  /** Columns past the last pair of digits are empty. */
  lemma {:induction false} ColEmpty(s: seq<uint32>, m: nat, n: nat, k: nat)
    requires m <= n <= |s| && m + n <= k + 1
    ensures Col(s, m, n, k) == 0
    decreases m
  {
    if m > 0 { ColEmpty(s, m - 1, n, k); }
  }

  lemma {:induction false} ColsHigh(s: seq<uint32>, m: nat, n: nat, from: nat, top: nat)
    requires m <= n <= |s| && m + n <= from + 1 && from <= top
    ensures Cols(s, m, n, top) == Cols(s, m, n, from)
    decreases top
  {
    if from < top {
      ColsHigh(s, m, n, from, top - 1);
      ColEmpty(s, m, n, top - 1);
      MulZero(P(top - 1));
    }
  }

  /** Digits above k take no part in column k. */
  lemma {:induction false} ColLow(s: seq<uint32>, m: nat, n: nat, k: nat)
    requires k < m <= n <= |s|
    ensures Col(s, m, n, k) == Col(s, k + 1, n, k)
    decreases m
  {
    if k + 1 < m { ColLow(s, m - 1, n, k); }
  }

  lemma {:induction false} ColBound(s: seq<uint32>, m: nat, n: nat, k: nat)
    requires m <= n <= |s| && Proper(s)
    ensures Col(s, m, n, k) <= m * 0xFF_FFFF_E000_0001
    decreases m
  {
    if m > 0 {
      ColBound(s, m - 1, n, k);
      if 0 <= k - (m - 1) < n { DigitProduct(s[m - 1], s[k - (m - 1)]); }
    }
  }

  lemma DigitProduct(a: nat, b: nat)
    requires a < BASE && b < BASE
    ensures 0 <= a * b <= 0xFF_FFFF_E000_0001
  {
    MulPositive(a, b);
    if b > 0 { MulLess(a, BASE - 1, b); }
  }

  lemma ColStep(s: seq<uint32>, m: nat, n: nat, k: nat)
    requires m < n <= |s|
    ensures Col(s, m + 1, n, k) == Col(s, m, n, k) + Pair(s, m, n, k)
  {}
}
