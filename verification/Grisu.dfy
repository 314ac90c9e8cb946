/** Grisu3 from the 64-bit word to the digits (Grisu3 and FastDtoa in shortest mode, fast-dtoa.cc,
    with the boundaries of ieee.h), and its agreement with the exact digit generation. */
module Grisu {
  import opened Words
  import opened Decimal
  import opened Ieee
  import opened Powers
  import opened ShortestDigits
  import opened ScaledStart
  import opened DoubleDtoa
  import opened DiyFps
  import opened FastDtoa
  import opened Strtod

  // ----- certain digits are the best digits -----

  /** x / q is less than one unit away from a. */
  ghost predicate Approximates(a: int, x: int, q: int) {
    (a - 1) * q < x < (a + 1) * q
  }

  /** Soundness of the digit generation: whatever LOW < W < HIGH the three inputs approximate, the
      digits lie strictly inside, no multiple of a larger power of ten does, and of the multiples
      of this power of ten inside no other is as near to W. */
  lemma CertainIsBest(v: int, low: int, w: int, high: int, k: int, u: int, lo: int, mid: int, hi: int, q: int, even: bool)
    requires k > 0 && u > 0 && q > 0 && NoTens(low, high, k, u)
    requires Certain(v, (high + 1) * u, k, (high - low + 2) * u, (high + 1 - w) * u, u)
    requires Approximates(low, lo, q) && Approximates(w, mid, q) && Approximates(high, hi, q)
    ensures Best(v, mid * u, q * k, (mid - lo) * u, (hi - mid) * u, even)
    ensures forall t: int :: t != v && Inside(t, mid * u, q * k, (mid - lo) * u, (hi - mid) * u, even)
              ==> Abs(v * (q * k) - mid * u) < Abs(t * (q * k) - mid * u)
  {
    hide NearestTo, Certain, NoTens;
    MulDistribute(mid, mid - lo, u);
    MulDistribute(mid, hi - mid, u);
    SafeIsInside(v, low, w, high, k, u, lo, hi, q);
    var n, d, dm, dp := mid * u, q * k, (mid - lo) * u, (hi - mid) * u;
    forall t: int ensures !TensInside(t, n, d, dm, dp, even) {
      UnsafeCoversTens(t, low, high, k, u, lo, hi, q);
    }
    forall t: int | Inside(t, mid * u, q * k, (mid - lo) * u, (hi - mid) * u, even) && t != v
      ensures Abs(v * (q * k) - mid * u) < Abs(t * (q * k) - mid * u) {
      StrictlyNearer(v, t, low, w, high, k, u, lo, mid, hi, q);
    }
  }

  /** x * u / q is less than u away from a * u. */
  lemma Magnified(a: int, x: int, q: int, u: int)
    requires Approximates(a, x, q) && u > 0
    ensures ((a - 1) * u) * q < x * u < ((a + 1) * u) * q
  {
    MulLess((a - 1) * q, x, u);
    MulLess(x, (a + 1) * q, u);
    MulAssociate(a - 1, q, u);
    MulAssociate(a - 1, u, q);
    MulAssociate(a + 1, q, u);
    MulAssociate(a + 1, u, q);
  }

  lemma SafeIsInside(v: int, low: int, w: int, high: int, k: int, u: int, lo: int, hi: int, q: int)
    requires k > 0 && u > 0 && q > 0
    requires Certain(v, (high + 1) * u, k, (high - low + 2) * u, (high + 1 - w) * u, u)
    requires Approximates(low, lo, q) && Approximates(high, hi, q)
    ensures lo * u < v * (q * k) < hi * u
  {
    hide NearestTo;
    Magnified(low, lo, q, u);
    Magnified(high, hi, q, u);
    MulDistribute(high + 1, high - low + 2, u);
    MulDistribute(low + 1, 2, u);
    MulDistribute(low - 1, 4, u);
    MulDistribute(high + 1, 2, u);
    MulLess((low + 1) * u, v * k, q);
    MulLess(v * k, (high - 1) * u, q);
    MulAssociate(v, k, q);
  }

  lemma UnsafeCoversTens(t: int, low: int, high: int, k: int, u: int, lo: int, hi: int, q: int)
    requires k > 0 && u > 0 && q > 0 && NoTens(low, high, k, u)
    requires Approximates(low, lo, q) && Approximates(high, hi, q)
    ensures (10 * t) * (q * k) < lo * u || (10 * t) * (q * k) > hi * u
  {
    Magnified(low, lo, q, u);
    Magnified(high, hi, q, u);
    var p := t * (10 * k);
    assert !TensUnsafe(t, low, high, k, u);
    MulLess((low - 1) * u, p, q);
    MulLess(p, (high + 1) * u, q);
    MulAssociate(t, 10, k);
    MulAssociate(10 * t, k, q);
  }

  lemma StrictlyNearer(v: int, t: int, low: int, w: int, high: int, k: int, u: int, lo: int, mid: int, hi: int, q: int)
    requires k > 0 && u > 0 && q > 0 && t != v && lo * u <= t * (q * k) <= hi * u
    requires Certain(v, (high + 1) * u, k, (high - low + 2) * u, (high + 1 - w) * u, u)
    requires Approximates(low, lo, q) && Approximates(w, mid, q) && Approximates(high, hi, q)
    ensures Abs(v * (q * k) - mid * u) < Abs(t * (q * k) - mid * u)
  {
    var total, unsafe, distance := (high + 1) * u, (high - low + 2) * u, (high + 1 - w) * u;
    Magnified(low, lo, q, u);
    Magnified(w, mid, q, u);
    Magnified(high, hi, q, u);
    var x, y, a, b := v * k, t * k, (w - 1) * u, (w + 1) * u;
    MulAssociate(v, k, q);
    MulAssociate(t, k, q);
    MulDistribute(high + 1, high - low + 2, u);
    MulLess((low - 1) * u, y, q);
    MulLess(y, total, q);
    assert Candidate(t, total, k, unsafe);
    MulDistribute(high + 1, high + 1 - w, u);
    MulDistribute(w, 1, u);
    MulLess(v, t, k);
    FartherOutside(x, y, a, b, mid * u, q);
  }

  /** What is nearest to both ends is strictly nearest to everything between. */
  lemma FartherOutside(x: int, y: int, a: int, b: int, m: int, q: int)
    requires q > 0 && x != y && a * q < m < b * q
    requires Abs(x - a) <= Abs(y - a) && Abs(x - b) <= Abs(y - b)
    ensures Abs(x * q - m) < Abs(y * q - m)
  {
    MulLess(x, y, q);
    MulLess(x, a, q);
    MulLess(x, b, q);
    MulLess(y, a, q);
    MulLess(y, b, q);
    MulDistribute(x, y, q);
    MulLess(x + y, 2 * a, q);
    MulLess(x + y, 2 * b, q);
    MulAssociate(2, a, q);
    MulAssociate(2, b, q);
  }

  // ----- the normalized value and boundaries -----

  /** f * 2^e is X units. */
  ghost predicate InUnits(f: int, e: int, X: int) {
    f * TwoUp(e + UNIT) == X * TwoDown(e + UNIT)
  }

  /** The top bit is set, and the value is that of x * 2^e0. */
  ghost predicate NormalizedFrom(f: int, e: int, x: int, e0: int) {
    e <= e0 && f == x * Two(e0 - e) && UINT64_MSB <= f < TWO64
  }

  method AsNormalizedDiyFp(d64: uint64) returns (w: DiyFp)
    requires 0 < d64 < INFINITY
    ensures fresh(w) && NormalizedFrom(w.f, w.e, Significand(d64), Exponent(d64))
    ensures 11 <= Exponent(d64) - w.e <= 63
  {
    hide Two, Significand, Exponent;
    Ranges(d64);
    TwoNone();
    var f: uint64, e := Significand(d64), Exponent(d64);
    while f < HIDDEN_BIT
      invariant 0 < f < 2 * HIDDEN_BIT && 0 <= Exponent(d64) - e && f == Significand(d64) * Two(Exponent(d64) - e)
      invariant Two(Exponent(d64) - e) <= f
      decreases 2 * HIDDEN_BIT - f
    {
      OneMore(Significand(d64), Exponent(d64) - e, 1);
      f := f * 2;
      e := e - 1;
    }
    OneMore(Significand(d64), Exponent(d64) - e, 11);
    f := f * 2048;
    e := e - 11;
    FewShifts(Exponent(d64) - e, f);
    w := new DiyFp(f, e);
  }

  lemma OneMore(x: nat, n: nat, m: nat)
    ensures x * Two(n + m) == (x * Two(n)) * Two(m) && Two(n + m) == Two(n) * Two(m)
    ensures Two(1) == 2 && Two(11) == 2048
  {
    hide Two;
    TwoAdd(n, m);
    MulAssociate(x, Two(n), Two(m));
    TwoTens();
    TwoAdd(10, 1);
  }

  /** A number has only one normalized form. */
  lemma NormalizedOnce(x: nat, m: nat, n: nat)
    requires UINT64_MSB <= x * Two(m) < TWO64 && UINT64_MSB <= x * Two(n) < TWO64
    ensures m == n
  {
    hide Two;
    if m < n { NotTwice(x, m, n); }
    if n < m { NotTwice(x, n, m); }
  }

  lemma NotTwice(x: nat, m: nat, n: nat)
    requires m < n && UINT64_MSB <= x * Two(m)
    ensures TWO64 <= x * Two(n)
  {
    hide Two;
    OneMore(x, m, n - m);
    TwoMonotone(1, n - m);
    TwoTens();
    MulMonotone(UINT64_MSB, 2, x * Two(m), Two(n - m));
  }

  method NormalizedBoundaries(d64: uint64) returns (m_minus: DiyFp, m_plus: DiyFp, ghost s: nat)
    requires 0 < d64 < INFINITY
    ensures fresh(m_minus) && fresh(m_plus) && m_minus.e == m_plus.e == Exponent(d64) - s && 11 <= s <= 64
    ensures m_plus.f == (2 * Significand(d64) + 1) * Two(s - 1) && m_plus.f >= UINT64_MSB
    ensures m_minus.f == if LowerBoundaryIsCloser(d64) then (4 * Significand(d64) - 1) * Two(s - 2)
                         else (2 * Significand(d64) - 1) * Two(s - 1)
  {
    hide Two, Significand, Exponent;
    Ranges(d64);
    var f, e := Significand(d64), Exponent(d64);
    m_plus := new DiyFp(f * 2 + 1, e - 1);
    m_plus.Normalize();
    s := e - m_plus.e;
    EnoughShifts(2 * f + 1, s - 1);
    BoundaryFits(f, s);
    if LowerBoundaryIsCloser(d64) {
      m_minus := new DiyFp((f * 4 - 1) * Two(e - 2 - m_plus.e), m_plus.e);
    } else {
      m_minus := new DiyFp((f * 2 - 1) * Two(e - 1 - m_plus.e), m_plus.e);
    }
  }

  lemma EnoughShifts(x: nat, n: nat)
    requires x < 4 * HIDDEN_BIT && UINT64_MSB <= x * Two(n)
    ensures n >= 10
  {
    hide Two;
    if n < 10 {
      TwoMonotone(n, 9);
      TwoTens();
      TwoAdd(9, 1);
      MulMonotone(x, Two(n), x, 512);
    }
  }

  lemma BoundaryFits(f: nat, s: nat)
    requires f > 0 && s >= 2
    ensures 0 <= (4 * f - 1) * Two(s - 2) < (2 * f + 1) * Two(s - 1)
    ensures 0 <= (2 * f - 1) * Two(s - 1) < (2 * f + 1) * Two(s - 1)
  {
    hide Two;
    OneMore(2 * f + 1, s - 2, 1);
    MulAssociate(2 * f + 1, 2, Two(s - 2));
    MulAssociate(2 * f + 1, Two(s - 2), 2);
    MulLess(4 * f - 1, 4 * f + 2, Two(s - 2));
    MulLess(2 * f - 1, 2 * f + 1, Two(s - 1));
    MulLess(0, 4 * f - 1, Two(s - 2));
    MulLess(0, 2 * f - 1, Two(s - 1));
  }

  /** Shifting the significand up and the exponent down keeps the value. */
  lemma ShiftedUnits(x: nat, a: nat, n: nat)
    ensures InUnits(x * Two(n), a - n - UNIT, x * Two(a))
  {
    hide Two;
    TwoNone();
    var up, down := TwoUp(a - n), TwoDown(a - n);
    if a >= n { TwoAdd(n, a - n); } else { TwoAdd(a, n - a); }
    MulAssociate(x, Two(n), up);
    MulAssociate(x, Two(a), down);
  }

  // ----- the cached power of ten -----

  ghost function PowerNumerator(ce: int, mk: int): (p: nat)
    ensures p > 0
  {
    MulPositive(TenUp(mk), TwoDown(ce));
    TenUp(mk) * TwoDown(ce)
  }

  ghost function PowerDenominator(ce: int, mk: int): (p: nat)
    ensures p > 0
  {
    MulPositive(TenDown(mk), TwoUp(ce));
    TenDown(mk) * TwoUp(ce)
  }

  /** c * 2^ce is 10^mk to within half a unit of c. */
  ghost predicate HalfUnitPower(c: int, ce: int, mk: int) {
    && UINT64_MSB <= c < TWO64
    && 0 - PowerDenominator(ce, mk) <= 2 * (c * PowerDenominator(ce, mk) - PowerNumerator(ce, mk)) <= PowerDenominator(ce, mk)
  }

  /** What the table of cached powers provides for the windows of binary exponents that normalized
      doubles lead to: their exponents lie between -1137 and 960. */
  ghost predicate CacheOk(cached: (int, int) -> (uint64, int, int)) {
    forall low: int, high: int :: -1084 <= low <= 1013 && high == low + 28 ==>
      var power := cached(low, high);
      low <= power.1 <= high && HalfUnitPower(power.0, power.1, power.2)
  }

  /** Half a unit from the table and half a unit from the multiplication. */
  lemma ProductApproximates(x: int, c: int, n: int, d: int)
    requires 0 <= x < TWO64 && d > 0 && 0 - d <= 2 * (c * d - n) <= d
    ensures Approximates(RoundedProduct(x, c), x * n, TWO64 * d)
  {
    var r, g := RoundedProduct(x, c), c * d - n;
    ProductError(x, c);
    MulDistribute(r * TWO64, x * c, d);
    MulLess(0 - UINT64_MSB, r * TWO64 - x * c, d);
    MulLess(r * TWO64 - x * c, UINT64_MSB, d);
    MulAssociate(r, TWO64, d);
    MulAssociate(x, c, d);
    assert x * (c * d) - x * n == x * g by { MulDistribute(c * d, n, x); }
    SmallError(x, g, d);
    MulDistribute(r, 1, TWO64 * d);
  }

  lemma SmallError(x: int, g: int, d: int)
    requires 0 <= x < TWO64 && d > 0 && 0 - d <= 2 * g <= d
    ensures 0 - UINT64_MSB * d < x * g < UINT64_MSB * d
  {
    MulLess(x, TWO64, d);
    if x > 0 {
      MulLess(2 * g, d, x);
      MulLess(0 - d, 2 * g, x);
      MulAssociate(2, g, x);
      MulAssociate(-1, d, x);
    } else {
      MulZero(g);
    }
  }

  /** A position in the scaled numbers, over the common denominator and without its power of ten. */
  lemma PositionScaled(x: nat, X: nat, e: int, ce: int, mk: int, kappa: int)
    requires InUnits(x, e, X) && -60 <= e + ce + 64 <= -32
    ensures Scaled(x * PowerNumerator(ce, mk), X, (TWO64 * PowerDenominator(ce, mk)) * Scale(e + ce + 64, kappa),
                   (if kappa > 0 then kappa else 0) - mk)
  {
    hide Two, TenUp, TenDown;
    var e10 := (if kappa > 0 then kappa else 0) - mk;
    var g := 0 - (e + ce);
    SixtyThree();
    TwoAdd(64, g - 64);
    TwosBalance(x, X, e, ce, g);
    TensBalance(mk, e10, kappa);
    Assemble(x, X, TenUp(mk), TwoDown(ce), TenUp(e10), Two(UNIT), TenDown(e10), TWO64, TenDown(mk), TwoUp(ce),
             Two(g - 64), TenUp(kappa));
  }

  lemma Assemble(x: int, X: int, a: int, b: int, c: int, d: int, p: int, q: int, r: int, s: int, t: int, v: int)
    requires (x * b) * d == (X * (q * t)) * s && a * c == (p * r) * v
    ensures (x * (a * b)) * (c * d) == X * (p * ((q * (r * s)) * (t * v)))
  {
    calc {
      (x * (a * b)) * (c * d);
      { MulAssociate(x, a, b); MulAssociate(x, b, a); Regroup(x * b, a, d, c); MulAssociate(x * a, b, c * d); }
      ((x * b) * d) * (a * c);
      ((X * (q * t)) * s) * ((p * r) * v);
      { Product8(X, q, t, s, p, r, v); }
      X * (p * ((q * (r * s)) * (t * v)));
    }
  }

  lemma Product8(X: int, q: int, t: int, s: int, p: int, r: int, v: int)
    ensures ((X * (q * t)) * s) * ((p * r) * v) == X * (p * ((q * (r * s)) * (t * v)))
  {
    var qt := q * t;
    calc {
      ((X * qt) * s) * ((p * r) * v);
      { MulAssociate(X, qt, s); MulAssociate(X, qt * s, (p * r) * v); }
      X * ((qt * s) * ((p * r) * v));
      { MulAssociate(p, r, v); MulAssociate(qt * s, p, r * v); MulAssociate(p, qt * s, r * v); }
      X * (p * ((qt * s) * (r * v)));
      {
        MulAssociate(qt, s, r * v);
        MulAssociate(s, r, v);
        MulAssociate(qt, r * s, v);
        Regroup(q, t, r * s, v);
      }
      X * (p * ((q * (r * s)) * (t * v)));
    }
  }

  lemma TensBalance(mk: int, e10: int, kappa: int)
    requires e10 + mk == if kappa > 0 then kappa else 0
    ensures TenUp(mk) * TenUp(e10) == (TenDown(e10) * TenDown(mk)) * TenUp(kappa)
  {
    hide Pow;
    PowNone(10);
    if mk >= 0 && e10 >= 0 {
      PowAdd(10, mk, e10);
    } else if mk >= 0 {
      PowAdd(10, 0 - e10, mk + e10);
    } else {
      PowAdd(10, 0 - mk, mk + e10);
    }
  }

  lemma TwosBalance(x: int, X: int, e: int, ce: int, g: nat)
    requires InUnits(x, e, X) && g == 0 - (e + ce)
    ensures (x * TwoDown(ce)) * Two(UNIT) == (X * Two(g)) * TwoUp(ce)
  {
    hide Two;
    var a := e + UNIT;
    var up, down := TwoUp(a), TwoDown(a);
    TwoThree(a, g, ce);
    MulLess((x * TwoDown(ce)) * Two(UNIT), (X * Two(g)) * TwoUp(ce), down);
    calc {
      ((x * TwoDown(ce)) * Two(UNIT)) * down;
      { MulAssociate(x, TwoDown(ce), Two(UNIT)); MulAssociate(x, TwoDown(ce) * Two(UNIT), down); MulAssociate(down, TwoDown(ce), Two(UNIT)); }
      x * ((down * TwoDown(ce)) * Two(UNIT));
      x * ((up * Two(g)) * TwoUp(ce));
      { MulAssociate(up, Two(g), TwoUp(ce)); MulAssociate(x, up, Two(g) * TwoUp(ce)); }
      (x * up) * (Two(g) * TwoUp(ce));
      (X * down) * (Two(g) * TwoUp(ce));
      { MulAssociate(X, down, Two(g) * TwoUp(ce)); MulAssociate(X, Two(g), TwoUp(ce)); MulAssociate(X, Two(g) * TwoUp(ce), down); }
      ((X * Two(g)) * TwoUp(ce)) * down;
    }
  }

  /** 2^a * 2^g * 2^ce == 2^UNIT, as fractions. */
  lemma TwoThree(a: int, g: nat, ce: int)
    requires a + g + ce == UNIT
    ensures (TwoUp(a) * Two(g)) * TwoUp(ce) == (TwoDown(a) * TwoDown(ce)) * Two(UNIT)
  {
    hide Two;
    TwoNone();
    if a >= 0 && ce >= 0 {
      TwoAdd(a, g);
      TwoAdd(a + g, ce);
    } else if a >= 0 {
      TwoAdd(a, g);
      TwoAdd(0 - ce, UNIT);
    } else if ce >= 0 {
      TwoAdd(0 - a, UNIT);
      TwoAdd(g, ce);
    } else {
      TwoAdd(0 - a, 0 - ce);
      TwoAdd(0 - a - ce, UNIT);
    }
  }

  // ----- the whole conversion -----

  /** The three scaled inputs of the digit generation have the distance it asks for. */
  lemma ScaledInputs(f: nat, s: nat, minus: nat, w: nat, plus: nat, c: int, e: int)
    requires 0 < f < 2 * HIDDEN_BIT && s >= 11 && UINT64_MSB <= c < TWO64 && -60 <= e <= -32
    requires w == f * Two(s) && plus == (2 * f + 1) * Two(s - 1) && UINT64_MSB <= plus < TWO64
    requires minus == (2 * f - 1) * Two(s - 1) || (f == HIDDEN_BIT && minus == (4 * f - 1) * Two(s - 2))
    ensures Inputs(RoundedProduct(minus, c), RoundedProduct(w, c), RoundedProduct(plus, c), e, 17)
  {
    hide Two;
    Spread(f, s, minus, w, plus);
    TenSixteen();
    ProductError(minus, c);
    ProductError(w, c);
    ProductError(plus, c);
    var gap := 512 * UINT64_MSB;
    MulMonotone(512, UINT64_MSB, w - minus, c);
    MulMonotone(512, UINT64_MSB, plus - w, c);
    MulMonotone(UINT64_MSB, UINT64_MSB, plus, c);
    MulMonotone(UINT64_MSB / 4, UINT64_MSB, minus, c);
    MulDistribute(w, minus, c);
    MulDistribute(plus, w, c);
    MulDistribute(plus, minus, c);
    MulLess(c, TWO64, plus);
    MulLess(plus, (plus - minus) * 10000000000000000, c);
    MulAssociate(plus - minus, 10000000000000000, c);
    MulAssociate(10000000000000000, plus - minus, c);
  }

  lemma TenSixteen()
    ensures Pow10(16) == 10000000000000000
  {
    assert Pow(10, 2) == 100;
    PowAdd(10, 2, 2);
    PowAdd(10, 4, 4);
    PowAdd(10, 8, 8);
  }

  lemma Spread(f: nat, s: nat, minus: nat, w: nat, plus: nat)
    requires 0 < f < 2 * HIDDEN_BIT && s >= 11
    requires w == f * Two(s) && plus == (2 * f + 1) * Two(s - 1) && UINT64_MSB <= plus < TWO64
    requires minus == (2 * f - 1) * Two(s - 1) || (f == HIDDEN_BIT && minus == (4 * f - 1) * Two(s - 2))
    ensures w - minus >= 512 && plus - w >= 512 && minus >= UINT64_MSB / 4 && plus <= TWO64 - 512
    ensures plus <= (plus - minus) * 10000000000000000
  {
    hide Two;
    var h := Two(s - 2);
    OneMore(1, s - 2, 1);
    OneMore(1, s - 1, 1);
    TwoTens();
    TwoAdd(9, 1);
    TwoMonotone(9, s - 2);
    assert Two(s - 1) == 2 * h && Two(s) == 4 * h;
    MulAssociate(f, 4, h);
    MulAssociate(2 * f + 1, 2, h);
    MulAssociate(2 * f - 1, 2, h);
    MulDistribute(4 * f, 2, h);
    MulDistribute(4 * f, 1, h);
    MulAssociate(4, f, h);
    MulLess(4 * f + 2, 30000000000000000, h);
    MulLess(1, f, h);
    BelowTop(2 * f + 1, s - 1);
  }

  /** A multiple of 512 below 2^64 leaves room for another 512. */
  lemma BelowTop(x: nat, n: nat)
    requires n >= 9 && x * Two(n) < TWO64
    ensures x * Two(n) <= TWO64 - 512
  {
    hide Two;
    TwoTens();
    TwoAdd(9, 1);
    TwoAdd(n - 9, 9);
    MulAssociate(x, Two(n - 9), 512);
  }

  /** The positions of the value and its boundaries on a common scale. */
  ghost predicate Positions(d64: nat, e: int, minus: nat, w: nat, plus: nat)
    requires 0 < d64 < INFINITY
  {
    InUnits(minus, e, Lower(d64)) && InUnits(w, e, Units(d64)) && InUnits(plus, e, Upper(d64))
  }

  lemma NormalizedPositions(d64: nat, s: nat, s2: nat, minus: nat, w: nat, plus: nat)
    requires 0 < d64 < INFINITY && s >= 11 && s2 >= 11
    requires w == Significand(d64) * Two(s) && UINT64_MSB <= w < TWO64
    requires plus == (2 * Significand(d64) + 1) * Two(s2 - 1) && UINT64_MSB <= plus < TWO64
    requires minus == if LowerBoundaryIsCloser(d64) then (4 * Significand(d64) - 1) * Two(s2 - 2)
                      else (2 * Significand(d64) - 1) * Two(s2 - 1)
    ensures s == s2 && Positions(d64, Exponent(d64) - s, minus, w, plus)
  {
    hide Two;
    Ranges(d64);
    var f, E := Significand(d64), Exponent(d64);
    SameShift(f, s, s2);
    ShiftedUnits(f, E + 1075, s);
    ShiftedUnits(2 * f + 1, E + 1074, s - 1);
    if LowerBoundaryIsCloser(d64) {
      ShiftedUnits(4 * f - 1, E + 1073, s - 2);
    } else {
      ShiftedUnits(2 * f - 1, E + 1074, s - 1);
    }
  }

  /** The upper boundary is normalized by the same shift as the value. */
  lemma SameShift(f: nat, s: nat, s2: nat)
    requires s >= 1 && s2 >= 1 && f > 0 && UINT64_MSB <= f * Two(s) < TWO64
    requires UINT64_MSB <= (2 * f + 1) * Two(s2 - 1) < TWO64
    ensures s == s2
  {
    hide Two;
    var h := Two(s - 1);
    OneMore(1, s - 1, 1);
    MulAssociate(f, 2, h);
    MulAssociate(2, f, h);
    MulDistribute(2 * f, 1, h);
    NextMultiple(f, s);
    MulDistribute(f, 1, Two(s));
    NormalizedOnce(2 * f + 1, s - 1, s2 - 1);
  }

  /** A multiple of 2^s below 2^64 leaves room for another one up to 2^64. */
  lemma NextMultiple(f: nat, s: nat)
    requires f > 0 && f * Two(s) < TWO64
    ensures (f + 1) * Two(s) <= TWO64
  {
    hide Two;
    if s <= 64 {
      SixtyThree();
      TwoAdd(64 - s, s);
      MulLess(f, Two(64 - s), Two(s));
      MulLess(f + 1, Two(64 - s), Two(s));
    } else {
      ManyShifts(s);
      MulLess(1, f, Two(s));
    }
  }

  /** A certain result denotes the double's shortest digits. */
  lemma CertainIsShortest(d64: nat, v: nat, e: int, minus: nat, w: nat, plus: nat, c: int, ce: int, mk: int, kappa: int)
    requires 0 < d64 < INFINITY && Positions(d64, e, minus, w, plus) && minus < w < plus < TWO64
    requires -60 <= e + ce + 64 <= -32 && HalfUnitPower(c, ce, mk)
    requires
      var k, u := Scale(e + ce + 64, kappa), TenDown(kappa);
      var low, mid, high := RoundedProduct(minus, c), RoundedProduct(w, c), RoundedProduct(plus, c);
      && NoTens(low, high, k, u)
      && Certain(v, (high + 1) * u, k, (high - low + 2) * u, (high + 1 - mid) * u, u)
    ensures ShortestFor(d64, v, kappa - mk)
  {
    hide Two, TenUp, TenDown, Pow10, Scale, NoTens, Certain, RoundedProduct, PowerNumerator, PowerDenominator;
    hide Best, ShortestFor, Scaled, Units, Upper, Lower, InUnits;
    var n, d, k := PowerNumerator(ce, mk), TWO64 * PowerDenominator(ce, mk), Scale(e + ce + 64, kappa);
    var e10 := (if kappa > 0 then kappa else 0) - mk;
    ProductApproximates(minus, c, n, PowerDenominator(ce, mk));
    ProductApproximates(w, c, n, PowerDenominator(ce, mk));
    ProductApproximates(plus, c, n, PowerDenominator(ce, mk));
    CertainIsBest(v, RoundedProduct(minus, c), RoundedProduct(w, c), RoundedProduct(plus, c), k, TenDown(kappa),
                  minus * n, w * n, plus * n, d, d64 % 2 == 0);
    PositionScaled(minus, Lower(d64), e, ce, mk, kappa);
    PositionScaled(w, Units(d64), e, ce, mk, kappa);
    PositionScaled(plus, Upper(d64), e, ce, mk, kappa);
    ScaledSum(plus * n, w * n, Upper(d64), Units(d64), d * k, e10);
    ScaledSum(w * n, minus * n, Units(d64), Lower(d64), d * k, e10);
    MulLess(minus, w, n);
    MulLess(w, plus, n);
    MulPositive(minus, n);
    MulPositive(d, k);
    TenDownIs(kappa);
    assert Boundaries(w * n, d * k, w * n - minus * n, plus * n - w * n, d64, e10);
    BestIsShortest(v, w * n, d * k, w * n - minus * n, plus * n - w * n, d64, e10, TenDown(kappa), kappa - mk);
  }

  lemma TenDownIs(kappa: int)
    ensures TenDown(kappa) == Pow10((if kappa > 0 then kappa else 0) - kappa)
  {}

  /** Grisu3 in shortest mode: a success yields the double's shortest digits, the nearest ones,
      buffer[..length] * 10^decimal_exponent. */
  method Grisu3(d64: uint64, cached: (int, int) -> (uint64, int, int), buffer: array<char>)
      returns (ok: bool, length: nat, decimal_exponent: int)
    requires 0 < d64 < INFINITY && CacheOk(cached) && buffer.Length >= 17
    modifies buffer
    ensures 0 < length <= 17 && AllDigits(buffer[..length])
    ensures ok ==> buffer[0] != '0' && Dec(buffer[..length]) >= 0
                   && ShortestFor(d64, Dec(buffer[..length]), decimal_exponent)
  {
    hide Two, TenDown, Dec, Pow10, ShortestFor, Scale, RoundedProduct, Significand, Exponent;
    Ranges(d64);
    var w := AsNormalizedDiyFp(d64);
    var boundary_minus, boundary_plus, s := NormalizedBoundaries(d64);
    NormalizedPositions(d64, Exponent(d64) - w.e, s, boundary_minus.f, w.f, boundary_plus.f);
    var power := cached(-60 - (w.e + 64), -32 - (w.e + 64));
    var ten_mk := new DiyFp(power.0, power.1);
    var mk := power.2;
    var scaled_w := DiyFp.Times(w, ten_mk);
    var scaled_boundary_minus := DiyFp.Times(boundary_minus, ten_mk);
    var scaled_boundary_plus := DiyFp.Times(boundary_plus, ten_mk);
    ScaledInputs(Significand(d64), s, boundary_minus.f, w.f, boundary_plus.f, ten_mk.f, scaled_w.e);
    var kappa;
    ok, length, kappa := DigitGen(scaled_boundary_minus, scaled_w, scaled_boundary_plus, buffer, 17);
    decimal_exponent := kappa - mk;
    if ok {
      DecBounds(buffer[..length]);
      Spread(Significand(d64), s, boundary_minus.f, w.f, boundary_plus.f);
      CertainIsShortest(d64, Dec(buffer[..length]), w.e, boundary_minus.f, w.f, boundary_plus.f,
                        ten_mk.f, ten_mk.e, mk, kappa);
    }
  }

  // ----- agreement with the exact digits -----

  /** The specification of the shortest digits has only one solution. */
  lemma ShortestForUnique(d64: nat, s1: nat, k1: int, s2: nat, k2: int)
    requires 0 < d64 < INFINITY && ShortestFor(d64, s1, k1) && ShortestFor(d64, s2, k2)
    ensures k1 == k2 && s1 == s2
  {
    hide DecimalRoundsTo, Distance;
    if k1 < k2 { NotShorter(d64, s1, k1, s2, k2); }
    if k2 < k1 { NotShorter(d64, s2, k2, s1, k1); }
    if s1 < s2 { NotBoth(d64, s1, s2, k1); }
    if s2 < s1 { NotBoth(d64, s2, s1, k1); }
  }

  lemma NotShorter(d64: nat, s1: nat, k1: int, s2: nat, k2: int)
    requires 0 < d64 < INFINITY && ShortestFor(d64, s1, k1) && DecimalRoundsTo(d64, s2, k2)
    ensures k1 >= k2
  {
    hide DecimalRoundsTo, Distance;
    if k1 < k2 { TensLower(d64, s2, k2, k1); }
  }

  /** A multiple of 10^k2 is a multiple of ten times every smaller power of ten. */
  lemma TensLower(d64: nat, s: nat, k: int, z: int)
    requires z < k && DecimalRoundsTo(d64, s, k)
    ensures exists t: nat :: TensRoundTo(d64, t, z)
  {
    hide DecimalRoundsTo, Pow10;
    RescaleRoundsTo(d64, s, k, z);
    var t := s * Pow10(k - z - 1);
    MulPositive(s, Pow10(k - z - 1));
    MulAssociate(s, 10, Pow10(k - z - 1));
    MulAssociate(10, s, Pow10(k - z - 1));
    TenSucc(k - z - 1);
    assert TensRoundTo(d64, t, z);
  }

  /** Two different candidates at the same distance would be even, with a nearer odd one between. */
  lemma NotBoth(d64: nat, s1: nat, s2: nat, k: int)
    requires 0 < d64 < INFINITY && s1 < s2 && ShortestFor(d64, s1, k)
    ensures !ShortestFor(d64, s2, k)
  {
    hide Two, TenUp, TenDown, Units, Upper, Lower;
    if ShortestFor(d64, s2, k) {
      var m := s1 + 1;
      Convex(d64, s1, m, s2, k);
      assert NearerFor(d64, s1, s2, k) && NearerFor(d64, s2, s1, k);
      assert NearerFor(d64, s1, m, k) && NearerFor(d64, s2, m, k);
      MulPositive(TenUp(k), Two(UNIT));
      var step := TenUp(k) * Two(UNIT);
      MulDistribute(s1, 1, step);
      MulLess(m, s2, step);
    }
  }

  lemma Convex(d64: nat, a: nat, m: nat, b: nat, k: int)
    requires a <= m <= b && DecimalRoundsTo(d64, a, k) && DecimalRoundsTo(d64, b, k)
    ensures DecimalRoundsTo(d64, m, k)
  {
    hide Two, TenUp, TenDown, Upper, Lower;
    MulPositive(TenUp(k), Two(UNIT));
    MulLess(a, m, TenUp(k) * Two(UNIT));
    MulLess(m, b, TenUp(k) * Two(UNIT));
  }
}
