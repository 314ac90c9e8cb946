/** Floating-point approximations of an exact decimal and their error, as DiyFpStrtod of strtod.cc
    keeps it: a significand f stands for an exact fraction N / D, and `error` bounds 8 times their
    distance.  Errors are counted in eighths of a unit. */
module ErrorTracking {
  import opened Words
  import opened Decimal
  import opened Powers
  import opened ScaledStart
  import opened DoubleDtoa
  import opened DiyFps
  import opened Grisu

  /** N / D * 2^e is s * 10^k. */
  ghost predicate Exact(N: nat, D: nat, e: int, s: nat, k: int) {
    D > 0 && (N * TwoUp(e)) * TenDown(k) == (s * TenUp(k)) * (D * TwoDown(e))
  }

  ghost predicate Near(f: int, N: int, D: int, error: int) {
    8 * (f * D - N) <= error * D && 8 * (N - f * D) <= error * D
  }

  ghost predicate Nearer(f: int, N: int, D: int, error: int) {
    8 * (f * D - N) < error * D && 8 * (N - f * D) < error * D
  }

  // ----- errors -----

  /** Shifting left scales the error. */
  lemma NearShift(f: int, N: int, D: int, error: int, k: int)
    requires k > 0 && Near(f, N, D, error)
    ensures Near(f * k, N * k, D, error * k)
    ensures Nearer(f, N, D, error) ==> Nearer(f * k, N * k, D, error * k)
  {
    MulAssociate(f, k, D);
    MulAssociate(f, D, k);
    MulAssociate(error, k, D);
    MulAssociate(error, D, k);
    MulDistribute(f * D, N, k);
    MulDistribute(N, f * D, k);
    MulLess(8 * (f * D - N), error * D, k);
    MulLess(8 * (N - f * D), error * D, k);
    MulAssociate(8, f * D - N, k);
    MulAssociate(8, N - f * D, k);
  }

  /** Shifting right loses less than a unit of the value and less than a unit of the error. */
  lemma NearShiftRight(f: nat, N: int, D: int, error: nat, m: nat)
    requires m > 0 && D > 0 && Nearer(f, N, D, error)
    ensures 0 < D * m && Nearer(f / m, N, D * m, error / m + 1 + 8)
  {
    MulPositive(D, m);
    var q, r, x, y := f / m, f % m, error / m, error % m;
    DivModDefinition(f, m);
    DivModDefinition(error, m);
    MulAssociate(q, m, D);
    MulAssociate(q, D, m);
    MulAssociate(x, m, D);
    MulAssociate(x, D, m);
    MulDistribute(q * m, r, D);
    MulDistribute(x * m, y, D);
    MulLess(r, m, D);
    MulLess(y, m, D);
    MulLess(0, r + 1, D);
    MulDistribute(r, 1, D);
    MulDistribute(x, 9, D * m);
  }

  /** Multiplying by an exact power adds half a unit. */
  lemma NearTimesExact(a: int, N: int, D: int, error: int, b: int)
    requires D > 0 && 0 < b < TWO64 && 0 <= error && Near(a, N, D, error)
    ensures Near(RoundedProduct(a, b), N * b, D * TWO64, error + 4)
  {
    var r := RoundedProduct(a, b);
    ProductError(a, b);
    MulLess(r * TWO64 - a * b, UINT64_MSB, D);
    MulLess(0 - UINT64_MSB, r * TWO64 - a * b, D);
    MulDistribute(r * TWO64, a * b, D);
    MulAssociate(r, TWO64, D);
    MulAssociate(a, b, D);
    MulAssociate(a, D, b);
    MulDistribute(a * D, N, b);
    MulDistribute(N, a * D, b);
    MulLess(8 * (a * D - N), error * D, b);
    MulLess(8 * (N - a * D), error * D, b);
    MulAssociate(8, a * D - N, b);
    MulAssociate(8, N - a * D, b);
    MulPositive(error, D);
    ProductBelow(error * D, b);
    MulAssociate(error, D, TWO64);
    MulDistribute(error, 4, D * TWO64);
  }

  lemma ProductBelow(x: int, b: int)
    requires 0 <= x && 0 < b < TWO64
    ensures x * b <= x * TWO64
  {
    if x > 0 { MulLess(b, TWO64, x); }
  }

  /** The product of integers that fits 64 bits is exact. */
  lemma ExactProduct(a: int, b: int, N: int, D: int)
    requires D > 0 && Near(a, N, D, 0) && a * b % TWO64 == 0
    ensures Near(RoundedProduct(a, b), N * b, D * TWO64, 0)
  {
    var r := RoundedProduct(a, b);
    DivModDefinition(a * b, TWO64);
    DivModUnique(a * b + UINT64_MSB, TWO64, a * b / TWO64, UINT64_MSB);
    MulZero(D);
    assert a * D == N;
    MulAssociate(r, TWO64, D);
    MulAssociate(a, b, D);
    MulAssociate(a, D, b);
    MulZero(D * TWO64);
  }

  /** Multiplying by a cached power: half a unit from the power, half a unit from rounding, and the
      strictness that comes from both factors being below 2^64. */
  lemma NearTimesCached(a: int, N: int, D: int, error: int, b: int, M: int, C: int)
    requires D > 0 && C > 0 && 0 < a < TWO64 && 0 < b < TWO64 && 0 <= error && 0 <= M && Near(a, N, D, error)
    requires 0 - C <= 2 * (b * C - M) <= C
    ensures Nearer(RoundedProduct(a, b), N * M, (D * C) * TWO64, error + 8)
  {
    var r, unit := RoundedProduct(a, b), D * C;
    MulPositive(D, C);
    ProductError(a, b);
    CachedTerm1(r * TWO64 - a * b, unit);
    CachedTerm2(a, D, b * C - M, C);
    CachedTerm3(M, a * D - N, error, D, b, C);
    Telescope(r, a, b, D, C, N, M);
    MulDistribute(error, 8, unit * TWO64);
    MulAssociate(error, unit, TWO64);
  }

  lemma CachedTerm1(x: int, unit: int)
    requires unit > 0 && -UINT64_MSB <= x <= UINT64_MSB
    ensures 0 - 4 * (unit * TWO64) <= 8 * (x * unit) <= 4 * (unit * TWO64)
  {
    MulLess(x, UINT64_MSB, unit);
    MulLess(-UINT64_MSB, x, unit);
  }

  lemma CachedTerm2(a: int, D: int, g: int, C: int)
    requires D > 0 && C > 0 && 0 < a < TWO64 && 0 - C <= 2 * g <= C
    ensures 0 - 4 * ((D * C) * TWO64) < 8 * ((a * D) * g) < 4 * ((D * C) * TWO64)
  {
    MulPositive(a, D);
    MulPositive(D, C);
    MulLess(2 * g, C, a * D);
    MulLess(0 - C, 2 * g, a * D);
    MulAssociate(2, g, a * D);
    MulAssociate(-1, C, a * D);
    MulLess(a, TWO64, D * C);
    MulAssociate(a, D, C);
  }

  lemma CachedTerm3(M: int, g: int, error: int, D: int, b: int, C: int)
    requires D > 0 && C > 0 && 0 < b < TWO64 && 0 <= error && 0 <= M && -error * D <= 8 * g <= error * D
    requires 2 * (b * C - M) >= 0 - C
    ensures 0 - (error * (D * C)) * TWO64 <= 8 * (M * g) <= (error * (D * C)) * TWO64
  {
    var x := error * D;
    MulPositive(error, D);
    MulPositive(x, C);
    // M <= (b + 1/2) * C <= 2^64 * C
    MulGap(b, TWO64, C);
    if M > 0 {
      MulLess(8 * g, x, M);
      MulLess(0 - x, 8 * g, M);
    } else {
      MulZero(g);
      MulZero(x);
    }
    MulAssociate(8, g, M);
    MulAssociate(-1, x, M);
    if x > 0 { MulLess(M, TWO64 * C, x); } else { MulZero(M); MulZero(TWO64 * C); }
    MulAssociate(TWO64, C, x);
    MulAssociate(error, D, C);
  }

  lemma Telescope(r: int, a: int, b: int, D: int, C: int, N: int, M: int)
    ensures r * ((D * C) * TWO64) - N * M
         == (r * TWO64 - a * b) * (D * C) + (a * D) * (b * C - M) + M * (a * D - N)
  {
    MulAssociate(r, D * C, TWO64);
    MulDistribute(r * TWO64, a * b, D * C);
    MulAssociate(r, TWO64, D * C);
    Regroup(a, b, D, C);
    MulDistribute(b * C, M, a * D);
    MulDistribute(a * D, N, M);
  }

  // ----- exact values -----

  lemma TwoFractions(e: int, g: int)
    ensures (TwoUp(e) * TwoUp(g)) * TwoDown(e + g) == TwoUp(e + g) * (TwoDown(e) * TwoDown(g))
  {
    hide Two;
    TwoNone();
    var a, b, c, d := if e > 0 then e else 0, if g > 0 then g else 0, if e < 0 then -e else 0, if g < 0 then -g else 0;
    var m, n := if e + g > 0 then e + g else 0, if e + g < 0 then 0 - e - g else 0;
    TwoAdd(a, b);
    TwoAdd(a + b, n);
    TwoAdd(c, d);
    TwoAdd(m, c + d);
  }

  lemma TenFractions(e: int, g: int)
    ensures (TenUp(e) * TenUp(g)) * TenDown(e + g) == TenUp(e + g) * (TenDown(e) * TenDown(g))
  {
    hide Pow10;
    TenIs();
    var a, b, c, d := if e > 0 then e else 0, if g > 0 then g else 0, if e < 0 then -e else 0, if g < 0 then -g else 0;
    var m, n := if e + g > 0 then e + g else 0, if e + g < 0 then 0 - e - g else 0;
    TenAdd(a, b);
    TenAdd(a + b, n);
    TenAdd(c, d);
    TenAdd(m, c + d);
  }

  /** Multiplying a fraction by M / C * 2^g == 10^p. */
  lemma ExactTimes(N: nat, D: nat, e: int, s: nat, k: int, M: nat, C: nat, g: int, p: int)
    requires Exact(N, D, e, s, k) && Exact(M, C, g, 1, p)
    ensures 0 <= N * M && 0 < D * C && Exact(N * M, D * C, e + g, s, k + p)
  {
    hide TwoUp, TwoDown, TenUp, TenDown;
    MulPositive(N, M);
    MulPositive(D, C);
    TwoFractions(e, g);
    TenFractions(k, p);
    ProductOfFractions(N, TwoUp(e), TenDown(k), s, TenUp(k), D, TwoDown(e),
                       M, TwoUp(g), TenDown(p), TenUp(p), C, TwoDown(g),
                       TwoUp(e + g), TwoDown(e + g), TenUp(k + p), TenDown(k + p));
  }

  lemma ProductOfFractions(N: nat, u: nat, d: nat, s: nat, t: nat, D: nat, v: nat,
      M: nat, u2: nat, d2: nat, t2: nat, C: nat, v2: nat, U: nat, V: nat, T: nat, E: nat)
    requires v > 0 && v2 > 0 && d > 0 && d2 > 0
    requires (N * u) * d == (s * t) * (D * v) && (M * u2) * d2 == (1 * t2) * (C * v2)
    requires (u * u2) * V == U * (v * v2) && (t * t2) * E == T * (d * d2)
    ensures ((N * M) * U) * E == (s * T) * ((D * C) * V)
  {
    var k := (v * v2) * (d * d2);
    MulPositive(v, v2);
    MulPositive(d, d2);
    MulPositive(v * v2, d * d2);
    calc {
      (((N * M) * U) * E) * k;
      { Reorder1(N * M, U, E, v * v2, d * d2); }
      (N * M) * ((U * (v * v2)) * (E * (d * d2)));
      (N * M) * (((u * u2) * V) * (E * (d * d2)));
      { Reorder2(N, M, u, u2, V, E, d, d2); }
      (((N * u) * d) * ((M * u2) * d2)) * (V * E);
      (((s * t) * (D * v)) * (t2 * (C * v2))) * (V * E);
      { Reorder3(s, t, D, v, t2, C, v2, V, E); }
      (s * ((t * t2) * E)) * (((D * C) * V) * (v * v2));
      (s * (T * (d * d2))) * (((D * C) * V) * (v * v2));
      { Reorder4(s, T, d * d2, (D * C) * V, v * v2); }
      ((s * T) * ((D * C) * V)) * k;
    }
    MulLess(((N * M) * U) * E, (s * T) * ((D * C) * V), k);
  }

  lemma Reorder1(x: int, U: int, E: int, a: int, b: int)
    ensures ((x * U) * E) * (a * b) == x * ((U * a) * (E * b))
  {
    MulAssociate(x, U, E);
    MulAssociate(x, U * E, a * b);
    Regroup(U, E, a, b);
  }

  lemma Reorder2(N: int, M: int, u: int, u2: int, V: int, E: int, d: int, d2: int)
    ensures (N * M) * (((u * u2) * V) * (E * (d * d2))) == (((N * u) * d) * ((M * u2) * d2)) * (V * E)
  {
    Regroup(u * u2, V, d * d2, E);
    MulAssociate(N * M, (u * u2) * (d * d2), V * E);
    MulAssociate(N * M, u * u2, d * d2);
    Regroup(N, M, u, u2);
    Regroup(N * u, M * u2, d, d2);
  }

  lemma Reorder3(s: int, t: int, D: int, v: int, t2: int, C: int, v2: int, V: int, E: int)
    ensures (((s * t) * (D * v)) * (t2 * (C * v2))) * (V * E) == (s * ((t * t2) * E)) * (((D * C) * V) * (v * v2))
  {
    Regroup(s * t, D * v, t2, C * v2);
    Regroup(D, v, C, v2);
    MulAssociate(s, t, t2);
    var a, b, c := s * (t * t2), D * C, v * v2;
    MulAssociate(a, b * c, V * E);
    Regroup(b, c, V, E);
    MulAssociate(b * V, c, E);
    MulAssociate(a, E, (b * V) * c);
    MulAssociate(s, t * t2, E);
  }

  lemma Reorder4(s: int, T: int, a: int, b: int, c: int)
    ensures (s * (T * a)) * (b * c) == ((s * T) * b) * (c * a)
  {
    MulAssociate(s, T, a);
    Regroup(s * T, a, b, c);
  }

  lemma ExactOne(j: nat)
    ensures Exact(Two(j), 1, 0 - j, 1, 0) && Exact(1, Two(j), j, 1, 0)
  {
    hide Two;
    TwoNone();
    TenIs();
  }

  lemma ExactPower(ce: int, mk: int)
    ensures Exact(PowerNumerator(ce, mk), PowerDenominator(ce, mk), ce, 1, mk)
  {
    hide TwoUp, TwoDown, TenUp, TenDown;
    MulAssociate(TenUp(mk) * TwoDown(ce), TwoUp(ce), TenDown(mk));
    Regroup(TenUp(mk), TwoDown(ce), TwoUp(ce), TenDown(mk));
  }
}
