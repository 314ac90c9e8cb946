/** What the digit generator of bignum-dtoa.cc must produce, over plain integers.  The number is
    n / d, its rounding interval reaches from (n - dm) / d to (n + dp) / d, and a digit string of
    length k denotes its decimal value divided by 10^(k - 1). */
module ShortestDigits {
  import opened Words
  import opened Decimal

  /** t / L lies in the interval; the ends belong to it iff `even`.  The first three arguments
      after t are already scaled by L. */
  ghost predicate Inside(t: int, n: int, d: int, dm: int, dp: int, even: bool) {
    if even then n - dm <= t * d <= n + dp else n - dm < t * d < n + dp
  }

  ghost predicate TensInside(t: int, n: int, d: int, dm: int, dp: int, even: bool) {
    Inside(10 * t, n, d, dm, dp, even)
  }

  /** No number with fewer digits lies in the interval. */
  ghost predicate NoShorter(n: int, d: int, dm: int, dp: int, even: bool) {
    forall t :: !TensInside(t, n, d, dm, dp, even)
  }

  function Abs(x: int): int {
    if x < 0 then -x else x
  }

  /** s is at least as close to n / d as t, and even if t is as close. */
  ghost predicate Nearer(s: int, t: int, n: int, d: int) {
    && Abs(s * d - n) <= Abs(t * d - n)
    && (Abs(s * d - n) == Abs(t * d - n) ==> s == t || s % 2 == 0)
  }

  ghost predicate Nearest(s: int, n: int, d: int, dm: int, dp: int, even: bool) {
    forall t :: Inside(t, n, d, dm, dp, even) ==> Nearer(s, t, n, d)
  }

  ghost predicate Best(s: int, n: int, d: int, dm: int, dp: int, even: bool) {
    && Inside(s, n, d, dm, dp, even)
    && NoShorter(n, d, dm, dp, even)
    && Nearest(s, n, d, dm, dp, even)
  }

  /** The digits lie in the interval, no shorter string does, and of those of the same length
      they are the closest, with ties going to the even digit. */
  ghost predicate Shortest(s: seq<char>, n: nat, d: nat, dm: nat, dp: nat, even: bool) {
    && |s| > 0 && AllDigits(s) && s[0] != '0'
    && var L := Pow10(|s| - 1);
       Best(Dec(s), n * L, d, dm * L, dp * L, even)
  }

  /** The range FixupMultiply10 establishes: 1 <= (n + dp) / d < 10, with the ends exchanged
      where the interval is open; and the interval lies above zero. */
  ghost predicate InRange(n: nat, d: nat, dm: nat, dp: nat, even: bool) {
    && 0 < dm < n && 0 < dp
    && if even then d <= n + dp < 10 * d else d < n + dp <= 10 * d
  }

  /** Division states: s is the digits before the remainder r. */
  lemma Below(s: int, r: nat, n: int, d: nat, dm: int, dp: int, even: bool)
    requires d > 0 && n == s * d + r && r < d && dm > 0 && dp > 0
    ensures Inside(s, n, d, dm, dp, even) <==> (if even then r <= dm else r < dm)
    ensures Inside(s + 1, n, d, dm, dp, even) <==> (if even then r + dp >= d else r + dp > d)
  {
    MulDistribute(s, 1, d);
  }

  /** Away from n / d, only the two neighbours s and s + 1 matter. */
  lemma Neighbours(s: int, r: nat, n: int, d: nat, dm: int, dp: int, even: bool, t: int)
    requires d > 0 && n == s * d + r && r < d && dm > 0 && dp > 0
    requires Inside(t, n, d, dm, dp, even)
    ensures t <= s ==> Inside(s, n, d, dm, dp, even) && Abs(s * d - n) <= Abs(t * d - n)
    ensures t < s ==> Abs(s * d - n) < Abs(t * d - n)
    ensures t > s ==> Inside(s + 1, n, d, dm, dp, even) && Abs((s + 1) * d - n) <= Abs(t * d - n)
    ensures t > s + 1 ==> Abs((s + 1) * d - n) < Abs(t * d - n)
  {
    MulDistribute(s, 1, d);
    if t < s { MulGap(t, s, d); }
    if t > s + 1 { MulGap(s + 1, t, d); }
  }

  lemma TenScale(t: int, n: int, d: int, dm: int, dp: int, even: bool)
    ensures TensInside(t, 10 * n, d, 10 * dm, 10 * dp, even) <==> Inside(t, n, d, dm, dp, even)
  {
    MulAssociate(10, t, d);
  }

  /** Neither neighbour inside: no number of this length is, so the search goes on. */
  lemma NoneInside(s: int, r: nat, n: int, d: nat, dm: int, dp: int, even: bool)
    requires d > 0 && n == s * d + r && r < d && dm > 0 && dp > 0
    requires !Inside(s, n, d, dm, dp, even) && !Inside(s + 1, n, d, dm, dp, even)
    ensures NoShorter(10 * n, d, 10 * dm, 10 * dp, even)
    ensures if even then dm + dp < d else dm + dp <= d
  {
    forall t ensures !TensInside(t, 10 * n, d, 10 * dm, 10 * dp, even) {
      TenScale(t, n, d, dm, dp, even);
      OutsideNeighbours(s, r, n, d, dm, dp, even, t);
    }
    MulDistribute(s, 1, d);
  }

  lemma OutsideNeighbours(s: int, r: nat, n: int, d: nat, dm: int, dp: int, even: bool, t: int)
    requires d > 0 && n == s * d + r && r < d && dm > 0 && dp > 0
    requires !Inside(s, n, d, dm, dp, even) && !Inside(s + 1, n, d, dm, dp, even)
    ensures !Inside(t, n, d, dm, dp, even)
  {
    if Inside(t, n, d, dm, dp, even) { Neighbours(s, r, n, d, dm, dp, even, t); }
  }

  /** Rounding down when only s is inside, or s is nearer, or the tie goes to an even s. */
  lemma RoundDown(s: int, r: nat, n: int, d: nat, dm: int, dp: int, even: bool)
    requires d > 0 && n == s * d + r && r < d && dm > 0 && dp > 0
    requires NoShorter(n, d, dm, dp, even) && Inside(s, n, d, dm, dp, even)
    requires Inside(s + 1, n, d, dm, dp, even) ==> 2 * r < d || (2 * r == d && s % 2 == 0)
    ensures Best(s, n, d, dm, dp, even)
  {
    MulDistribute(s, 1, d);
    forall t | Inside(t, n, d, dm, dp, even) ensures Nearer(s, t, n, d) {
      Neighbours(s, r, n, d, dm, dp, even, t);
    }
  }

  lemma RoundUp(s: int, r: nat, n: int, d: nat, dm: int, dp: int, even: bool)
    requires d > 0 && n == s * d + r && r < d && dm > 0 && dp > 0
    requires NoShorter(n, d, dm, dp, even) && Inside(s + 1, n, d, dm, dp, even)
    requires Inside(s, n, d, dm, dp, even) ==> 2 * r > d || (2 * r == d && s % 2 == 1)
    ensures Best(s + 1, n, d, dm, dp, even)
    ensures s % 10 != 9
  {
    hide Inside, Nearer, TensInside;
    forall t | Inside(t, n, d, dm, dp, even) ensures Nearer(s + 1, t, n, d) {
      UpNearer(s, r, n, d, dm, dp, even, t);
    }
    NoNine(s, n, d, dm, dp, even);
  }

  lemma UpNearer(s: int, r: nat, n: int, d: nat, dm: int, dp: int, even: bool, t: int)
    requires d > 0 && n == s * d + r && r < d && dm > 0 && dp > 0 && Inside(t, n, d, dm, dp, even)
    requires Inside(s, n, d, dm, dp, even) ==> 2 * r > d || (2 * r == d && s % 2 == 1)
    ensures Nearer(s + 1, t, n, d)
  {
    hide Inside;
    MulDistribute(s, 1, d);
    Neighbours(s, r, n, d, dm, dp, even, t);
  }

  lemma NoNine(s: int, n: int, d: nat, dm: int, dp: int, even: bool)
    requires NoShorter(n, d, dm, dp, even) && Inside(s + 1, n, d, dm, dp, even)
    ensures s % 10 != 9
  {
    hide Inside;
    assert !TensInside((s + 1) / 10, n, d, dm, dp, even);
  }

  /** Before the first digit: neither 0 nor 10 is in the interval. */
  lemma NoShorterAtStart(n: nat, d: nat, dm: nat, dp: nat, even: bool)
    requires InRange(n, d, dm, dp, even)
    ensures NoShorter(n, d, dm, dp, even)
  {
    forall t ensures !TensInside(t, n, d, dm, dp, even) {
      MulAssociate(10, t, d);
      if t >= 1 { MulLess(1, t, d); } else { MulLess(t, 0, d); }
    }
  }
}
