/** Facts about the powers that appear as constants in bignum.cc, and about binary lengths. */
module Powers {
  import opened Words
  import opened Bigits

  /** 2^n */
  function Two(n: nat): (p: nat)
    ensures p > 0
  {
    Pow(2, n)
  }

  lemma TwoAdd(m: nat, n: nat)
    ensures Two(m + n) == Two(m) * Two(n)
  {
    PowAdd(2, m, n);
  }

  lemma TwoNone()
    ensures Two(0) == 1
  {}

  lemma TwoSucc(n: nat)
    ensures Two(n + 1) == 2 * Two(n)
  {}

  lemma FivePowers()
    ensures Pow(5, 13) == 1220703125
    ensures Pow(5, 27) == 0x6765c793fa10079d
  {
    assert Pow(5, 2) == 25;
    PowAdd(5, 2, 2);
    PowAdd(5, 4, 4);
    PowAdd(5, 8, 4);
    PowAdd(5, 12, 1);
    assert Pow(5, 1) == 5;
    PowAdd(5, 13, 13);
    PowAdd(5, 26, 1);
  }

  /** The table kFive1_to_12. */
  const FIVE_1_TO_12: seq<uint32> :=
    [5, 25, 125, 625, 3125, 15625, 78125, 390625, 1953125, 9765625, 48828125, 244140625]

  lemma {:induction false} SmallFivePowers(n: nat)
    requires 1 <= n <= 12
    ensures FIVE_1_TO_12[n - 1] == Pow(5, n)
    decreases n
  {
    if n > 1 {
      SmallFivePowers(n - 1);
      assert FIVE_1_TO_12[n - 1] == 5 * FIVE_1_TO_12[n - 2];
    } else {
      assert Pow(5, 1) == 5;
    }
  }

  /** The odd part of a positive number, and how often 2 was divided out. */
  function OddPart(b: nat): (o: nat)
    requires b > 0
    ensures o % 2 == 1 && o <= b
  {
    if b % 2 == 0 then OddPart(b / 2) else b
  }

  function Twos(b: nat): nat
    requires b > 0
  {
    if b % 2 == 0 then 1 + Twos(b / 2) else 0
  }

  /** The number of binary digits. */
  function BitLength(b: nat): (n: nat)
  {
    if b == 0 then 0 else 1 + BitLength(b / 2)
  }

  lemma {:induction false} BitLengthBounds(b: nat)
    ensures b < Pow(2, BitLength(b))
    ensures b > 0 ==> Pow(2, BitLength(b) - 1) <= b
  {
    if b > 0 { BitLengthBounds(b / 2); }
  }

  lemma {:induction false} BitLengthMonotone(b: nat, n: nat)
    requires b < Pow(2, n)
    ensures BitLength(b) <= n
    decreases n
  {
    if b > 0 { BitLengthMonotone(b / 2, n - 1); }
  }

  lemma {:induction false} PowBaseMonotone(a: nat, b: nat, n: nat)
    requires a <= b
    ensures Pow(a, n) <= Pow(b, n)
    decreases n
  {
    if n > 0 {
      PowBaseMonotone(a, b, n - 1);
      MulMonotone(a, Pow(a, n - 1), b, Pow(b, n - 1));
    }
  }

  lemma MulMonotone(a: nat, x: nat, b: nat, y: nat)
    requires a <= b && x <= y
    ensures a * x <= b * y
  {
    if a > 0 { MulLess(x, y, a); }
    if y > 0 { MulLess(a, b, y); }
    MulZero(x);
    MulPositive(b, y);
  }

  /** BASE^n in powers of two. */
  lemma PAsPow2(n: nat)
    ensures P(n) == Pow(2, BIGIT_SIZE * n)
  {
    BaseIsPow();
    PowMul(2, BIGIT_SIZE, n);
  }

  lemma Pow2Less(m: nat, n: nat)
    ensures Pow(2, m) < Pow(2, n) <==> m < n
    ensures Pow(2, m) <= Pow(2, n) <==> m <= n
  {
    if m < n { PowStrict(2, m, n); }
    if n < m { PowStrict(2, n, m); }
  }
}
