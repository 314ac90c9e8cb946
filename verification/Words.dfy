/** Machine words as bounded integers, and exact powers.  Assigning to one of these types is
    a proof obligation, so every intermediate result the C++ code keeps in a `uint32_t` or a
    `uint64_t` is shown not to wrap unless the model writes the reduction out. */
module Words {

  const TWO16: int := 0x1_0000
  const TWO31: int := 0x8000_0000
  const TWO32: int := 0x1_0000_0000
  const TWO64: int := 0x1_0000_0000_0000_0000

  type uint16 = x: int | 0 <= x < TWO16
  type uint32 = x: int | 0 <= x < TWO32
  type uint64 = x: int | 0 <= x < TWO64

  /** Exact power of a natural number. */
  function Pow(b: nat, n: nat): (p: nat)
    ensures b > 0 ==> p > 0
    decreases n
  {
    if n == 0 then 1 else MulPositive(b, Pow(b, n - 1)); b * Pow(b, n - 1)
  }

  lemma MulPositive(x: nat, y: nat)
    ensures x * y >= 0
    ensures x > 0 && y > 0 ==> x * y > 0
  {}

  lemma PowNone(b: nat)
    ensures Pow(b, 0) == 1
  {}

  lemma {:induction false} PowAdd(b: nat, m: nat, n: nat)
    ensures Pow(b, m + n) == Pow(b, m) * Pow(b, n)
    decreases m
  {
    if m > 0 {
      PowAdd(b, m - 1, n);
      calc {
        Pow(b, m + n);
        b * Pow(b, m - 1 + n);
        b * (Pow(b, m - 1) * Pow(b, n));
        (b * Pow(b, m - 1)) * Pow(b, n);
        Pow(b, m) * Pow(b, n);
      }
    }
  }

  lemma {:induction false} PowMul(b: nat, m: nat, n: nat)
    ensures Pow(Pow(b, m), n) == Pow(b, m * n)
    decreases n
  {
    if n > 0 {
      PowMul(b, m, n - 1);
      assert m * n == m + m * (n - 1);
      PowAdd(b, m, m * (n - 1));
    } else {
      assert m * n == 0;
    }
  }

  lemma {:induction false} PowProduct(a: nat, b: nat, n: nat)
    ensures Pow(a * b, n) == Pow(a, n) * Pow(b, n)
    decreases n
  {
    if n > 0 {
      PowProduct(a, b, n - 1);
      var x, y := Pow(a, n - 1), Pow(b, n - 1);
      assert (a * b) * (x * y) == (a * x) * (b * y);
    }
  }

  lemma {:induction false} PowMonotone(b: nat, m: nat, n: nat)
    requires b > 0 && m <= n
    ensures Pow(b, m) <= Pow(b, n)
    decreases n
  {
    if m < n {
      PowMonotone(b, m, n - 1);
      var p := Pow(b, n - 1);
      assert b * p >= p;
    }
  }

  lemma {:induction false} PowStrict(b: nat, m: nat, n: nat)
    requires b > 1 && m < n
    ensures Pow(b, m) < Pow(b, n)
  {
    PowMonotone(b, m, n - 1);
    var p := Pow(b, n - 1);
    assert b * p > p;
  }

  lemma MulDistribute(x: int, y: int, k: int)
    ensures (x + y) * k == x * k + y * k
    ensures (x - y) * k == x * k - y * k
  {}

  lemma MulZero(x: int)
    ensures x * 0 == 0 && 0 * x == 0
  {}

  lemma MulAssociate(x: int, y: int, z: int)
    ensures (x * y) * z == x * (y * z)
  {}

  /** Multiplying both sides of an order by a positive factor. */
  lemma MulLess(x: int, y: int, k: int)
    requires k > 0
    ensures x < y <==> x * k < y * k
    ensures x <= y <==> x * k <= y * k
    ensures x == y <==> x * k == y * k
  {
    if x < y { assert (y - x) * k > 0; }
    if x > y { assert (x - y) * k > 0; }
  }

  /** Quotient and remainder are determined by their defining equation. */
  lemma DivModUnique(n: int, d: int, q: int, r: int)
    requires d > 0 && n == q * d + r && 0 <= r < d
    ensures n / d == q && n % d == r
  {
    var x, y := n / d, n % d;
    DivModDefinition(n, d);
    if q > x { MulGap(x, q, d); }
    if q < x { MulGap(q, x, d); }
  }

  lemma MulGap(x: int, y: int, k: int)
    requires k > 0 && x < y
    ensures x * k + k <= y * k
  {
    MulLess(x + 1, y, k);
    assert (x + 1) * k == x * k + k;
  }

  lemma DivModDefinition(n: int, d: int)
    requires d > 0
    ensures n == (n / d) * d + n % d && 0 <= n % d < d
  {}

  function Sign(x: int): int {
    if x < 0 then -1 else if x > 0 then 1 else 0
  }
}
