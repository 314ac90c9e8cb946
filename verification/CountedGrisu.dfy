/** Grisu3 with a requested number of digits (RoundWeedCounted, DigitGenCounted and Grisu3Counted of
    fast-dtoa.cc), and its agreement with the exact conversion. */
module CountedGrisu {
  import opened Words
  import opened Decimal
  import opened Ieee
  import opened DiyFps
  import opened Powers
  import opened ShortestDigits
  import opened ScaledStart
  import opened DoubleDtoa
  import opened FastDtoa
  import opened Grisu
  import opened PowerGaps
  import opened FixedExact

  // ----- rounding the last digit -----

  /** Everything within a unit of total is nearer to t * k than to any other multiple of k. */
  ghost predicate Sure(t: int, total: int, k: int, unit: int) {
    2 * (Abs(total - t * k) + unit) <= k && 2 * unit < k
  }

  ghost predicate CountedDecision(t: int, total: int, k: int, unit: int, ok: bool) {
    && (ok <==> exists t2: int :: Sure(t2, total, k, unit))
    && (ok ==> Sure(t, total, k, unit))
  }

  /** Succeeds exactly when the rounding is sure; a carry out of the first digit raises kappa. */
  method RoundWeedCounted(buffer: array<char>, length: nat, rest: uint64, ten_kappa: uint64, unit: uint64, kappa0: int,
      ghost total: int) returns (ok: bool, kappa: int)
    requires 0 < length <= buffer.Length && AllDigits(buffer[..length]) && buffer[0] != '0'
    requires rest < ten_kappa && unit > 0 && total == Dec(buffer[..length]) * ten_kappa + rest
    modifies buffer
    ensures AllDigits(buffer[..length]) && buffer[0] != '0' && kappa0 <= kappa <= kappa0 + 1
    ensures CountedDecision(Dec(buffer[..length]) * (if kappa == kappa0 then 1 else 10), total, ten_kappa, unit, ok)
  {
    hide Dec;
    kappa := kappa0;
    ghost var t, k := Dec(buffer[..length]), ten_kappa;
    OnlyNeighbours(t, rest, total, k, unit);
    if unit >= ten_kappa { return false, kappa; }
    if ten_kappa - unit <= unit { return false, kappa; }
    if ten_kappa - rest > rest && ten_kappa - 2 * rest >= 2 * unit {
      assert Sure(t, total, k, unit);
      return true, kappa;
    }
    if rest > unit && ten_kappa - (rest - unit) <= rest - unit {
      ghost var s := buffer[..length];
      buffer[length - 1] := (buffer[length - 1] as int + 1) as char;
      assert buffer[..length] == s[length - 1 := buffer[length - 1]];
      DecUpdate(s, length - 1, buffer[length - 1]);
      OnePower();
      var overflow := PropagateCarry(buffer, length);
      if overflow {
        kappa := kappa + 1;
      }
      assert Sure(t + 1, total, k, unit);
      return true, kappa;
    }
    ok := false;
  }

  lemma OnePower()
    ensures Pow10(0) == 1
  {
    TenIs();
  }

  /** Only the two neighbouring multiples can be near enough. */
  lemma OnlyNeighbours(t: int, rest: int, total: int, k: int, unit: int)
    requires k > 0 && unit > 0 && total == t * k + rest && 0 <= rest < k
    ensures Sure(t, total, k, unit) <==> 2 * (rest + unit) <= k && 2 * unit < k
    ensures Sure(t + 1, total, k, unit) <==> 2 * (k - rest + unit) <= k && 2 * unit < k
    ensures forall t2: int :: Sure(t2, total, k, unit) ==> t2 == t || t2 == t + 1
  {
    MulDistribute(t, 1, k);
    forall t2: int | Sure(t2, total, k, unit) ensures t2 == t || t2 == t + 1 {
      if t2 < t { MulGap(t2, t, k); }
      if t2 > t + 1 { MulGap(t + 1, t2, k); }
    }
  }

  // ----- generating the digits -----

  ghost predicate CountedHead(s: seq<char>, total: int, k: int, rest: int) {
    total == Dec(s) * k + rest && 0 <= rest < k
  }

  /** What a success promises: the digits, with the carry undone, are surely the nearest at 10^kappa0,
      and the first digit is the value's own first place. */
  ghost predicate Counted(s: seq<char>, w: int, e: int, kappa: int, kappa0: int)
    requires e <= 0
  {
    && AllDigits(s) && s != [] && s[0] != '0' && kappa0 <= kappa <= kappa0 + 1
    && Sure(Dec(s) * (if kappa == kappa0 then 1 else 10), w * TenDown(kappa0), Scale(e, kappa0), TenDown(kappa0))
    && kappa0 + |s| >= 1 && InDecade(w, e, kappa0 + |s|)
  }

  ghost predicate InDecade(w: int, e: int, m: nat)
    requires m >= 1 && e <= 0
  {
    Scale(e, m - 1) <= w < Scale(e, m)
  }

  /** In front of a digit of the integral part. */
  ghost predicate CountedIntegral(s: seq<char>, w: int, kappa: nat, one: int, integrals: int, fractionals: int, divisor: int) {
    && AllDigits(s) && 0 <= fractionals < one
    && 0 <= integrals < Pow10(kappa) && (kappa > 0 ==> divisor == Pow10(kappa - 1))
    && (if s == [] then kappa > 0 && divisor <= integrals else s[0] != '0')
    && w == Dec(s) * (one * Pow10(kappa)) + (integrals * one + fractionals)
  }

  method DigitGenCounted(w: DiyFp, requested_digits: nat, buffer: array<char>)
      returns (ok: bool, length: nat, kappa: int, ghost kappa0: int)
    requires -60 <= w.e <= -32 && TWO64 / 4 <= w.f < TWO64 && 0 < requested_digits <= buffer.Length
    modifies buffer
    ensures ok ==> length == requested_digits && Counted(buffer[..length], w.f, w.e, kappa, kappa0)
  {
    ok, length, kappa, kappa0 := CountedDigits(w.f, w.e, requested_digits, buffer);
  }

  method CountedDigits(w: uint64, e: int, requested_digits0: nat, buffer: array<char>)
      returns (ok: bool, length: nat, kappa: int, ghost kappa0: int)
    requires -60 <= e <= -32 && TWO64 / 4 <= w < TWO64 && 0 < requested_digits0 <= buffer.Length
    modifies buffer
    ensures ok ==> length == requested_digits0 && Counted(buffer[..length], w, e, kappa, kappa0)
  {
    hide Dec, Pow10, Two, TenDown, Scale, Counted, CountedIntegral, InDecade, Sure;
    var w_error: uint64 := 1;
    OneRange(e, w);
    var one: uint64 := Two(0 - e);
    var integrals: uint32 := w / one;
    var fractionals: uint64 := w % one;
    var requested_digits := requested_digits0;
    var divisor: uint32, divisor_exponent_plus_one: nat := BiggestPowerTen(integrals, 64 + e);
    kappa := divisor_exponent_plus_one;
    length := 0;
    ghost var m: nat := kappa;
    CountedBegin(w, e, integrals, one, fractionals, kappa, divisor);
    assert buffer[..0] == [];
    while kappa > 0
      invariant 0 <= kappa && 0 <= length < requested_digits0 && length + requested_digits == requested_digits0
      invariant kappa + length == m
      invariant CountedIntegral(buffer[..length], w, kappa, one, integrals, fractionals, divisor)
      decreases kappa
    {
      var remaining, rest := EmitCounted(buffer, length, integrals, divisor, one, fractionals, kappa, w);
      length := length + 1;
      requested_digits := requested_digits - 1;
      integrals := remaining;
      kappa := kappa - 1;
      if requested_digits == 0 {
        kappa0 := kappa;
        AtScale(e, kappa);
        ok, kappa := CountedStop(w, e, buffer, length, kappa, rest, divisor * one, w_error);
        return;
      }
      divisor := divisor / 10;
    }
    NoneLeft(buffer[..length], w, kappa, one, integrals, fractionals, divisor);
    ok, length, kappa := CountedFraction(w, e, buffer, length, requested_digits, one, fractionals);
    kappa0 := m - length;
  }

  lemma CountedBegin(w: int, e: int, integrals: int, one: int, fractionals: int, kappa: nat, divisor: int)
    requires e <= 0 && one == Two(0 - e) && w >= 0 && integrals == w / one && fractionals == w % one
    requires kappa > 0 && divisor == Pow10(kappa - 1) && divisor <= integrals < 10 * divisor
    ensures CountedIntegral([], w, kappa, one, integrals, fractionals, divisor) && InDecade(w, e, kappa)
  {
    hide Pow10, Two, InDecade, CountedIntegral;
    DivModDefinition(w, one);
    TenSucc(kappa - 1);
    FirstDecade(w, e, integrals, one, fractionals, kappa);
    NothingEmitted(w, kappa, one, integrals, fractionals, divisor);
  }

  lemma FirstDecade(w: int, e: int, integrals: int, one: int, fractionals: int, kappa: nat)
    requires e <= 0 && one == Two(0 - e) && w == integrals * one + fractionals && 0 <= fractionals < one
    requires kappa > 0 && Pow10(kappa - 1) <= integrals < Pow10(kappa)
    ensures InDecade(w, e, kappa)
  {
    hide Pow10, Two;
    AtScale(e, kappa);
    AtScale(e, kappa - 1);
    MulGap(integrals, Pow10(kappa), one);
    MulLess(Pow10(kappa - 1), integrals, one);
  }

  lemma NothingEmitted(w: int, kappa: nat, one: int, integrals: int, fractionals: int, divisor: int)
    requires w == integrals * one + fractionals && 0 <= fractionals < one
    requires kappa > 0 && divisor == Pow10(kappa - 1) && divisor <= integrals < Pow10(kappa)
    ensures CountedIntegral([], w, kappa, one, integrals, fractionals, divisor)
  {
    hide Pow10;
    DecZeros([]);
    MulZero(one * Pow10(kappa));
  }

  method EmitCounted(buffer: array<char>, length: nat, integrals: uint32, divisor: uint32, one: uint64,
      fractionals: uint64, ghost kappa: nat, ghost w: int) returns (remaining: uint32, rest: uint64)
    requires length < buffer.Length && kappa > 0 && w < TWO64
    requires CountedIntegral(buffer[..length], w, kappa, one, integrals, fractionals, divisor)
    modifies buffer
    ensures AllDigits(buffer[..length + 1]) && buffer[0] != '0' && divisor == Pow10(kappa - 1)
    ensures rest == remaining * one + fractionals && one * divisor < TWO64
    ensures CountedHead(buffer[..length + 1], w, one * divisor, rest)
    ensures CountedIntegral(buffer[..length + 1], w, kappa - 1, one, remaining, fractionals, divisor / 10)
  {
    hide Dec, Pow10, CountedIntegral, CountedHead;
    ghost var s := buffer[..length];
    CountedMeans(s, w, kappa, one, integrals, fractionals, divisor);
    var digit;
    digit, remaining := DivideIntegrals(integrals, divisor, kappa, one, fractionals);
    buffer[length] := DigitChar(digit);
    assert buffer[..length + 1] == s + [DigitChar(digit)];
    NextIntegral(s, digit, w, kappa, one, integrals, remaining, fractionals, divisor);
    rest := remaining * one + fractionals;
  }

  lemma CountedMeans(s: seq<char>, w: int, kappa: nat, one: int, integrals: int, fractionals: int, divisor: int)
    requires kappa > 0 && CountedIntegral(s, w, kappa, one, integrals, fractionals, divisor)
    ensures divisor == Pow10(kappa - 1) && 0 <= integrals < Pow10(kappa) && 0 <= fractionals < one && AllDigits(s)
  {}

  lemma NextIntegral(s: seq<char>, digit: int, w: int, kappa: nat, one: int, integrals: int, remaining: int,
      fractionals: int, divisor: int)
    requires kappa > 0 && CountedIntegral(s, w, kappa, one, integrals, fractionals, divisor) && one * divisor > 0
    requires 0 <= digit <= 9 && (divisor <= integrals ==> digit >= 1) && 0 <= remaining < divisor
    requires one * Pow10(kappa) == 10 * (one * divisor) && (kappa > 1 ==> divisor / 10 == Pow10(kappa - 2))
    requires integrals * one + fractionals == digit * (one * divisor) + (remaining * one + fractionals)
    requires 0 <= remaining * one + fractionals < one * divisor
    ensures
      var next := s + [DigitChar(digit)];
      && AllDigits(next) && next[0] != '0' && one * divisor <= w
      && CountedHead(next, w, one * divisor, remaining * one + fractionals)
      && CountedIntegral(next, w, kappa - 1, one, remaining, fractionals, divisor / 10)
  {
    hide Dec, Pow10;
    var big, k := integrals * one + fractionals, one * divisor;
    NextCounted(s, digit, w, k, big, remaining * one + fractionals);
    if s == [] { MulLess(1, digit, k); }
    DivisorFits(s, w, k, big, integrals, divisor);
  }

  lemma NextCounted(s: seq<char>, digit: int, total: int, k: int, big: int, rest: int)
    requires 0 <= digit <= 9 && total == Dec(s) * (10 * k) + big && big == digit * k + rest && 0 <= rest < k
    ensures CountedHead(s + [DigitChar(digit)], total, k, rest)
  {
    hide Dec;
    DecAppend(s, DigitChar(digit));
    MulDistribute(10 * Dec(s), digit, k);
    MulAssociate(Dec(s), 10, k);
    MulAssociate(10, Dec(s), k);
  }

  /** The power of ten of a digit is not larger than the number. */
  lemma DivisorFits(s: seq<char>, w: int, k: int, big: int, integrals: int, divisor: int)
    requires AllDigits(s) && k > 0 && 0 <= big && w == Dec(s) * (10 * k) + big
    requires if s == [] then big >= k else s[0] != '0'
    ensures k <= w
  {
    hide Dec;
    if s != [] {
      DecLeading(s);
      MulLess(1, Dec(s), 10 * k);
    } else {
      DecZeros(s);
      MulZero(10 * k);
    }
  }

  lemma NoneLeft(s: seq<char>, w: int, kappa: nat, one: int, integrals: int, fractionals: int, divisor: int)
    requires kappa == 0 && CountedIntegral(s, w, kappa, one, integrals, fractionals, divisor)
    ensures AllDigits(s) && s != [] && s[0] != '0' && CountedHead(s, w, one, fractionals)
  {
    hide Dec;
    MulZero(one);
    TenIs();
  }

  method CountedStop(w: uint64, e: int, buffer: array<char>, length: nat, kappa0: int,
      rest: uint64, ten_kappa: uint64, unit: uint64) returns (ok: bool, kappa: int)
    requires e <= 0 && 0 < length <= buffer.Length && AllDigits(buffer[..length]) && buffer[0] != '0'
    requires ten_kappa == Scale(e, kappa0) && unit == TenDown(kappa0) && CountedHead(buffer[..length], w * unit, ten_kappa, rest)
    requires kappa0 + length >= 1 && InDecade(w, e, kappa0 + length)
    modifies buffer
    ensures ok ==> Counted(buffer[..length], w, e, kappa, kappa0)
  {
    hide Dec, Scale, TenDown, InDecade, Sure;
    ok, kappa := RoundWeedCounted(buffer, length, rest, ten_kappa, unit, kappa0, w * unit);
  }

  /** The digits after the decimal point, as long as the error is smaller than what is left. */
  method CountedFraction(w: uint64, e: int, buffer: array<char>, length0: nat, requested_digits0: nat,
      one: uint64, fractionals0: uint64) returns (ok: bool, length: nat, kappa: int)
    requires -60 <= e <= -32 && TWO64 / 4 <= w && one == Two(0 - e)
    requires 0 < length0 && length0 + requested_digits0 <= buffer.Length && requested_digits0 > 0
    requires AllDigits(buffer[..length0]) && buffer[0] != '0' && CountedHead(buffer[..length0], w, one, fractionals0)
    requires InDecade(w, e, length0)
    modifies buffer
    ensures length0 <= length <= length0 + requested_digits0
    ensures ok ==> length == length0 + requested_digits0 && Counted(buffer[..length], w, e, kappa, length0 - length)
  {
    hide Dec, Pow10, Two, TenDown, Scale, InDecade;
    OneRange(e, w);
    length, kappa := length0, 0;
    var requested_digits, w_error: uint64, fractionals: uint64 := requested_digits0, 1, fractionals0;
    AtScale(e, 0);
    while requested_digits > 0 && fractionals > w_error
      invariant kappa <= 0 && kappa + length == length0 && 0 < length && length + requested_digits == length0 + requested_digits0
      invariant AllDigits(buffer[..length]) && buffer[0] != '0'
      invariant 0 < w_error == TenDown(kappa) && Scale(e, kappa) == one
      invariant CountedHead(buffer[..length], w * w_error, one, fractionals)
      decreases requested_digits
    {
      ghost var s, u, big := buffer[..length], w_error, 10 * fractionals;
      TenTimes(e, kappa);
      ScaledCounted(s, w, u, one, fractionals);
      fractionals := fractionals * 10;
      w_error := w_error * 10;
      FractionalDigit(fractionals, one);
      var digit := fractionals / one;
      buffer[length] := DigitChar(digit);
      assert buffer[..length + 1] == s + [DigitChar(digit)];
      length := length + 1;
      requested_digits := requested_digits - 1;
      fractionals := fractionals % one;
      kappa := kappa - 1;
      NextCounted(s, digit, w * w_error, one, big, fractionals);
    }
    if requested_digits != 0 { return false, length, kappa; }
    ok, kappa := CountedStop(w, e, buffer, length, kappa, fractionals, one, w_error);
  }

  lemma ScaledCounted(s: seq<char>, w: int, u: int, one: int, fractionals: int)
    requires CountedHead(s, w * u, one, fractionals)
    ensures w * (10 * u) == Dec(s) * (10 * one) + 10 * fractionals && 0 <= 10 * fractionals < 10 * one
  {
    hide Dec;
    MulAssociate(w, 10, u);
    MulAssociate(10, w, u);
    MulAssociate(Dec(s), 10, one);
    MulAssociate(10, Dec(s), one);
  }

  // ----- the whole conversion -----

  /** v is strictly the nearest integer to a / b. */
  ghost predicate StrictlyNearest(v: int, a: int, b: int) {
    2 * (v * b) - b < 2 * a < 2 * (v * b) + b
  }

  lemma NearestScale(v: int, a: int, b: int, c: int)
    requires c > 0
    ensures StrictlyNearest(v, a, b) <==> StrictlyNearest(v, a * c, b * c)
  {
    MulAssociate(v, b, c);
    MulAssociate(2, v * b, c);
    MulAssociate(2, a, c);
    MulDistribute(2 * (v * b), b, c);
    MulLess(2 * (v * b) - b, 2 * a, c);
    MulLess(2 * a, 2 * (v * b) + b, c);
  }

  lemma NearestCross(v: int, a: int, b: int, x: int, y: int)
    requires b > 0 && y > 0 && a * y == x * b && StrictlyNearest(v, a, b)
    ensures StrictlyNearest(v, x, y)
  {
    NearestScale(v, a, b, y);
    NearestScale(v, x, y, b);
  }

  /** The double, divided by 10^k, is less than half away from t. */
  ghost predicate NearestAt(d64: nat, t: int, k: int)
    requires d64 < INFINITY
  {
    StrictlyNearest(t, Units(d64) * TenUp(0 - k), Two(UNIT) * TenDown(0 - k))
  }

  /** Surely nearest to the approximation is strictly nearest to what it approximates. */
  lemma SureIsNearest(t: int, r: int, k: int, u: int, x: int, q: int)
    requires k > 0 && u > 0 && q > 0 && Sure(t, r * u, k, u) && Approximates(r, x, q)
    ensures StrictlyNearest(t, x * u, q * k)
  {
    Magnified(r, x, q, u);
    var a := r * u;
    MulDistribute(r, 1, u);
    MulLess(2 * (a + u), 2 * (t * k) + k, q);
    MulLess(2 * (t * k) - k, 2 * (a - u), q);
    MulAssociate(2, a + u, q);
    MulAssociate(2, a - u, q);
    MulDistribute(2 * (t * k), k, q);
    MulAssociate(2, t * k, q);
    MulAssociate(t, k, q);
  }

  /** From the scaled product back to the double. */
  lemma BackToUnits(d64: nat, t: int, w: nat, e: int, ce: int, mk: int, kappa: int)
    requires d64 < INFINITY && InUnits(w, e, Units(d64)) && -60 <= e + ce + 64 <= -32
    requires StrictlyNearest(t, (w * PowerNumerator(ce, mk)) * TenDown(kappa),
                             (TWO64 * PowerDenominator(ce, mk)) * Scale(e + ce + 64, kappa))
    ensures NearestAt(d64, t, kappa - mk)
  {
    hide Two, TenUp, TenDown, Pow10, Scale, PowerNumerator, PowerDenominator, Scaled, Units, InUnits;
    var x, d := w * PowerNumerator(ce, mk), (TWO64 * PowerDenominator(ce, mk)) * Scale(e + ce + 64, kappa);
    var e10 := (if kappa > 0 then kappa else 0) - mk;
    var k, places := kappa - mk, e10 - (kappa - mk);
    PositionScaled(w, Units(d64), e, ce, mk, kappa);
    MulPositive(w, PowerNumerator(ce, mk));
    MulPositive(TWO64 * PowerDenominator(ce, mk), Scale(e + ce + 64, kappa));
    SameFraction(x, Units(d64), d, e10, places, 0 - k);
    TenDownIs(kappa);
    PositivePlaces(places);
    MulPositive(Two(UNIT), TenDown(0 - k));
    NearestCross(t, x * TenUp(places), d * TenDown(places), Units(d64) * TenUp(0 - k), Two(UNIT) * TenDown(0 - k));
  }

  /** The scaled product x over q, compared with a power of ten, as the double is. */
  lemma OrderOf(d64: nat, w: nat, e: int, ce: int, mk: int, j: nat)
    requires d64 < INFINITY && InUnits(w, e, Units(d64)) && -60 <= e + ce + 64 <= -32
    ensures
      var x, d := w * PowerNumerator(ce, mk), (TWO64 * PowerDenominator(ce, mk)) * Scale(e + ce + 64, j);
      && (x < d <==> Units(d64) * TenDown(j - mk) < TenUp(j - mk) * Two(UNIT))
      && (10 * x < d <==> Units(d64) * TenDown(j - mk - 1) < TenUp(j - mk - 1) * Two(UNIT))
  {
    hide Two, TenUp, TenDown, Pow10, Scale, PowerNumerator, PowerDenominator, Scaled, Units, InUnits;
    var x, d := w * PowerNumerator(ce, mk), (TWO64 * PowerDenominator(ce, mk)) * Scale(e + ce + 64, j);
    PositionScaled(w, Units(d64), e, ce, mk, j);
    MulPositive(w, PowerNumerator(ce, mk));
    MulPositive(TWO64 * PowerDenominator(ce, mk), Scale(e + ce + 64, j));
    TenIs();
    CompareScaled(x, Units(d64), d, j - mk, 1, 1, j - mk);
    CompareScaled(x, Units(d64), d, j - mk, 10, 1, j - mk - 1);
  }

  /** A counted result whose value is not below its own decade is the exact one. */
  lemma CountedIsPrecision(d64: nat, s: seq<char>, w: nat, e: int, c: int, ce: int, mk: int, kappa: int, kappa0: int)
    requires 0 < d64 < INFINITY && InUnits(w, e, Units(d64)) && w < TWO64 && -60 <= e + ce + 64 <= -32
    requires HalfUnitPower(c, ce, mk) && Counted(s, RoundedProduct(w, c), e + ce + 64, kappa, kappa0)
    ensures
      var p := |s| + kappa0 - mk;
      && Units(d64) * TenDown(p) < TenUp(p) * Two(UNIT)
      && (TenUp(p - 1) * Two(UNIT) <= Units(d64) * TenDown(p - 1) ==> PrecisionFor(d64, s, |s| + kappa - mk, p))
  {
    hide Two, TenUp, TenDown, Pow10, Scale, PowerNumerator, PowerDenominator, Units, InUnits, Dec, RoundedProduct, Sure;
    var x, q, r, e1 := w * PowerNumerator(ce, mk), TWO64 * PowerDenominator(ce, mk), RoundedProduct(w, c), e + ce + 64;
    var t, m := Dec(s) * (if kappa == kappa0 then 1 else 10), kappa0 + |s|;
    ProductApproximates(w, c, PowerNumerator(ce, mk), PowerDenominator(ce, mk));
    MulPositive(TWO64, PowerDenominator(ce, mk));
    SureIsNearest(t, r, Scale(e1, kappa0), TenDown(kappa0), x, q);
    BackToUnits(d64, t, w, e, ce, mk, kappa0);
    OrderOf(d64, w, e, ce, mk, m);
    MulMonotone(r + 1, q, Scale(e1, m), q);
    assert |s| - (m - mk) == 0 - (kappa0 - mk);
  }

  lemma CountedShape(s: seq<char>, w: int, e: int, kappa: int, kappa0: int)
    requires e <= 0 && Counted(s, w, e, kappa, kappa0)
    ensures AllDigits(s) && s != [] && s[0] != '0' && kappa0 + |s| >= 1
    ensures Scale(e, kappa0 + |s| - 1) <= w < Scale(e, kappa0 + |s|)
  {
    hide Sure, Scale;
  }

  lemma AtThePower(r: int, x: int, q: int, power: int)
    requires q > 0 && power <= r && (r - 1) * q < x < q * power && 2 <= r
    ensures r == power && x < r * q && !(10 * x < q * power)
  {
    MulLess(r - 1, power, q);
    MulDistribute(r, 1, q);
    MulLess(2, r, q);
  }

  /** More than nineteen digits are never sure: the last one would be below the error. */
  lemma AtMostNineteen(s: seq<char>, r: int, e: int, kappa: int, kappa0: int)
    requires e <= 0 && 0 <= r < TWO64 && Counted(s, r, e, kappa, kappa0)
    ensures |s| <= 19
  {
    hide Dec, Pow10, Scale, TenDown;
    if |s| >= 20 {
      var t, u, k := Dec(s) * (if kappa == kappa0 then 1 else 10), TenDown(kappa0), Scale(e, kappa0);
      DecLeading(s);
      TenMonotone(19, |s| - 1);
      TenSixteen();
      TenSucc(16);
      TenSucc(17);
      TenSucc(18);
      MulLess(10000000000000000000 - 1, t, k);
      MulDistribute(t, 1, k);
      MulLess(r, TWO64, u);
    }
  }

  lemma PartsBelow(r: int, x: int, q: int)
    requires r >= TWO64 / 4 && q > 0 && (r - 1) * q < x
    ensures (TWO64 / 4 - 1) * (q * r) < TWO64 / 4 * x
  {
    MulDistribute(r, 1, q);
    MulLess(TWO64 / 4, r, q);
  }

  /** A value below the decade of its approximation is just below a power of ten. */
  lemma BelowIsJustBelow(d64: nat, s: seq<char>, w: nat, e: int, c: int, ce: int, mk: int, kappa: int, kappa0: int)
    requires 0 < d64 < INFINITY && InUnits(w, e, Units(d64)) && w < TWO64 && -60 <= e + ce + 64 <= -32
    requires HalfUnitPower(c, ce, mk) && Counted(s, RoundedProduct(w, c), e + ce + 64, kappa, kappa0)
    requires RoundedProduct(w, c) >= TWO64 / 4
    requires var p := |s| + kappa0 - mk; Units(d64) * TenDown(p - 1) < TenUp(p - 1) * Two(UNIT)
    ensures JustBelowTen(d64, |s| + kappa0 - mk - 1)
  {
    hide Two, TenUp, TenDown, Pow10, Scale, PowerNumerator, PowerDenominator, Units, InUnits, Dec, RoundedProduct, Sure, Counted, Scaled;
    var x, q, r, e1 := w * PowerNumerator(ce, mk), TWO64 * PowerDenominator(ce, mk), RoundedProduct(w, c), e + ce + 64;
    CountedShape(s, r, e1, kappa, kappa0);
    var j := kappa0 + |s| - 1;
    ProductApproximates(w, c, PowerNumerator(ce, mk), PowerDenominator(ce, mk));
    MulPositive(TWO64, PowerDenominator(ce, mk));
    MulPositive(w, PowerNumerator(ce, mk));
    OrderOf(d64, w, e, ce, mk, j);
    AtThePower(r, x, q, Scale(e1, j));
    PartsBelow(r, x, q);
    PositionScaled(w, Units(d64), e, ce, mk, j);
    MulPositive(q, Scale(e1, j));
    NearPower(d64, x, q * Scale(e1, j), j - mk);
  }

  lemma NearPower(d64: nat, x: nat, d: nat, k: int)
    requires d64 < INFINITY && Scaled(x, Units(d64), d, k) && x < d && (TWO64 / 4 - 1) * d < TWO64 / 4 * x
    ensures JustBelowTen(d64, k)
  {
    hide Two, TenUp, TenDown, Pow10, Units, Scaled;
    var m := TWO64 / 4;
    TenIs();
    ScaledTimes(m, x, Units(d64), d, k);
    CompareScaled(x, Units(d64), d, k, 1, 1, k);
    CompareScaled(m * x, m * Units(d64), d, k, 1, m - 1, k);
  }

  /** Grisu3 with a requested number of digits: whenever it succeeds they are the exact conversion's.
      The approximation can only be in a higher decade than the double if a power of ten lies just
      above the double, and there is none. */
  method Grisu3Counted(d64: uint64, requested_digits: nat, cached: (int, int) -> (uint64, int, int), buffer: array<char>)
      returns (ok: bool, length: nat, decimal_exponent: int, ghost p: int)
    requires 0 < d64 < INFINITY && CacheOk(cached) && 0 < requested_digits <= buffer.Length
    modifies buffer
    ensures ok ==> length == requested_digits <= 19 && AllDigits(buffer[..length]) && buffer[0] != '0'
    ensures ok ==> PrecisionFor(d64, buffer[..length], length + decimal_exponent, p)
  {
    hide Two, TenUp, TenDown, Dec, Scale, RoundedProduct, Significand, Exponent, Units, PrecisionFor, NearestAt, InUnits, JustBelowTen;
    Ranges(d64);
    var w := AsNormalizedDiyFp(d64);
    NormalizedUnits(d64, w.f, w.e);
    var power := cached(-60 - (w.e + 64), -32 - (w.e + 64));
    var ten_mk := new DiyFp(power.0, power.1);
    var mk := power.2;
    var scaled_w := DiyFp.Times(w, ten_mk);
    ScaledLarge(w.f, ten_mk.f);
    var kappa;
    ghost var kappa0;
    ok, length, kappa, kappa0 := DigitGenCounted(scaled_w, requested_digits, buffer);
    decimal_exponent := kappa - mk;
    p := length + kappa0 - mk;
    if ok {
      AtMostNineteen(buffer[..length], scaled_w.f, scaled_w.e, kappa, kappa0);
      CountedIsPrecision(d64, buffer[..length], w.f, w.e, ten_mk.f, ten_mk.e, mk, kappa, kappa0);
      NoneJustBelowTen(d64, p - 1);
      if Units(d64) * TenDown(p - 1) < TenUp(p - 1) * Two(UNIT) {
        BelowIsJustBelow(d64, buffer[..length], w.f, w.e, ten_mk.f, ten_mk.e, mk, kappa, kappa0);
      }
    }
  }

  lemma NormalizedUnits(d64: nat, f: nat, e: int)
    requires 0 < d64 < INFINITY && NormalizedFrom(f, e, Significand(d64), Exponent(d64))
    ensures InUnits(f, e, Units(d64))
  {
    hide Two, Significand, Exponent;
    Ranges(d64);
    ShiftedUnits(Significand(d64), Exponent(d64) + 1075, Exponent(d64) - e);
  }

  lemma ScaledLarge(a: int, b: int)
    requires UINT64_MSB <= a && UINT64_MSB <= b
    ensures RoundedProduct(a, b) >= TWO64 / 4
  {
    MulMonotone(UINT64_MSB, UINT64_MSB, a, b);
    DivModDefinition(a * b + UINT64_MSB, TWO64);
  }
}
