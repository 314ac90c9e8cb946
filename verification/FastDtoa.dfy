/** Grisu3 digit generation with tracked error (fast-dtoa.cc).

    low, w and high approximate reals LOW < W < HIGH to less than one unit.  Everything is measured
    downwards from too_high = high + 1; in the fractional phase all quantities are scaled by `unit`,
    a power of ten.  A candidate t stands for t * 10^kappa, at distance total - t * ten_kappa. */
module FastDtoa {
  import opened Words
  import opened Decimal
  import opened DiyFps
  import opened Powers
  import opened ShortestDigits
  import opened ScaledStart

  ghost predicate Candidate(t: int, total: int, k: int, unsafe: int) {
    0 <= total - t * k <= unsafe
  }

  /** No candidate is nearer to the point at distance d. */
  ghost predicate NearestTo(t: int, d: int, total: int, k: int, unsafe: int) {
    forall t2: int :: Candidate(t2, total, k, unsafe) ==> Abs(total - t * k - d) <= Abs(total - t2 * k - d)
  }

  /** t lies in the safe interval and is nearest to both ends of the interval that holds W. */
  ghost predicate Certain(t: int, total: int, k: int, unsafe: int, distance: int, unit: int) {
    && 2 * unit <= total - t * k <= unsafe - 4 * unit
    && NearestTo(t, distance - unit, total, k, unsafe)
    && NearestTo(t, distance + unit, total, k, unsafe)
  }

  /** Success means that t is certain; failure that nothing is. */
  ghost predicate Decision(t: int, total: int, k: int, unsafe: int, distance: int, unit: int, ok: bool) {
    && (ok <==> exists t2: int :: Certain(t2, total, k, unsafe, distance, unit))
    && (ok ==> Certain(t, total, k, unsafe, distance, unit))
  }

  /** Rounds the last digit towards w, and says whether that decides: it does exactly when some
      candidate is certain, and then the buffer holds that candidate. */
  method RoundWeed(buffer: array<char>, length: nat, distance_too_high_w: uint64, unsafe_interval: uint64,
      rest0: uint64, ten_kappa: uint64, unit: uint64, ghost total: int) returns (ok: bool)
    requires 0 < length <= buffer.Length && AllDigits(buffer[..length])
    requires 0 < unit <= distance_too_high_w && distance_too_high_w + unit <= unsafe_interval
    requires 4 * unit <= unsafe_interval && rest0 < ten_kappa
    requires Below(buffer[..length], total, ten_kappa, rest0, unsafe_interval)
    modifies buffer
    ensures AllDigits(buffer[..length]) && buffer[..length - 1] == old(buffer[..length - 1])
    ensures Decision(Dec(buffer[..length]), total, ten_kappa, unsafe_interval, distance_too_high_w, unit, ok)
  {
    hide Dec, Certain;
    var small_distance: uint64 := distance_too_high_w - unit;
    var big_distance: uint64 := distance_too_high_w + unit;
    var rest: uint64 := rest0;
    while rest < small_distance && unsafe_interval - rest >= ten_kappa
          && (rest + ten_kappa < small_distance || small_distance - rest >= rest + ten_kappa - small_distance)
      invariant AllDigits(buffer[..length]) && buffer[..length - 1] == old(buffer[..length - 1])
      invariant Below(buffer[..length], total, ten_kappa, rest, unsafe_interval)
      invariant StepDown(rest, ten_kappa, small_distance)
      decreases unsafe_interval - rest
    {
      DecrementLast(buffer, length, total, ten_kappa, rest, unsafe_interval);
      rest := rest + ten_kappa;
    }
    ghost var t := Dec(buffer[..length]);
    if rest < big_distance && unsafe_interval - rest >= ten_kappa
       && (rest + ten_kappa < big_distance || big_distance - rest > rest + ten_kappa - big_distance) {
      NoneCertain(t, rest, total, ten_kappa, unsafe_interval, distance_too_high_w, unit);
      return false;
    }
    Decided(t, rest, total, ten_kappa, unsafe_interval, distance_too_high_w, unit);
    ok := 2 * unit <= rest && rest <= unsafe_interval - 4 * unit;
  }

  /** The digits are `rest` below too_high, and without the last one they leave the unsafe interval. */
  ghost predicate Below(s: seq<char>, total: int, k: int, rest: int, unsafe: int) {
    |s| > 0 && total == Dec(s) * k + rest && 0 <= rest <= unsafe && DigitOf(s[|s| - 1]) * k + rest >= unsafe
  }

  /** buffer[length - 1]--, which never has to borrow */
  method DecrementLast(buffer: array<char>, length: nat, ghost total: int, ghost k: int, ghost rest: int, ghost unsafe: int)
    requires 0 < length <= buffer.Length && AllDigits(buffer[..length])
    requires Below(buffer[..length], total, k, rest, unsafe) && unsafe - rest >= k > 0
    modifies buffer
    ensures AllDigits(buffer[..length]) && buffer[..length - 1] == old(buffer[..length - 1])
    ensures Below(buffer[..length], total, k, rest + k, unsafe)
  {
    hide Dec;
    ghost var s := buffer[..length];
    DigitLeft(DigitOf(s[length - 1]), k, rest, unsafe);
    buffer[length - 1] := (buffer[length - 1] as int - 1) as char;
    assert buffer[..length] == s[length - 1 := buffer[length - 1]];
    LastDigitDown(s, buffer[length - 1], k);
  }

  /** A step down was only taken towards w_high. */
  ghost predicate StepDown(rest: int, k: int, small: int) {
    rest >= k ==> rest - k < small && (rest < small || small - (rest - k) >= rest - small)
  }

  lemma DigitLeft(digit: int, k: int, rest: int, unsafe: int)
    requires digit * k + rest >= unsafe && unsafe - rest >= k > 0
    ensures digit >= 1 && (digit - 1) * k == digit * k - k
  {
    if digit < 1 { MulGap(digit, 1, k); }
  }

  lemma LastDigitDown(s: seq<char>, c: char, k: int)
    requires |s| > 0 && DigitOf(c) == DigitOf(s[|s| - 1]) - 1
    ensures Dec(s[|s| - 1 := c]) * k == Dec(s) * k - k
    ensures DigitOf(c) * k == DigitOf(s[|s| - 1]) * k - k
  {
    DecUpdate(s, |s| - 1, c);
    MulDistribute(Dec(s), 1, k);
    MulDistribute(DigitOf(s[|s| - 1]), 1, k);
  }

  /** Distances of other candidates lie at least one step away. */
  lemma OtherDistance(t: int, t2: int, total: int, k: int)
    requires k > 0
    ensures t2 < t ==> total - t2 * k >= total - t * k + k
    ensures t2 > t ==> total - t2 * k <= total - t * k - k
  {
    if t2 < t { MulGap(t2, t, k); }
    if t2 > t { MulGap(t, t2, k); }
  }

  lemma NearestHere(t: int, r: int, d: int, total: int, k: int, unsafe: int)
    requires k > 0 && r == total - t * k && 0 <= r <= unsafe
    requires r >= k ==> Abs(r - d) <= Abs(r - k - d)
    requires r + k <= unsafe ==> Abs(r - d) <= Abs(r + k - d)
    ensures NearestTo(t, d, total, k, unsafe)
  {
    forall t2: int | Candidate(t2, total, k, unsafe)
      ensures Abs(total - t * k - d) <= Abs(total - t2 * k - d)
    {
      OtherDistance(t, t2, total, k);
    }
  }

  /** When both ends agree, only the weeding test is left. */
  lemma Decided(t: int, r: int, total: int, k: int, unsafe: int, distance: int, unit: int)
    requires k > 0 && unit > 0 && r == total - t * k && 0 <= r <= unsafe && StepDown(r, k, distance - unit)
    requires !(r < distance - unit && unsafe - r >= k
               && (r + k < distance - unit || distance - unit - r >= r + k - (distance - unit)))
    requires !(r < distance + unit && unsafe - r >= k
               && (r + k < distance + unit || distance + unit - r > r + k - (distance + unit)))
    ensures Certain(t, total, k, unsafe, distance, unit) <==> 2 * unit <= r <= unsafe - 4 * unit
    ensures forall t2: int :: Certain(t2, total, k, unsafe, distance, unit) ==> t2 == t
  {
    hide NearestTo;
    NearestHere(t, r, distance - unit, total, k, unsafe);
    NearestHere(t, r, distance + unit, total, k, unsafe);
    OnlyOneCertain(t, r, total, k, unsafe, distance, unit);
  }

  /** When the next candidate down is nearer to w_low, w_high and w_low disagree. */
  lemma NoneCertain(t: int, r: int, total: int, k: int, unsafe: int, distance: int, unit: int)
    requires k > 0 && unit > 0 && r == total - t * k && 0 <= r && r + k <= unsafe && r < distance + unit
    requires !(r < distance - unit && (r + k < distance - unit || distance - unit - r >= r + k - (distance - unit)))
    requires r + k < distance + unit || distance + unit - r > r + k - (distance + unit)
    ensures forall t2: int :: !Certain(t2, total, k, unsafe, distance, unit)
  {
    OtherDistance(t, t - 1, total, k);
    MulDistribute(t, 1, k);
    forall t2: int ensures !Certain(t2, total, k, unsafe, distance, unit) {
      OtherDistance(t, t2, total, k);
      assert Candidate(t, total, k, unsafe) && Candidate(t - 1, total, k, unsafe);
    }
  }

  lemma OnlyOneCertain(t: int, r: int, total: int, k: int, unsafe: int, distance: int, unit: int)
    requires k > 0 && unit > 0 && r == total - t * k && 0 <= r <= unsafe
    requires NearestTo(t, distance - unit, total, k, unsafe) && NearestTo(t, distance + unit, total, k, unsafe)
    ensures forall t2: int :: Certain(t2, total, k, unsafe, distance, unit) ==> t2 == t
  {
    forall t2: int | Certain(t2, total, k, unsafe, distance, unit) ensures t2 == t {
      OtherDistance(t, t2, total, k);
      assert Candidate(t, total, k, unsafe) && Candidate(t2, total, k, unsafe);
    }
  }

  // ----- the leading power of ten -----

  const SMALL_POWERS_OF_TEN: seq<uint32> :=
    [0, 1, 10, 100, 1000, 10000, 100000, 1000000, 10000000, 100000000, 1000000000]

  lemma {:induction false} SmallPower(i: nat)
    requires 1 <= i <= 10
    ensures SMALL_POWERS_OF_TEN[i] == Pow10(i - 1)
    decreases i
  {
    if i > 1 {
      SmallPower(i - 1);
      assert SMALL_POWERS_OF_TEN[i] == 10 * SMALL_POWERS_OF_TEN[i - 1];
    } else {
      PowNone(10);
    }
  }

  function Times(x: int, y: int): int {
    x * y
  }

  /** 1233 / 4096 is close enough to log10(2) for every width of a uint32. */
  lemma GuessRange(number_bits: nat)
    requires number_bits <= 32
    ensures var guess := (number_bits + 1) * 1233 / 4096 + 1;
            && 1 <= guess <= 10 && Two(number_bits + 1) <= Times(10, SMALL_POWERS_OF_TEN[guess])
            && (guess > 1 ==> Times(4, SMALL_POWERS_OF_TEN[guess - 1]) <= Two(number_bits))
  {
    hide Two;
    SmallTwos();
    TwoAdd(number_bits, 1);
    TwoTen();
    TwoAdd(30, 2);
    if number_bits <= 10 {
    } else if number_bits <= 20 {
      TwoAdd(10, number_bits - 10);
    } else if number_bits <= 30 {
      TwoAdd(20, number_bits - 20);
    } else if number_bits == 31 {
      TwoAdd(30, 1);
    }
  }

  lemma SmallTwos()
    ensures forall n: nat :: n <= 10 ==>
      Two(n) == [1, 2, 4, 8, 16, 32, 64, 128, 256, 512, 1024][n]
    ensures Two(20) == 1048576 && Two(30) == 1073741824
  {
    hide Two;
    TwoNone();
    assert Two(1) == 2 by { TwoTen(); }
    TwoAdd(1, 1);
    TwoAdd(2, 1);
    TwoAdd(3, 1);
    TwoAdd(4, 1);
    TwoAdd(5, 1);
    TwoAdd(6, 1);
    TwoAdd(7, 1);
    TwoAdd(8, 1);
    TwoAdd(9, 1);
    TwoAdd(10, 10);
    TwoAdd(20, 10);
  }

  /** The largest power of ten not above number, if number has about number_bits bits; always one
      that is more than a tenth of it. */
  method BiggestPowerTen(number: uint32, number_bits: nat) returns (power: uint32, exponent_plus_one: nat)
    requires number_bits <= 32 && number < Two(number_bits + 1)
    ensures exponent_plus_one > 0 ==> power == Pow10(exponent_plus_one - 1) && number < 10 * power
    ensures exponent_plus_one == 0 ==> number == 0
    ensures 4 * number >= Two(number_bits) ==> 1 <= exponent_plus_one && power <= number
    ensures exponent_plus_one <= 10
  {
    hide Two, Pow10;
    GuessRange(number_bits);
    var exponent_plus_one_guess := (number_bits + 1) * 1233 / 4096;
    exponent_plus_one_guess := exponent_plus_one_guess + 1;
    if number < SMALL_POWERS_OF_TEN[exponent_plus_one_guess] {
      exponent_plus_one_guess := exponent_plus_one_guess - 1;
    }
    power, exponent_plus_one := SMALL_POWERS_OF_TEN[exponent_plus_one_guess], exponent_plus_one_guess;
    if exponent_plus_one > 0 { SmallPower(exponent_plus_one); }
    if exponent_plus_one + 1 <= 10 { SmallPower(exponent_plus_one + 1); }
  }

  // ----- digit generation -----

  /** 10^kappa in units of 2^e, over TenDown(kappa). */
  ghost function Scale(e: int, kappa: int): (k: nat)
    requires e <= 0
    ensures k > 0
  {
    MulPositive(Two(0 - e), TenUp(kappa));
    Two(0 - e) * TenUp(kappa)
  }

  /** t * 10^kappa lies above too_low and not above too_high. */
  ghost predicate Unsafe(t: int, low: int, high: int, k: int, u: int) {
    (low - 1) * u < t * k <= (high + 1) * u
  }

  ghost predicate TensUnsafe(t: int, low: int, high: int, k: int, u: int) {
    Unsafe(t, low, high, 10 * k, u)
  }

  /** 10^kappa is the largest power of ten with a multiple between too_low and too_high. */
  ghost predicate LargestPower(low: int, high: int, k: int, u: int) {
    NoTens(low, high, k, u) && exists t: int :: Unsafe(t, low, high, k, u)
  }

  ghost predicate NoTens(low: int, high: int, k: int, u: int) {
    forall t: int :: !TensUnsafe(t, low, high, k, u)
  }

  /** The digits so far leave `rest`, still too much to stop at, and less than one step. */
  ghost predicate Head(s: seq<char>, total: int, unsafe: int, k: int, rest: int) {
    total == Dec(s) * k + rest && unsafe <= rest < k
  }

  /** Three values on the scale 2^e, at least two units apart, and a buffer of `room` digits. */
  ghost predicate Inputs(low: int, w: int, high: int, e: int, room: nat) {
    && -60 <= e <= -32
    && 1 <= low < w < high && low + 1 <= high - 1
    && TWO64 / 4 <= high < TWO64 - 1
    && 0 < room && high + 1 <= (high - low + 2) * Pow10(room - 1)
  }

  /** What a call that stops at 10^kappa promises. */
  ghost predicate Outcome(s: seq<char>, low: int, w: int, high: int, e: int, kappa: int, ok: bool)
    requires e <= 0
  {
    var k, u := Scale(e, kappa), TenDown(kappa);
    && AllDigits(s) && |s| > 0
    && LargestPower(low, high, k, u)
    && Decision(Dec(s), (high + 1) * u, k, (high - low + 2) * u, (high + 1 - w) * u, u, ok)
    && (ok ==> s[0] != '0')
  }

  method DigitGen(low: DiyFp, w: DiyFp, high: DiyFp, buffer: array<char>, ghost room: nat)
      returns (ok: bool, length: nat, kappa: int)
    requires low.e == w.e == high.e && Inputs(low.f, w.f, high.f, w.e, room) && room <= buffer.Length
    modifies buffer
    ensures 0 < length <= room && Outcome(buffer[..length], low.f, w.f, high.f, w.e, kappa, ok)
  {
    ok, length, kappa := IntegralDigits(low.f, w.f, high.f, w.e, buffer, room);
  }

  method IntegralDigits(low: uint64, w: uint64, high: uint64, e: int, buffer: array<char>, ghost room: nat)
      returns (ok: bool, length: nat, kappa: int)
    requires Inputs(low, w, high, e, room) && room <= buffer.Length
    modifies buffer
    ensures 0 < length <= room && Outcome(buffer[..length], low, w, high, e, kappa, ok)
  {
    hide Dec, Pow10, Two, TenDown, Scale, Head, Below, NoTens, Outcome, Integral;
    var unit: uint64 := 1;
    var too_high: uint64 := high + unit;
    var too_low: uint64 := low - unit;
    var unsafe_interval: uint64 := too_high - too_low;
    OneRange(e, too_high);
    var one: uint64 := Two(0 - e);
    var integrals: uint32 := too_high / one;
    var fractionals: uint64 := too_high % one;
    var divisor: uint32, divisor_exponent_plus_one: nat := BiggestPowerTen(integrals, 64 + e);
    kappa := divisor_exponent_plus_one;
    length := 0;
    Begin(integrals, one, fractionals, low, high, kappa, divisor);
    assert buffer[..0] == [];
    while kappa > 0
      invariant 0 <= kappa && 0 <= length < room
      invariant Integral(buffer[..length], low, high, kappa, one, integrals, fractionals, divisor)
      decreases kappa
    {
      var remaining, rest := EmitIntegral(buffer, length, integrals, divisor, one, fractionals, kappa, low, high);
      length := length + 1;
      kappa := kappa - 1;
      if rest < unsafe_interval {
        AtScale(e, kappa);
        ok := Stop(low, w, high, e, buffer, length, kappa, unsafe_interval, rest, divisor * one, unit);
        return;
      }
      RoomLeft(buffer[..length], low, high, unit, one * divisor, rest, room);
      integrals := remaining;
      divisor := divisor / 10;
    }
    NoneIntegral(buffer[..length], low, high, kappa, one, integrals, fractionals, divisor);
    ok, length, kappa := FractionalDigits(low, w, high, e, buffer, length, one, fractionals, unsafe_interval, room);
  }

  /** In front of a digit of the integral part. */
  ghost predicate Integral(s: seq<char>, low: int, high: int, kappa: nat, one: int, integrals: int, fractionals: int,
      divisor: int)
  {
    && AllDigits(s) && 0 <= fractionals < one
    && 0 <= integrals < Pow10(kappa) && (kappa > 0 ==> divisor == Pow10(kappa - 1))
    && (if s == [] then kappa > 0 && divisor <= integrals else s[0] != '0')
    && Head(s, high + 1, high - low + 2, one * Pow10(kappa), integrals * one + fractionals)
    && one * Pow10(kappa) <= 10 * (high + 1)
  }

  method EmitIntegral(buffer: array<char>, length: nat, integrals: uint32, divisor: uint32, one: uint64,
      fractionals: uint64, ghost kappa: nat, ghost low: int, ghost high: int) returns (remaining: uint32, rest: uint64)
    requires length < buffer.Length && kappa > 0 && high + 1 < TWO64
    requires Integral(buffer[..length], low, high, kappa, one, integrals, fractionals, divisor)
    modifies buffer
    ensures AllDigits(buffer[..length + 1]) && buffer[0] != '0' && divisor == Pow10(kappa - 1)
    ensures rest == remaining * one + fractionals < one * divisor < TWO64 && NoTens(low, high, one * divisor, 1)
    ensures rest < high - low + 2 ==> Below(buffer[..length + 1], high + 1, one * divisor, rest, high - low + 2)
    ensures rest >= high - low + 2 ==>
      && Head(buffer[..length + 1], high + 1, high - low + 2, one * divisor, rest)
      && Integral(buffer[..length + 1], low, high, kappa - 1, one, remaining, fractionals, divisor / 10)
  {
    hide Dec, Pow10, Head, Below, NoTens;
    ghost var s, big, k := buffer[..length], integrals * one + fractionals, one * divisor;
    var digit;
    digit, remaining := DivideIntegrals(integrals, divisor, kappa, one, fractionals);
    buffer[length] := DigitChar(digit);
    assert buffer[..length + 1] == s + [DigitChar(digit)];
    rest := remaining * one + fractionals;
    NextDigit(s, digit, low, high, 1, k, big, rest);
  }

  lemma NoneIntegral(s: seq<char>, low: int, high: int, kappa: nat, one: int, integrals: int, fractionals: int, divisor: int)
    requires kappa == 0 && Integral(s, low, high, kappa, one, integrals, fractionals, divisor)
    ensures AllDigits(s) && s != [] && s[0] != '0'
    ensures Head(s, high + 1, high - low + 2, one, fractionals) && high - low + 2 <= fractionals < one
  {
    hide Dec;
    MulZero(one);
    TenIs();
  }

  /** The digits after the decimal point of too_high. */
  method FractionalDigits(low: uint64, w: uint64, high: uint64, e: int, buffer: array<char>, length0: nat,
      one: uint64, fractionals0: uint64, unsafe_interval0: uint64, ghost room: nat) returns (ok: bool, length: nat, kappa: int)
    requires Inputs(low, w, high, e, room) && room <= buffer.Length && one == Two(0 - e)
    requires 0 < length0 < room && AllDigits(buffer[..length0]) && buffer[0] != '0'
    requires unsafe_interval0 == high - low + 2
    requires Head(buffer[..length0], high + 1, unsafe_interval0, one, fractionals0)
    requires unsafe_interval0 <= fractionals0 < one
    modifies buffer
    ensures 0 < length <= room && Outcome(buffer[..length], low, w, high, e, kappa, ok)
  {
    hide Dec, Pow10, Two, TenDown, Scale, Head, Below, NoTens, Outcome;
    OneRange(e, high + 1);
    length, kappa := length0, 0;
    var unit: uint64, fractionals: uint64, unsafe_interval: uint64 := 1, fractionals0, unsafe_interval0;
    AtScale(e, 0);
    while true
      invariant kappa <= 0 && 0 < length < room && AllDigits(buffer[..length]) && buffer[0] != '0'
      invariant 0 < unit == TenDown(kappa) && Scale(e, kappa) == one
      invariant unit <= unsafe_interval <= fractionals < one
      invariant unsafe_interval == (high - low + 2) * unit
      invariant Head(buffer[..length], (high + 1) * unit, unsafe_interval, one, fractionals)
      decreases one - unsafe_interval
    {
      ghost var s, u, big := buffer[..length], unit, 10 * fractionals;
      TenTimes(e, kappa);
      ScaledHead(s, low, high, u, one, fractionals);
      fractionals := fractionals * 10;
      unit := unit * 10;
      unsafe_interval := unsafe_interval * 10;
      FractionalDigit(fractionals, one);
      var digit := fractionals / one;
      buffer[length] := DigitChar(digit);
      assert buffer[..length + 1] == s + [DigitChar(digit)];
      length := length + 1;
      fractionals := fractionals % one;
      kappa := kappa - 1;
      NextDigit(s, digit, low, high, unit, one, big, fractionals);
      if fractionals < unsafe_interval {
        ok := Stop(low, w, high, e, buffer, length, kappa, unsafe_interval, fractionals, one, unit);
        return;
      }
      RoomLeft(buffer[..length], low, high, unit, one, fractionals, room);
    }
  }

  method Stop(low: uint64, w: uint64, high: uint64, e: int, buffer: array<char>, length: nat, ghost kappa: int,
      unsafe_interval: uint64, rest: uint64, ten_kappa: uint64, unit: uint64) returns (ok: bool)
    requires 1 <= low < w < high < TWO64 - 1 && e <= 0
    requires 0 < length <= buffer.Length && AllDigits(buffer[..length]) && (length == 1 || buffer[0] != '0')
    requires ten_kappa == Scale(e, kappa) && unit == TenDown(kappa)
    requires unsafe_interval == (high - low + 2) * unit && rest < unsafe_interval && rest < ten_kappa
    requires Below(buffer[..length], (high + 1) * unit, ten_kappa, rest, unsafe_interval)
    requires NoTens(low, high, ten_kappa, unit)
    modifies buffer
    ensures Outcome(buffer[..length], low, w, high, e, kappa, ok)
  {
    hide Dec, TenUp, TenDown, Scale, Certain, NoTens;
    MulDistribute(high + 1, high - low + 2, unit);
    assert Unsafe(Dec(buffer[..length]), low, high, ten_kappa, unit);
    assert LargestPower(low, high, ten_kappa, unit);
    Distances(low, w, high, unit);
    ok := RoundWeed(buffer, length, (high + 1 - w) * unit, unsafe_interval, rest, ten_kappa, unit, (high + 1) * unit);
    if ok {
      LeadingStays(buffer[..length], low, w, high, ten_kappa, unit);
      if length > 1 { assert buffer[0] == buffer[..length - 1][0]; }
    }
  }

  lemma Distances(low: int, w: int, high: int, unit: int)
    requires low < w < high && unit > 0
    ensures unit <= (high + 1 - w) * unit && (high + 1 - w) * unit + unit <= (high - low + 2) * unit
    ensures 4 * unit <= (high - low + 2) * unit
  {
    MulLess(1, high + 1 - w, unit);
    MulDistribute(high + 1 - w, 1, unit);
    MulLess(high + 1 - w + 1, high - low + 2, unit);
    MulLess(4, high - low + 2, unit);
  }

  lemma LeadingStays(s: seq<char>, low: int, w: int, high: int, k: int, unit: int)
    requires |s| > 0 && 1 <= low < w < high && k > 0 && unit > 0
    requires Certain(Dec(s), (high + 1) * unit, k, (high - low + 2) * unit, (high + 1 - w) * unit, unit)
    ensures |s| == 1 ==> s[0] != '0'
  {
    MulDistribute(high + 1, high - low + 2, unit);
    MulPositive(low - 1, unit);
    if |s| == 1 && s[0] == '0' {
      DecZeros(s);
      MulZero(k);
    }
  }

  lemma OneRange(e: int, total: int)
    requires -60 <= e <= -32 && TWO64 / 4 <= total < TWO64
    ensures TWO32 <= Two(0 - e) && 10 * Two(0 - e) < TWO64
    ensures 0 <= total / Two(0 - e) < TWO32 && total / Two(0 - e) < Two(64 + e + 1)
    ensures 4 * (total / Two(0 - e)) >= Two(64 + e)
  {
    hide Two;
    SmallTwos();
    TwoTen();
    TwoAdd(30, 2);
    TwoAdd(30, 30);
    TwoAdd(32, 30);
    TwoAdd(62, 2);
    var one, q := Two(0 - e), total / Two(0 - e);
    TwoMonotone(32, 0 - e);
    TwoMonotone(0 - e, 60);
    TwoAdd(64 + e, 0 - e);
    TwoAdd(62 + e, 0 - e);
    TwoAdd(62 + e, 2);
    TwoAdd(64 + e, 1);
    TwoMonotone(64 + e, 32);
    DivModDefinition(total, one);
    if q >= Two(64 + e) { MulLess(Two(64 + e), q, one); }
    if q < Two(62 + e) { MulGap(q, Two(62 + e), one); }
  }

  lemma Begin(integrals: int, one: int, fractionals: int, low: int, high: int, kappa: nat, divisor: int)
    requires one > 0 && 1 <= low < high && integrals == (high + 1) / one && fractionals == (high + 1) % one
    requires kappa > 0 && divisor == Pow10(kappa - 1) && divisor <= integrals < 10 * divisor
    ensures Integral([], low, high, kappa, one, integrals, fractionals, divisor)
  {
    hide Pow10;
    DivModDefinition(high + 1, one);
    TenSucc(kappa - 1);
    MulGap(integrals, Pow10(kappa), one);
    MulLess(divisor, integrals, one);
    MulAssociate(10, divisor, one);
  }

  /** integrals / divisor and integrals % divisor */
  method DivideIntegrals(integrals: uint32, divisor: uint32, ghost kappa: nat, ghost one: int, ghost fractionals: int)
      returns (digit: nat, remaining: uint32)
    requires kappa > 0 && divisor == Pow10(kappa - 1) && integrals < Pow10(kappa) && 0 <= fractionals < one
    ensures 0 <= digit <= 9 && (divisor <= integrals ==> digit >= 1) && remaining < divisor
    ensures one * Pow10(kappa) == 10 * (one * divisor) && one * divisor > 0
    ensures integrals * one + fractionals == digit * (one * divisor) + (remaining * one + fractionals)
    ensures 0 <= remaining * one + fractionals < one * divisor
    ensures kappa > 1 ==> divisor / 10 == Pow10(kappa - 2)
  {
    IntegralDigit(integrals, divisor, kappa, one, fractionals);
    digit := integrals / divisor;
    remaining := integrals % divisor;
  }

  lemma IntegralDigit(integrals: nat, divisor: int, kappa: nat, one: int, fractionals: int)
    requires kappa > 0 && divisor == Pow10(kappa - 1) && integrals < Pow10(kappa) && 0 <= fractionals < one
    ensures 0 <= integrals / divisor <= 9 && (divisor <= integrals ==> integrals / divisor >= 1)
    ensures 0 <= integrals % divisor < divisor && one * Pow10(kappa) == 10 * (one * divisor) && one * divisor > 0
    ensures integrals * one + fractionals
         == integrals / divisor * (one * divisor) + (integrals % divisor * one + fractionals)
    ensures 0 <= integrals % divisor * one + fractionals < one * divisor
    ensures kappa > 1 ==> divisor / 10 == Pow10(kappa - 2)
  {
    hide Pow10;
    TenSucc(kappa - 1);
    if kappa > 1 { TenSucc(kappa - 2); }
    OneDigit(integrals, divisor);
    ScaledDigit(integrals / divisor, integrals % divisor, divisor, one, fractionals);
    MulAssociate(one, 10, divisor);
    MulAssociate(10, one, divisor);
    MulDistribute(integrals / divisor * divisor, integrals % divisor, one);
  }

  lemma OneDigit(integrals: nat, divisor: int)
    requires 0 < divisor && integrals < 10 * divisor
    ensures 0 <= integrals / divisor <= 9 && (divisor <= integrals ==> integrals / divisor >= 1)
    ensures 0 <= integrals % divisor < divisor && integrals == integrals / divisor * divisor + integrals % divisor
  {
    var q := integrals / divisor;
    DivModDefinition(integrals, divisor);
    if q >= 10 { MulLess(10, q, divisor); }
    if q < 1 { MulLess(q, 1, divisor); }
    if q < 0 { MulGap(q, 0, divisor); }
  }

  lemma ScaledDigit(q: int, r: int, divisor: int, one: int, fractionals: int)
    requires 0 < divisor && 0 <= r < divisor && 0 <= fractionals < one
    ensures (q * divisor) * one == q * (one * divisor) && one * divisor > 0
    ensures 0 <= r * one + fractionals < one * divisor
  {
    MulAssociate(q, divisor, one);
    MulGap(r, divisor, one);
    MulPositive(one, divisor);
    MulPositive(r, one);
  }

  /** One more digit: nothing in the unsafe interval was a multiple of the power of ten before. */
  lemma NextDigit(s: seq<char>, digit: int, low: int, high: int, u: int, k: int, big: int, rest: int)
    requires 0 <= digit <= 9 && k > 0 && Head(s, (high + 1) * u, (high - low + 2) * u, 10 * k, big)
    requires big == digit * k + rest && 0 <= rest < k
    ensures
      var s2, total, unsafe := s + [DigitChar(digit)], (high + 1) * u, (high - low + 2) * u;
      && NoTens(low, high, k, u)
      && (rest < unsafe ==> Below(s2, total, k, rest, unsafe))
      && (rest >= unsafe ==> Head(s2, total, unsafe, k, rest))
  {
    hide Dec;
    DecAppend(s, DigitChar(digit));
    MulDistribute(10 * Dec(s), digit, k);
    MulAssociate(Dec(s), 10, k);
    MulAssociate(10, Dec(s), k);
    NothingUnsafe(Dec(s), low, high, k, u, big);
  }

  /** A multiple of the next power of ten would have been found one digit earlier. */
  lemma NothingUnsafe(d: int, low: int, high: int, k: int, u: int, big: int)
    requires k > 0 && (high + 1) * u == d * (10 * k) + big && (high - low + 2) * u <= big < 10 * k
    ensures NoTens(low, high, k, u)
  {
    MulDistribute(high + 1, high - low + 2, u);
    forall t: int ensures !TensUnsafe(t, low, high, k, u) {
      OtherDistance(d, t, (high + 1) * u, 10 * k);
    }
  }

  lemma AtScale(e: int, kappa: nat)
    requires e <= 0
    ensures Scale(e, kappa) == Two(0 - e) * Pow10(kappa) && TenDown(kappa) == 1
    ensures Pow10(0) == 1
  {
    TenIs();
  }

  /** Enough room for another digit: too_high has few digits more than the unsafe interval. */
  lemma RoomLeft(s: seq<char>, low: int, high: int, u: int, k: int, rest: int, room: nat)
    requires AllDigits(s) && |s| > 0 && s[0] != '0' && room > 0 && low < high && u > 0
    requires Head(s, (high + 1) * u, (high - low + 2) * u, k, rest)
    requires high + 1 <= (high - low + 2) * Pow10(room - 1)
    ensures |s| < room
  {
    hide Dec, Pow10;
    var p, unsafe := Pow10(|s| - 1), (high - low + 2) * u;
    DecLeading(s);
    MulPositive(high - low + 2, u);
    Multiplied(high + 1, high - low + 2, u, room);
    MulLess(p, Dec(s), k);
    MulLess(unsafe, k, p);
    if |s| >= room {
      TenMonotone(room - 1, |s| - 1);
      MulLess(Pow10(room - 1), p, unsafe);
    }
  }

  lemma TenTimes(e: int, kappa: int)
    requires kappa <= 0 && e <= 0
    ensures TenDown(kappa - 1) == 10 * TenDown(kappa) && Scale(e, kappa - 1) == Scale(e, kappa)
  {}

  lemma FractionalDigit(fractionals: int, one: int)
    requires 0 <= fractionals < 10 * one
    ensures 0 <= fractionals / one <= 9 && 0 <= fractionals % one < one
    ensures fractionals == fractionals / one * one + fractionals % one
  {
    DivModDefinition(fractionals, one);
    if fractionals / one >= 10 { MulLess(10, fractionals / one, one); }
    if fractionals / one < 0 { MulLess(fractionals / one, 0, one); MulGap(fractionals / one, 0, one); }
  }

  lemma ScaledHead(s: seq<char>, low: int, high: int, u: int, one: int, fractionals: int)
    requires low < high && u > 0 && Head(s, (high + 1) * u, (high - low + 2) * u, one, fractionals)
    ensures Head(s, (high + 1) * (10 * u), (high - low + 2) * (10 * u), 10 * one, 10 * fractionals)
    ensures 10 * u <= 10 * ((high - low + 2) * u) == (high - low + 2) * (10 * u)
    ensures 0 <= 10 * fractionals < 10 * one
  {
    hide Dec;
    MulAssociate(high + 1, 10, u);
    MulAssociate(10, high + 1, u);
    MulAssociate(high - low + 2, 10, u);
    MulAssociate(10, high - low + 2, u);
    MulAssociate(Dec(s), 10, one);
    MulAssociate(10, Dec(s), one);
    MulLess(1, high - low + 2, u);
  }

  lemma Multiplied(total: int, unsafe: int, u: int, room: nat)
    requires u > 0 && room > 0 && total <= unsafe * Pow10(room - 1)
    ensures total * u <= (unsafe * u) * Pow10(room - 1)
  {
    MulLess(total, unsafe * Pow10(room - 1), u);
    MulAssociate(unsafe, Pow10(room - 1), u);
    MulAssociate(unsafe, u, Pow10(room - 1));
  }
}
