/** The table of cached powers of ten (cached-powers.cc): every entry is within half a unit of its
    power, and every window of binary exponents the conversions ask for holds the entry found. */
module CachedPowers {
  import opened Words
  import opened Decimal
  import opened Powers
  import opened ScaledStart
  import opened DiyFps
  import opened Grisu
  import opened PowerGaps
  import opened DiyFpStrtods

  const LENGTH: nat := 87

  /** Significand and binary exponent of 10^(8 * i - 348). */
  function Cached(i: nat): (uint64, int) {
    match i
    case 0 => (0xfa8fd5a0081c0288, -1220)
    case 1 => (0xbaaee17fa23ebf76, -1193)
    case 2 => (0x8b16fb203055ac76, -1166)
    case 3 => (0xcf42894a5dce35ea, -1140)
    case 4 => (0x9a6bb0aa55653b2d, -1113)
    case 5 => (0xe61acf033d1a45df, -1087)
    case 6 => (0xab70fe17c79ac6ca, -1060)
    case 7 => (0xff77b1fcbebcdc4f, -1034)
    case 8 => (0xbe5691ef416bd60c, -1007)
    case 9 => (0x8dd01fad907ffc3c, -980)
    case 10 => (0xd3515c2831559a83, -954)
    case 11 => (0x9d71ac8fada6c9b5, -927)
    case 12 => (0xea9c227723ee8bcb, -901)
    case 13 => (0xaecc49914078536d, -874)
    case 14 => (0x823c12795db6ce57, -847)
    case 15 => (0xc21094364dfb5637, -821)
    case 16 => (0x9096ea6f3848984f, -794)
    case 17 => (0xd77485cb25823ac7, -768)
    case 18 => (0xa086cfcd97bf97f4, -741)
    case 19 => (0xef340a98172aace5, -715)
    case 20 => (0xb23867fb2a35b28e, -688)
    case 21 => (0x84c8d4dfd2c63f3b, -661)
    case 22 => (0xc5dd44271ad3cdba, -635)
    case 23 => (0x936b9fcebb25c996, -608)
    case 24 => (0xdbac6c247d62a584, -582)
    case 25 => (0xa3ab66580d5fdaf6, -555)
    case 26 => (0xf3e2f893dec3f126, -529)
    case 27 => (0xb5b5ada8aaff80b8, -502)
    case 28 => (0x87625f056c7c4a8b, -475)
    case 29 => (0xc9bcff6034c13053, -449)
    case 30 => (0x964e858c91ba2655, -422)
    case 31 => (0xdff9772470297ebd, -396)
    case 32 => (0xa6dfbd9fb8e5b88f, -369)
    case 33 => (0xf8a95fcf88747d94, -343)
    case 34 => (0xb94470938fa89bcf, -316)
    case 35 => (0x8a08f0f8bf0f156b, -289)
    case 36 => (0xcdb02555653131b6, -263)
    case 37 => (0x993fe2c6d07b7fac, -236)
    case 38 => (0xe45c10c42a2b3b06, -210)
    case 39 => (0xaa242499697392d3, -183)
    case 40 => (0xfd87b5f28300ca0e, -157)
    case 41 => (0xbce5086492111aeb, -130)
    case 42 => (0x8cbccc096f5088cc, -103)
    case 43 => (0xd1b71758e219652c, -77)
    case 44 => (0x9c40000000000000, -50)
    case 45 => (0xe8d4a51000000000, -24)
    case 46 => (0xad78ebc5ac620000, 3)
    case 47 => (0x813f3978f8940984, 30)
    case 48 => (0xc097ce7bc90715b3, 56)
    case 49 => (0x8f7e32ce7bea5c70, 83)
    case 50 => (0xd5d238a4abe98068, 109)
    case 51 => (0x9f4f2726179a2245, 136)
    case 52 => (0xed63a231d4c4fb27, 162)
    case 53 => (0xb0de65388cc8ada8, 189)
    case 54 => (0x83c7088e1aab65db, 216)
    case 55 => (0xc45d1df942711d9a, 242)
    case 56 => (0x924d692ca61be758, 269)
    case 57 => (0xda01ee641a708dea, 295)
    case 58 => (0xa26da3999aef774a, 322)
    case 59 => (0xf209787bb47d6b85, 348)
    case 60 => (0xb454e4a179dd1877, 375)
    case 61 => (0x865b86925b9bc5c2, 402)
    case 62 => (0xc83553c5c8965d3d, 428)
    case 63 => (0x952ab45cfa97a0b3, 455)
    case 64 => (0xde469fbd99a05fe3, 481)
    case 65 => (0xa59bc234db398c25, 508)
    case 66 => (0xf6c69a72a3989f5c, 534)
    case 67 => (0xb7dcbf5354e9bece, 561)
    case 68 => (0x88fcf317f22241e2, 588)
    case 69 => (0xcc20ce9bd35c78a5, 614)
    case 70 => (0x98165af37b2153df, 641)
    case 71 => (0xe2a0b5dc971f303a, 667)
    case 72 => (0xa8d9d1535ce3b396, 694)
    case 73 => (0xfb9b7cd9a4a7443c, 720)
    case 74 => (0xbb764c4ca7a44410, 747)
    case 75 => (0x8bab8eefb6409c1a, 774)
    case 76 => (0xd01fef10a657842c, 800)
    case 77 => (0x9b10a4e5e9913129, 827)
    case 78 => (0xe7109bfba19c0c9d, 853)
    case 79 => (0xac2820d9623bf429, 880)
    case 80 => (0x80444b5e7aa7cf85, 907)
    case 81 => (0xbf21e44003acdd2d, 933)
    case 82 => (0x8e679c2f5e44ff8f, 960)
    case 83 => (0xd433179d9c8cb841, 986)
    case 84 => (0x9e19db92b4e31ba9, 1013)
    case 85 => (0xeb96bf6ebadf77d9, 1039)
    case _ => (0xaf87023b9bf0ee6b, 1066)
  }

  // ----- the entries -----

  /** The next 64 bits of the power, as a difference to the entry, and the width of the bounds. */
  function Tail(i: nat): (int, nat) {
    match i
    case 0 => (1671618768450675764, 66)
    case 1 => (6735622456908576307, 48)
    case 2 => (5493207715531443233, 35)
    case 3 => (5910495864778290594, 50)
    case 4 => (5166248661484910174, 36)
    case 5 => (8050505971837842342, 52)
    case 6 => (7907585416552444917, 38)
    case 7 => (2731688931043774305, 56)
    case 8 => (2579604275232953665, 41)
    case 9 => (-5891368184943504682, 30)
    case 10 => (962181821410786800, 43)
    case 11 => (8031958568804398235, 31)
    case 12 => (5070514048102156999, 45)
    case 13 => (6411694268519837193, 33)
    case 14 => (8558313775058847821, 24)
    case 15 => (-7468914334623251755, 34)
    case 16 => (4607414176811283990, 25)
    case 17 => (9035120885289943674, 37)
    case 18 => (-9157889458785081192, 27)
    case 19 => (-8720225134666286046, 39)
    case 20 => (-1612744301171463626, 28)
    case 21 => (3021029092058325098, 20)
    case 22 => (4679224488766679536, 28)
    case 23 => (-3841273781498745813, 20)
    case 24 => (-2358206946763686101, 28)
    case 25 => (-4522070525825979472, 20)
    case 26 => (6523987031636298989, 27)
    case 27 => (973227847154161329, 19)
    case 28 => (1244995533423855980, 13)
    case 29 => (-249470856692830036, 18)
    case 30 => (4209185567039092841, 13)
    case 31 => (6447041592208152301, 19)
    case 32 => (-3797434642040374964, 13)
    case 33 => (8476984389250486561, 18)
    case 34 => (-573958201337495965, 13)
    case 35 => (1985699082112030971, 9)
    case 36 => (4004531380238580039, 12)
    case 37 => (-1925667057416912859, 8)
    case 38 => (-8306719647944912794, 10)
    case 39 => (-2457545025797441049, 6)
    case 40 => (-8373707460958465031, 7)
    case 41 => (-8578025658503072382, 4)
    case 42 => (-486521013540076077, 2)
    case 43 => (-3187597375937010520, 1)
    case 44 => (0, 0)
    case 45 => (0, 0)
    case 46 => (0, 0)
    case 47 => (4611686018427387904, 0)
    case 48 => (5449091666327633920, 0)
    case 49 => (-1981020733047832576, 0)
    case 50 => (8260886245095692416, 0)
    case 51 => (132682750386005392, 1)
    case 52 => (5523571108200991708, 2)
    case 53 => (4261994450943298506, 3)
    case 54 => (8729779031470891256, 3)
    case 55 => (4298070930406474641, 5)
    case 56 => (6430056314514152532, 4)
    case 57 => (-1725319251657714542, 7)
    case 58 => (-2036086408133152613, 6)
    case 59 => (-4582539761593113451, 10)
    case 60 => (3006924907348169207, 9)
    case 61 => (831516194300602798, 8)
    case 62 => (8039631859474607296, 13)
    case 63 => (-2480258038432112258, 10)
    case 64 => (8055355950647669682, 16)
    case 65 => (4898431519131537550, 13)
    case 66 => (-8454007886460797639, 20)
    case 67 => (869737256868047654, 16)
    case 68 => (4908902581746015996, 13)
    case 69 => (3597254110643241449, 20)
    case 70 => (-4363290727450709951, 16)
    case 71 => (3333981370896602640, 25)
    case 72 => (9158133232781315331, 19)
    case 73 => (1628122660560806817, 30)
    case 74 => (-7102991539009341467, 23)
    case 75 => (1932195658189984900, 18)
    case 76 => (3254824252494523765, 28)
    case 77 => (-3855940325606653158, 22)
    case 78 => (920161932633717442, 34)
    case 79 => (6080780864604458294, 26)
    case 80 => (8755227902219092392, 20)
    case 81 => (-2285846861678029134, 31)
    case 82 => (6273243709394548283, 24)
    case 83 => (6892203506629956055, 37)
    case 84 => (7784369436827535041, 29)
    case 85 => (-2009630378153219977, 44)
    case _ => (-1472767802899791710, 33)
  }

  function Low(i: nat): int {
    Cached(i).0 * 0x1_0000_0000_0000_0000 + Tail(i).0
  }

  function High(i: nat): int {
    Low(i) + Tail(i).1
  }

  /** The bounds are 128-bit numbers that differ from the entry by at most half a unit of it. */
  predicate Close(i: nat) {
    && 0x8000_0000_0000_0000 <= Cached(i).0 && -1311 <= Cached(i).1
    && -0x8000_0000_0000_0000 <= Tail(i).0 && Tail(i).0 + Tail(i).1 <= 0x8000_0000_0000_0000
  }

  ghost predicate Bounded(i: nat) {
    Close(i) && Between(8 * i - 348, Low(i), High(i), Cached(i).1 + 1311)
  }

  /** Eight powers of ten are 26 or 27 binary places. */
  predicate Linked(i: nat) {
    var j := i + 1;
    || (Cached(j).1 == Cached(i).1 + 26 && Low(j) * 0x400_0000 <= 100000000 * Low(i)
        && 100000000 * High(i) <= High(j) * 0x400_0000)
    || (Cached(j).1 == Cached(i).1 + 27 && Low(j) * 0x800_0000 <= 100000000 * Low(i)
        && 100000000 * High(i) <= High(j) * 0x800_0000)
  }

  predicate LinkedDown(i: nat) {
    var j := i + 1;
    || (Cached(j).1 == Cached(i).1 + 26 && 100000000 * Low(i) <= Low(j) * 0x400_0000
        && High(j) * 0x400_0000 <= 100000000 * High(i))
    || (Cached(j).1 == Cached(i).1 + 27 && 100000000 * Low(i) <= Low(j) * 0x800_0000
        && High(j) * 0x800_0000 <= 100000000 * High(i))
  }

  lemma EightPowers()
    ensures Two(26) == 0x400_0000 && Two(27) == 0x800_0000 && Pow10(8) == 100000000
  {
    hide Two, Pow10;
    SmallNumerals();
    TenNumerals();
    TwoAdd(16, 8);
    TwoAdd(24, 2);
    TwoSucc(26);
  }

  lemma Up(i: nat)
    requires Bounded(i) && Close(i + 1) && Linked(i)
    ensures Bounded(i + 1)
  {
    hide Two, Pow10, Between, Cached, Tail;
    EightPowers();
    HigherPower(8 * i - 348, Low(i), High(i), Cached(i).1 + 1311, 8);
    Coarsen(8 * i - 340, 100000000 * Low(i), 100000000 * High(i), Cached(i).1 + 1311,
            Low(i + 1), High(i + 1), Cached(i + 1).1 + 1311);
  }

  lemma Down(i: nat)
    requires Bounded(i + 1) && Close(i) && LinkedDown(i)
    ensures Bounded(i)
  {
    hide Two, Pow10, Between, Cached, Tail;
    EightPowers();
    Resize(8 * i - 340, Low(i + 1), High(i + 1), Cached(i + 1).1 + 1311,
           100000000 * Low(i), 100000000 * High(i), Cached(i).1 + 1311);
    LowerPower(8 * i - 340, Low(i), High(i), Cached(i).1 + 1311, 8);
  }

  /** 10^4 is exact. */
  lemma Exact44()
    ensures Bounded(44)
  {
    hide Two, Pow10, Between;
    Start();
    TenNumerals();
    var one := 0x8000_0000_0000_0000_0000_0000_0000_0000;
    HigherPower(0, one, one, 1248, 4);
    SmallNumerals();
    TwoAdd(8, 4);
    TwoSucc(12);
    Coarsen(4, 10000 * one, 10000 * one, 1248, Low(44), High(44), 1261);
  }

  /** Half a unit of the entry is 2^63 in the bounds. */
  lemma WithinHalfUnit(i: nat)
    requires Bounded(i)
    ensures HalfUnitPower(Cached(i).0, Cached(i).1, 8 * i - 348)
  {
    hide Between, Cached, Tail, HalfUnitPower;
    HalfUnitOf(Cached(i).0, Cached(i).1, 8 * i - 348, Low(i), High(i));
  }

  lemma HalfUnitOf(c: uint64, ce: int, mk: int, lo: nat, hi: nat)
    requires 0x8000_0000_0000_0000 <= c && -1311 <= ce && Between(mk, lo, hi, ce + 1311)
    requires (2 * c - 1) * UINT64_MSB <= lo && hi <= (2 * c + 1) * UINT64_MSB
    ensures HalfUnitPower(c, ce, mk)
  {
    hide Two, TwoUp, TwoDown, TenUp, TenDown;
    var s, up, down, u, v := Two(ce + 1311), TenUp(mk), TenDown(mk), TwoUp(ce), TwoDown(ce);
    TwoBalance(ce, s);
    OneSide(2 * c - 1, lo, s, Two(FINE), up, down, u, v);
    OneSide(2 * c + 1, hi, s, Two(FINE), up, down, u, v);
    MulDistribute(2 * c, 1, down * u);
    MulAssociate(2, c, down * u);
  }

  lemma TwoBalance(ce: int, s: nat)
    requires -1311 <= ce && s == Two(ce + 1311)
    ensures (s * TWO64) * TwoDown(ce) == TwoUp(ce) * Two(FINE)
  {
    hide Two;
    TwoNone();
    SixtyThree();
    TwoAdd(ce + 1311, 64);
    if ce < 0 { TwoAdd(ce + FINE, -ce); } else { TwoAdd(ce, FINE); }
  }

  /** An order of x = m / 2 units and 10^mk, with the powers of two cancelled. */
  lemma OneSide(m: nat, x: nat, s: nat, fine: nat, up: nat, down: nat, u: nat, v: nat)
    requires s > 0 && fine > 0 && up > 0 && down > 0 && u > 0 && v > 0 && (s * TWO64) * v == u * fine
    ensures m * UINT64_MSB <= x && (x * s) * down <= up * fine ==> m * (down * u) <= 2 * (up * v)
    ensures x <= m * UINT64_MSB && up * fine <= (x * s) * down ==> 2 * (up * v) <= m * (down * u)
  {
    // both sides times fine: m * (down * u) * fine == (2 * (m * 2^63) * s * down) * v
    var y := m * UINT64_MSB;
    calc {
      (m * (down * u)) * fine;
      { MulAssociate(m, down * u, fine); MulAssociate(down, u, fine); }
      m * (down * (u * fine));
      m * (down * ((s * TWO64) * v));
      { MulAssociate(down, s * TWO64, v); MulAssociate(m, down * (s * TWO64), v); }
      (m * (down * (s * TWO64))) * v;
      { Reordered(m, down, s); }
      (2 * ((y * s) * down)) * v;
    }
    MulAssociate(2, up, v);
    Regroup3(2 * up, v, fine);
    MulAssociate(2, up, fine);
    MulLess(m * (down * u), 2 * (up * v), fine);
    MulLess(2 * (up * v), m * (down * u), fine);
    MulLess(y, x, s);
    MulLess(x, y, s);
    MulLess(y * s, x * s, down);
    MulLess(x * s, y * s, down);
    MulLess(2 * ((y * s) * down), 2 * (up * fine), v);
    MulLess(2 * (up * fine), 2 * ((y * s) * down), v);
  }

  lemma Reordered(m: nat, down: nat, s: nat)
    ensures m * (down * (s * TWO64)) == 2 * (((m * UINT64_MSB) * s) * down)
  {
    Regroup3(m, UINT64_MSB, s);
    MulAssociate(m * s, UINT64_MSB, down);
    MulAssociate(m, s, UINT64_MSB * down);
    MulAssociate(down, s, TWO64);
    MulAssociate(s, UINT64_MSB, down);
    Regroup3(s, UINT64_MSB, down);
    assert down * (s * TWO64) == 2 * (s * (UINT64_MSB * down));
    MulAssociate(2, m, s * (UINT64_MSB * down));
    MulAssociate(m, 2, s * (UINT64_MSB * down));
  }

  lemma Close0()
    ensures forall i :: 0 <= i < 11 ==> Close(i)
  {}

  lemma Close11()
    ensures forall i :: 11 <= i < 22 ==> Close(i)
  {}

  lemma Close22()
    ensures forall i :: 22 <= i < 33 ==> Close(i)
  {}

  lemma Close33()
    ensures forall i :: 33 <= i < 44 ==> Close(i)
  {}

  lemma Close44()
    ensures forall i :: 44 <= i < 55 ==> Close(i)
  {}

  lemma Close55()
    ensures forall i :: 55 <= i < 66 ==> Close(i)
  {}

  lemma Close66()
    ensures forall i :: 66 <= i < 77 ==> Close(i)
  {}

  lemma Close77()
    ensures forall i :: 77 <= i < 87 ==> Close(i)
  {}

  lemma LinkedDown0()
    ensures forall i :: 0 <= i < 11 ==> LinkedDown(i)
  {}

  lemma LinkedDown11()
    ensures forall i :: 11 <= i < 22 ==> LinkedDown(i)
  {}

  lemma LinkedDown22()
    ensures forall i :: 22 <= i < 33 ==> LinkedDown(i)
  {}

  lemma LinkedDown33()
    ensures forall i :: 33 <= i < 44 ==> LinkedDown(i)
  {}

  lemma Linked44()
    ensures forall i :: 44 <= i < 55 ==> Linked(i)
  {}

  lemma Linked55()
    ensures forall i :: 55 <= i < 66 ==> Linked(i)
  {}

  lemma Linked66()
    ensures forall i :: 66 <= i < 77 ==> Linked(i)
  {}

  lemma Linked77()
    ensures forall i :: 77 <= i < 86 ==> Linked(i)
  {}

  lemma AllClose(i: nat)
    requires i < LENGTH
    ensures Close(i)
  {
    hide Close;
    Close0();
    Close11();
    Close22();
    Close33();
    Close44();
    Close55();
    Close66();
    Close77();
  }

  lemma AllLinked(i: nat)
    requires i < LENGTH - 1
    ensures if i < 44 then LinkedDown(i) else Linked(i)
  {
    hide Linked, LinkedDown;
    LinkedDown0();
    LinkedDown11();
    LinkedDown22();
    LinkedDown33();
    Linked44();
    Linked55();
    Linked66();
    Linked77();
  }

  lemma {:induction false} AllBounded(i: nat)
    requires i < LENGTH
    ensures Bounded(i)
    decreases if i <= 44 then 44 - i else i - 44
  {
    hide Bounded, Close, Linked, LinkedDown;
    AllClose(i);
    if i == 44 {
      Exact44();
    } else if i < 44 {
      AllBounded(i + 1);
      AllLinked(i);
      Down(i);
    } else {
      AllBounded(i - 1);
      AllLinked(i - 1);
      Up(i - 1);
    }
  }

  // ----- finding an entry -----

  function Ceiling(x: real): int {
    -(-x).Floor
  }

  /** The entry for binary exponents from min_exponent on.  The error is that of the floating-point
      product. */
  function IndexFor(min_exponent: int, error: real): int {
    var k := Ceiling((min_exponent + 63) as real * 0.30102999566398114 + error);
    (348 + k - 1) / 8 + 1
  }

  /** The power whose binary exponent lies in a window of 29. */
  function CachedPowerForBinaryExponentRange(min_exponent: int, error: real): (uint64, int, int) {
    var index := IndexFor(min_exponent, error);
    var i: nat := if 0 <= index then index else 0;
    (Cached(i).0, Cached(i).1, 8 * i - 348)
  }

  /** The window is right for the entry, with more than enough room for the error. */
  predicate Fits(i: nat) {
    && (8 * i - 348) * 100000000000000000 + 100000000 < (Cached(i).1 + 64) * 30102999566398114
    && (Cached(i).1 + 34) * 30102999566398114 + 100000000 <= (8 * i - 356) * 100000000000000000
  }

  lemma Fits0()
    ensures forall i :: 0 <= i < 22 ==> Fits(i)
  {}

  lemma Fits22()
    ensures forall i :: 22 <= i < 44 ==> Fits(i)
  {}

  lemma Fits44()
    ensures forall i :: 44 <= i < 66 ==> Fits(i)
  {}

  lemma Fits66()
    ensures forall i :: 66 <= i < 87 ==> Fits(i)
  {}

  lemma AllFit(i: nat)
    requires i < LENGTH
    ensures Fits(i)
  {
    hide Fits;
    Fits0();
    Fits22();
    Fits44();
    Fits66();
  }

  /** Errors of floating-point operations on numbers of this size are far smaller. */
  predicate Small(error: real) {
    -0.000000001 <= error <= 0.000000001
  }

  lemma WindowHolds(min_exponent: int, error: real)
    requires -1084 <= min_exponent <= 1013 && Small(error)
    ensures 0 <= IndexFor(min_exponent, error) < LENGTH
    ensures min_exponent <= Cached(IndexFor(min_exponent, error)).1 <= min_exponent + 28
  {
    hide Cached;
    var x := (min_exponent + 63) as real * 0.30102999566398114 + error;
    var k, i := Ceiling(x), IndexFor(min_exponent, error);
    assert k as real - 1.0 < x <= k as real;
    assert -308 < k < 325;
    assert 8 * i - 355 <= k <= 8 * i - 348;
    AllFit(i);
    var ce := Cached(i).1;
    BetweenPlaces(min_exponent + 63, error, ce, k, 8 * i - 348);
  }

  lemma BetweenPlaces(n: int, error: real, ce: int, k: int, mk: int)
    requires Small(error) && mk - 7 <= k <= mk && k as real - 1.0 < n as real * 0.30102999566398114 + error <= k as real
    requires mk * 100000000000000000 + 100000000 < (ce + 64) * 30102999566398114
    requires (ce + 34) * 30102999566398114 + 100000000 <= (mk - 8) * 100000000000000000
    ensures n - 63 <= ce <= n - 63 + 28
  {
  }

  /** The table of the program does what the conversions ask for, whatever the errors of the
      floating-point products are. */
  lemma TableServes(errors: int -> real)
    requires forall m: int :: Small(errors(m))
    ensures CacheOk((low: int, high: int) => CachedPowerForBinaryExponentRange(low, errors(low))) && PowersOk(Cached)
  {
    hide Cached, HalfUnitPower, IndexFor, Bounded;
    var cached := (low: int, high: int) => CachedPowerForBinaryExponentRange(low, errors(low));
    forall low: int, high: int | -1084 <= low <= 1013 && high == low + 28
      ensures
        var power := cached(low, high);
        low <= power.1 <= high && HalfUnitPower(power.0, power.1, power.2)
    {
      WindowHolds(low, errors(low));
      AllBounded(IndexFor(low, errors(low)));
      WithinHalfUnit(IndexFor(low, errors(low)));
    }
    forall i: nat | i < LENGTH ensures HalfUnitPower(Cached(i).0, Cached(i).1, -348 + 8 * i) {
      AllBounded(i);
      WithinHalfUnit(i);
    }
    FirstEntry();
  }

  lemma FirstEntry()
    ensures Cached(0) == (0xfa8fd5a0081c0288, -1220)
  {}
}
