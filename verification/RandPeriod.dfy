/**
 The period of the generator. The order of 48271 modulo 2^31 - 1 is the full 2^31 - 2, which is
 2 * 3^2 * 7 * 11 * 31 * 151 * 331: the power with that exponent is 1, and no power whose exponent is smaller by one of
 these prime factors is.
 */
module RandPeriod {
  import Rand

  const PERIOD: nat := 2147483646

  /** The n-th power of the multiplier, reduced. */
  function Residue(n: nat): int { Rand.Power(n) % Rand.M }

  // ---- Powers modulo M ----

  lemma {:induction false} PowerSum(m: nat, n: nat)
    ensures Rand.Power(m + n) == Rand.Power(m) * Rand.Power(n)
  {
    if m > 0 {
      PowerSum(m - 1, n);
      Rand.Associate(Rand.Power(m - 1), Rand.Power(n));
    }
  }

  lemma ResidueSum(m: nat, n: nat)
    ensures Residue(m + n) == (Residue(m) * Residue(n)) % Rand.M
  {
    var a, b := Rand.Power(m), Rand.Power(n);
    PowerSum(m, n);
    Rand.ModMul(a, b);
    Rand.ModMul(b % Rand.M, a);
    assert a * (b % Rand.M) == (b % Rand.M) * a;
    assert Residue(m) * Residue(n) == (b % Rand.M) * (a % Rand.M);
  }

  /** One link of a chain of powers. */
  lemma Sum(m: nat, n: nat, a: int, b: int, c: int)
    requires Residue(m) == a && Residue(n) == b && (a * b) % 0x7FFF_FFFF == c
    ensures Residue(m + n) == c
  {
    hide Residue;
    ResidueSum(m, n);
  }

  /** After n calls the state is the residue times the seed. */
  lemma AfterIsResidue(s: Rand.Word, n: nat)
    requires 1 <= s < Rand.M
    ensures Rand.After(s, n) == (Residue(n) * s) % Rand.M
  {
    if n == 0 {
      assert Rand.Power(0) == 1;
    } else {
      Rand.AfterIsPower(s, n);
      var p := Rand.Power(n);
      assert p * s == s * p && s * (p % Rand.M) == (p % Rand.M) * s;
      Rand.ModMul(s, p);
    }
  }

  // ---- Exponents whose power is 1 ----

  lemma {:induction false} Multiples(n: nat, k: nat)
    requires Residue(n) == 1
    ensures Residue(k * n) == 1
  {
    if k == 0 {
      assert Rand.Power(0) == 1;
    } else {
      hide Residue;
      Multiples(n, k - 1);
      assert k * n == (k - 1) * n + n;
      ResidueSum((k - 1) * n, n);
    }
  }

  /** They are closed under remainders. */
  lemma Cancel(a: nat, b: nat)
    requires Residue(b) == 1 && Residue(b + a) == 1
    ensures Residue(a) == 1
  {
    ResidueSum(b, a);
  }

  function Gcd(a: nat, b: nat): (g: nat)
    decreases b
  {
    if b == 0 then a else Gcd(b, a % b)
  }

  ghost predicate Divides(d: int, n: int) { exists k :: n == d * k }

  lemma DividesCombination(d: int, x: int, y: int, k: int)
    requires Divides(d, x) && Divides(d, y)
    ensures Divides(d, x * k + y)
  {
    var i, j := Cofactor(d, x), Cofactor(d, y);
    assert x * k + y == d * (i * k + j) by { assert (d * i) * k == d * (i * k); }
  }

  ghost function Cofactor(d: int, n: int): (k: int)
    requires Divides(d, n)
    ensures n == d * k
  {
    var k :| n == d * k; k
  }

  lemma {:induction false} GcdDivides(a: nat, b: nat)
    ensures Divides(Gcd(a, b), a) && Divides(Gcd(a, b), b)
    decreases b
  {
    if b == 0 {
      assert a == a * 1 && 0 == a * 0;
    } else {
      GcdDivides(b, a % b);
      DividesCombination(Gcd(a, b), b, a % b, a / b);
      assert a == b * (a / b) + a % b;
    }
  }

  /** Two exponents that are multiples of q: the power with their common part is 1 as well. */
  lemma {:induction false} GcdOfExponents(a: nat, b: nat, q: nat)
    requires Residue(a * q) == 1 && Residue(b * q) == 1
    ensures Residue(Gcd(a, b) * q) == 1
    decreases b
  {
    if b > 0 {
      hide Residue;
      Multiples(b * q, a / b);
      SplitMultiple(a, b, q);
      Cancel((a % b) * q, (a / b) * (b * q));
      GcdOfExponents(b, a % b, q);
    }
  }

  lemma SplitMultiple(a: nat, b: nat, q: nat)
    requires b > 0
    ensures a * q == (a / b) * (b * q) + (a % b) * q
  {
    var k, r := a / b, a % b;
    assert a == k * b + r;
    assert (k * b + r) * q == (k * b) * q + r * q;
    assert (k * b) * q == k * (b * q);
  }

  // ---- The prime factors ----

  ghost predicate Prime(p: nat) { p > 1 && forall d: nat :: Divides(d, p) ==> d == 1 || d == p }

  lemma SmallPrime(p: nat)
    requires 1 < p < 361
    requires forall d :: 2 <= d < 19 && d < p ==> p % d != 0
    ensures Prime(p)
  {
    forall d: nat | Divides(d, p) ensures d == 1 || d == p {
      var k := Cofactor(d, p);
      if d != 1 && d != p {
        Factors(p, d, k);
        if d < 19 {
          Rest(p, d, k);
        } else {
          Rest(p, k, d);
        }
        assert false;
      }
    }
  }

  lemma Factors(p: nat, d: nat, k: int)
    requires 1 < p < 361 && p == d * k && d != 1 && d != p
    ensures 2 <= d < p && 2 <= k < p && (d < 19 || k < 19)
  {
    Products(d, k);
  }

  lemma Products(d: nat, k: int)
    ensures d == 0 || k <= 0 ==> d * k <= 0
    ensures k == 1 ==> d * k == d
    ensures d >= 1 && k >= 2 ==> d * k >= 2 * d && d * k >= d + 1
    ensures d >= 2 && k >= 1 ==> d * k >= 2 * k && d * k >= k + 1
    ensures d >= 19 && k >= 19 ==> d * k >= 361
  {
    if d >= 19 && k >= 19 {
      assert d * k >= 19 * k;
    }
  }

  lemma Rest(p: nat, d: nat, k: int)
    requires d > 0 && p == d * k
    ensures p % d == 0
  {
    var q, r := p / d, p % d;
    assert d * (k - q) == r;
    Apart(d, k - q);
  }

  lemma Apart(d: nat, x: int)
    ensures x >= 1 ==> d * x >= d
    ensures x <= -1 ==> d * x + d <= 0
  {}

  /** What is missing by a prime factor: if the power with exponent q is not 1 but that with p * q is, then every r for
      which the power with r * q is 1 is a multiple of p. */
  lemma PrimeDivides(p: nat, q: nat, r: nat)
    requires Residue(p * q) == 1 && Residue(q) != 1 && Residue(r * q) == 1
    requires Prime(p)
    ensures Divides(p, r)
  {
    hide Residue;
    GcdOfExponents(p, r, q);
    GcdDivides(p, r);
    var g := Gcd(p, r);
    assert g == 1 ==> g * q == q;
  }

  /** An exponent whose power is 1 is a multiple of each such p. */
  lemma PrimeFactor(p: nat, q: nat, n: nat)
    requires Residue(p * q) == 1 && Residue(q) != 1 && Residue(n) == 1
    requires Prime(p)
    ensures Divides(p, n)
  {
    hide Residue;
    Multiples(n, q);
    assert n * q == q * n;
    PrimeDivides(p, q, n);
  }

  /** ... and of its square, if q is a multiple of p once more. */
  lemma PrimeSquare(p: nat, m: nat, n: nat)
    requires Residue(p * (p * m)) == 1 && Residue(p * m) != 1 && Residue(n) == 1
    requires Prime(p)
    ensures Divides(p * p, n)
  {
    hide Residue;
    PrimeFactor(p, p * m, n);
    var r := Cofactor(p, n);
    NonNegative(p, r);
    Multiples(n, m);
    assert m * n == r * (p * m) by { Regroup(m, p, r); }
    PrimeDivides(p, p * m, r);
    var k := Cofactor(p, r);
    assert n == (p * p) * k by { Nested(p, k); }
  }

  lemma NonNegative(p: nat, r: int)
    requires p > 0 && p * r >= 0
    ensures r >= 0
  {}

  lemma Regroup(m: int, p: int, r: int)
    ensures m * (p * r) == r * (p * m)
  {}

  lemma Nested(p: int, k: int)
    ensures p * (p * k) == (p * p) * k
  {}

  /** Two coprime factors, their Bezout numbers given, divide together. */
  lemma Together(a: int, b: int, u: int, v: int, n: int)
    requires Divides(a, n) && Divides(b, n) && u * a - v * b == 1
    ensures Divides(a * b, n)
  {
    var i, j := Cofactor(a, n), Cofactor(b, n);
    calc {
      n;
      (u * a - v * b) * n;
      (u * a) * n - (v * b) * n;
      (u * a) * (b * j) - (v * b) * (a * i);
      { Regrouped(a, b, u, v, i, j); }
      (a * b) * (u * j - v * i);
    }
  }

  lemma Regrouped(a: int, b: int, u: int, v: int, i: int, j: int)
    ensures (u * a) * (b * j) - (v * b) * (a * i) == (a * b) * (u * j - v * i)
  {
    assert (u * a) * (b * j) == (a * b) * (u * j);
    assert (v * b) * (a * i) == (a * b) * (v * i);
    assert (a * b) * (u * j - v * i) == (a * b) * (u * j) - (a * b) * (v * i);
  }

  // ---- The chain of powers: each line is one product, and each lemma goes on from powers found before ----

  lemma ToFactorA()
    requires Residue(1) == 48271
    ensures Residue(1386) == 739992498
    ensures Residue(6) == 407355683
    ensures Residue(168) == 109656047
    ensures Residue(21) == 638022372
  {
    hide Residue;
    Sum(1, 1, 48271, 48271, 182605794);
    Sum(2, 1, 182605794, 48271, 1291394886);
    Sum(3, 3, 1291394886, 1291394886, 407355683);
    Sum(6, 3, 407355683, 1291394886, 564586691);
    Sum(9, 9, 564586691, 564586691, 2136927794);
    Sum(18, 3, 2136927794, 1291394886, 638022372);
    Sum(21, 21, 638022372, 638022372, 928270262);
    Sum(42, 42, 928270262, 928270262, 1869683330);
    Sum(84, 84, 1869683330, 1869683330, 109656047);
    Sum(168, 168, 109656047, 109656047, 509346169);
    Sum(336, 336, 509346169, 509346169, 1915588099);
    Sum(672, 21, 1915588099, 638022372, 1875966926);
    Sum(693, 693, 1875966926, 1875966926, 739992498);
  }

  lemma ToA31()
    requires Residue(1386) == 739992498
    ensures Residue(42966) == 1377541393
    ensures Residue(8316) == 1879603376
    ensures Residue(4158) == 1049322006
  {
    hide Residue;
    Sum(1386, 1386, 739992498, 739992498, 1838285354);
    Sum(2772, 1386, 1838285354, 739992498, 1049322006);
    Sum(4158, 4158, 1049322006, 1049322006, 1879603376);
    Sum(8316, 8316, 1879603376, 1879603376, 636767428);
    Sum(16632, 4158, 636767428, 1049322006, 22628968);
    Sum(20790, 20790, 22628968, 22628968, 569634227);
    Sum(41580, 1386, 569634227, 739992498, 1377541393);
  }

  lemma To331()
    requires Residue(42966) == 1377541393
    ensures Residue(6487866) == 1627574666
    ensures Residue(85932) == 446644820
  {
    hide Residue;
    Sum(42966, 42966, 1377541393, 1377541393, 446644820);
    Sum(85932, 42966, 446644820, 1377541393, 1748021332);
    Sum(128898, 128898, 1748021332, 1748021332, 767741086);
    Sum(257796, 128898, 767741086, 1748021332, 595030575);
    Sum(386694, 386694, 595030575, 595030575, 1047766665);
    Sum(773388, 773388, 1047766665, 1047766665, 98854692);
    Sum(1546776, 1546776, 98854692, 98854692, 1240689838);
    Sum(3093552, 128898, 1240689838, 1748021332, 1802056333);
    Sum(3222450, 3222450, 1802056333, 1802056333, 969382050);
    Sum(6444900, 42966, 969382050, 1377541393, 1627574666);
  }

  lemma To151()
    requires Residue(85932) == 446644820
    requires Residue(42966) == 1377541393
    ensures Residue(14221746) == 556613938
  {
    hide Residue;
    Sum(85932, 85932, 446644820, 446644820, 185656489);
    Sum(171864, 42966, 185656489, 1377541393, 1598491097);
    Sum(214830, 214830, 1598491097, 1598491097, 1269470204);
    Sum(429660, 429660, 1269470204, 1269470204, 888547533);
    Sum(859320, 859320, 888547533, 888547533, 1315344052);
    Sum(1718640, 1718640, 1315344052, 1315344052, 1728151207);
    Sum(3437280, 3437280, 1728151207, 1728151207, 1893415114);
    Sum(6874560, 214830, 1893415114, 1598491097, 1759089576);
    Sum(7089390, 7089390, 1759089576, 1759089576, 2111660040);
    Sum(14178780, 42966, 2111660040, 1377541393, 556613938);
  }

  lemma ToA151()
    requires Residue(8316) == 1879603376
    requires Residue(4158) == 1049322006
    requires Residue(1386) == 739992498
    ensures Residue(209286) == 1430150248
  {
    hide Residue;
    Sum(8316, 4158, 1879603376, 1049322006, 1027332258);
    Sum(12474, 12474, 1027332258, 1027332258, 1665723641);
    Sum(24948, 24948, 1665723641, 1665723641, 175047247);
    Sum(49896, 49896, 175047247, 175047247, 761335043);
    Sum(99792, 4158, 761335043, 1049322006, 1847570617);
    Sum(103950, 103950, 1847570617, 1847570617, 562783560);
    Sum(207900, 1386, 562783560, 739992498, 1430150248);
  }

  lemma To31()
    requires Residue(209286) == 1430150248
    ensures Residue(69273666) == 64
  {
    hide Residue;
    Sum(209286, 209286, 1430150248, 1430150248, 746576732);
    Sum(418572, 418572, 746576732, 746576732, 280424342);
    Sum(837144, 209286, 280424342, 1430150248, 1742789814);
    Sum(1046430, 1046430, 1742789814, 1742789814, 1159118751);
    Sum(2092860, 2092860, 1159118751, 1159118751, 1510813539);
    Sum(4185720, 4185720, 1510813539, 1510813539, 875433032);
    Sum(8371440, 8371440, 875433032, 875433032, 1069305547);
    Sum(16742880, 16742880, 1069305547, 1069305547, 1545914256);
    Sum(33485760, 1046430, 1545914256, 1742789814, 1986861109);
    Sum(34532190, 34532190, 1986861109, 1986861109, 1761442966);
    Sum(69064380, 209286, 1761442966, 1430150248, 64);
  }

  lemma ToFactorR()
    requires Residue(6) == 407355683
    requires Residue(1) == 48271
    requires Residue(168) == 109656047
    requires Residue(21) == 638022372
    ensures Residue(1549411) == 73136486
  {
    hide Residue;
    Sum(6, 1, 407355683, 48271, 1105902161);
    Sum(7, 7, 1105902161, 1105902161, 1738531149);
    Sum(168, 21, 109656047, 638022372, 1889033429);
    Sum(189, 189, 1889033429, 1889033429, 564470027);
    Sum(378, 378, 564470027, 564470027, 2068435081);
    Sum(756, 756, 2068435081, 2068435081, 885059754);
    Sum(1512, 1512, 885059754, 885059754, 117249858);
    Sum(3024, 3024, 117249858, 117249858, 317889440);
    Sum(6048, 6048, 317889440, 317889440, 468265882);
    Sum(12096, 7, 468265882, 1105902161, 1100498626);
    Sum(12103, 12103, 1100498626, 1100498626, 1066141705);
    Sum(24206, 24206, 1066141705, 1066141705, 1470431595);
    Sum(48412, 7, 1470431595, 1105902161, 1110291661);
    Sum(48419, 48419, 1110291661, 1110291661, 1710890734);
    Sum(96838, 96838, 1710890734, 1710890734, 164841173);
    Sum(193676, 193676, 164841173, 164841173, 1366835178);
    Sum(387352, 387352, 1366835178, 1366835178, 1127195584);
    Sum(774704, 1, 1127195584, 48271, 64871225);
    Sum(774705, 774705, 64871225, 64871225, 306346368);
    Sum(1549410, 1, 306346368, 48271, 73136486);
  }

  lemma To11()
    requires Residue(1549411) == 73136486
    ensures Residue(195225786) == 219454379
    ensures Residue(18592932) == 1381708862
    ensures Residue(4648233) == 602171098
    ensures Residue(9296466) == 62058866
  {
    hide Residue;
    Sum(1549411, 1549411, 73136486, 73136486, 1906415184);
    Sum(3098822, 1549411, 1906415184, 73136486, 602171098);
    Sum(4648233, 4648233, 602171098, 602171098, 62058866);
    Sum(9296466, 9296466, 62058866, 62058866, 1381708862);
    Sum(18592932, 4648233, 1381708862, 602171098, 281744823);
    Sum(23241165, 23241165, 281744823, 281744823, 1413845109);
    Sum(46482330, 46482330, 1413845109, 1413845109, 806439137);
    Sum(92964660, 4648233, 806439137, 602171098, 178271473);
    Sum(97612893, 97612893, 178271473, 178271473, 219454379);
  }

  lemma To7()
    requires Residue(18592932) == 1381708862
    requires Residue(4648233) == 602171098
    ensures Residue(306783378) == 1752599774
  {
    hide Residue;
    Sum(18592932, 18592932, 1381708862, 1381708862, 465197808);
    Sum(37185864, 37185864, 465197808, 465197808, 1796165293);
    Sum(74371728, 74371728, 1796165293, 1796165293, 1207925319);
    Sum(148743456, 4648233, 1207925319, 602171098, 1253228241);
    Sum(153391689, 153391689, 1253228241, 1253228241, 1752599774);
  }

  lemma To3()
    requires Residue(9296466) == 62058866
    requires Residue(1549411) == 73136486
    ensures Residue(715827882) == 634005911
  {
    hide Residue;
    Sum(9296466, 1549411, 62058866, 73136486, 566908260);
    Sum(10845877, 10845877, 566908260, 566908260, 792142573);
    Sum(21691754, 21691754, 792142573, 792142573, 503604431);
    Sum(43383508, 43383508, 503604431, 503604431, 1496608456);
    Sum(86767016, 86767016, 1496608456, 1496608456, 2136701896);
    Sum(173534032, 173534032, 2136701896, 2136701896, 717330244);
    Sum(347068064, 10845877, 717330244, 566908260, 634005912);
    Sum(357913941, 357913941, 634005912, 634005912, 634005911);
  }

  lemma To2()
    requires Residue(9296466) == 62058866
    requires Residue(4648233) == 602171098
    ensures Residue(1073741823) == 2147483646
  {
    hide Residue;
    Sum(9296466, 4648233, 62058866, 602171098, 321294032);
    Sum(13944699, 13944699, 321294032, 321294032, 407430915);
    Sum(27889398, 4648233, 407430915, 602171098, 1755000599);
    Sum(32537631, 32537631, 1755000599, 1755000599, 335568059);
    Sum(65075262, 65075262, 335568059, 335568059, 1555500435);
    Sum(130150524, 130150524, 1555500435, 1555500435, 1409969077);
    Sum(260301048, 260301048, 1409969077, 1409969077, 379747376);
    Sum(520602096, 520602096, 379747376, 379747376, 754921971);
    Sum(1041204192, 32537631, 754921971, 1755000599, 2147483646);
  }

  /** The powers with exponents (2^31 - 2) / p, for the seven primes p. */
  lemma Certificate()
    ensures Residue(PERIOD) == 1
    ensures Residue(1073741823) == 2147483646 && Residue(715827882) == 634005911
    ensures Residue(306783378) == 1752599774 && Residue(195225786) == 219454379
    ensures Residue(69273666) == 64 && Residue(14221746) == 556613938 && Residue(6487866) == 1627574666
  {
    hide Residue;
    First();
    ToFactorA();
    ToA31();
    To331();
    To151();
    ToA151();
    To31();
    ToFactorR();
    To11();
    To7();
    To3();
    To2();
    Sum(1073741823, 1073741823, 2147483646, 2147483646, 1);
  }

  lemma First()
    ensures Residue(1) == 48271
  {
    assert Rand.Power(1) == 48271 * Rand.Power(0);
  }

  lemma Primes()
    ensures Prime(2) && Prime(3) && Prime(7) && Prime(11) && Prime(31) && Prime(151) && Prime(331)
  {
    hide Prime;
    SmallPrime(2);
    SmallPrime(3);
    SmallPrime(7);
    SmallPrime(11);
    SmallPrime(31);
    SmallPrime(151);
    SmallPrime(331);
  }

  /** The order of the multiplier: its n-th power is 1 exactly if 2^31 - 2 divides n. */
  lemma OrderIsPeriod(n: nat)
    ensures Residue(n) == 1 <==> Divides(PERIOD, n)
  {
    hide Residue, Prime, Divides;
    Certificate();
    if Residue(n) == 1 {
      Primes();
      PrimeFactor(2, 1073741823, n);
      PrimeSquare(3, 238609294, n);
      PrimeFactor(7, 306783378, n);
      PrimeFactor(11, 195225786, n);
      PrimeFactor(31, 69273666, n);
      PrimeFactor(151, 14221746, n);
      PrimeFactor(331, 6487866, n);
      AllTogether(n);
    }
    if Divides(PERIOD, n) {
      var k := Cofactor(PERIOD, n);
      Multiples(PERIOD, k);
    }
  }

  lemma AllTogether(n: int)
    requires Divides(2, n) && Divides(9, n) && Divides(7, n) && Divides(11, n)
    requires Divides(31, n) && Divides(151, n) && Divides(331, n)
    ensures Divides(PERIOD, n)
  {
    hide Divides;
    Together(2, 9, 5, 1, n);
    Together(18, 7, 2, 5, n);
    Together(126, 11, 9, 103, n);
    Together(1386, 31, 24, 1073, n);
    Together(42966, 151, 35, 9959, n);
    Together(6487866, 331, 56, 1097645, n);
  }

  // ---- The orbit ----

  /** The first n residues. */
  ghost function Orbit(n: nat): set<int> { if n == 0 then {} else Orbit(n - 1) + {Residue(n - 1)} }

  ghost function Interval(n: nat): set<int> { if n == 0 then {} else Interval(n - 1) + {n} }

  lemma {:induction false} InInterval(n: nat, x: int)
    ensures x in Interval(n) <==> 1 <= x <= n
    ensures |Interval(n)| == n
  {
    if n > 0 {
      InInterval(n - 1, x);
      InInterval(n - 1, n);
    }
  }

  lemma {:induction false} InOrbit(n: nat, x: int)
    ensures x in Orbit(n) <==> exists i: nat :: i < n && Residue(i) == x
  {
    hide Residue;
    if n > 0 {
      InOrbit(n - 1, x);
    }
  }

  /** Residues never vanish. */
  lemma {:induction false} ResidueInRange(n: nat)
    ensures 1 <= Residue(n) < Rand.M
  {
    AfterIsResidue(1, n);
    Rand.NeverStuckNeverMerging(1, 2, n);
    assert Residue(n) * 1 == Residue(n);
  }

  lemma {:induction false} AfterSum(s: Rand.Word, m: nat, n: nat)
    ensures Rand.After(s, m + n) == Rand.After(Rand.After(s, m), n)
  {
    hide Rand.Next;
    if n > 0 {
      AfterSum(s, m, n - 1);
    }
  }

  lemma AfterOne(n: nat)
    ensures Rand.After(1, n) == Residue(n) && 1 <= Residue(n) < Rand.M
  {
    hide Residue;
    AfterIsResidue(1, n);
    Rand.NeverStuckNeverMerging(1, 2, n);
    ResidueInRange(n);
  }

  /** Residues repeat only after a multiple of the period: an earlier repetition would merge two states. */
  lemma RepeatedAfterPeriod(i: nat, d: nat)
    requires Residue(i + d) == Residue(i)
    ensures Divides(PERIOD, d)
  {
    hide Residue, Divides;
    AfterOne(d);
    AfterOne(i);
    AfterOne(i + d);
    AfterSum(1, d, i);
    if Residue(d) != 1 {
      Rand.NeverStuckNeverMerging(1, Residue(d), i);
    }
    OrderIsPeriod(d);
  }

  lemma {:induction false} OrbitSize(n: nat)
    requires n <= PERIOD
    ensures |Orbit(n)| == n
  {
    hide Residue, Divides;
    if n > 0 {
      OrbitSize(n - 1);
      InOrbit(n - 1, Residue(n - 1));
      if Residue(n - 1) in Orbit(n - 1) {
        var i: nat :| i < n - 1 && Residue(i) == Residue(n - 1);
        RepeatedAfterPeriod(i, n - 1 - i);
        TooSmall(PERIOD, n - 1 - i);
      }
    }
  }

  lemma TooSmall(d: nat, n: nat)
    requires 0 < n < d
    ensures !Divides(d, n)
  {
    ModZero(d, n);
    assert n % d == n;
  }

  /** The residues up to the period are all of 1 to 2^31 - 2. */
  lemma OrbitIsAll(n: nat, x: int)
    requires n == PERIOD && 1 <= x <= n
    ensures exists i: nat :: i < n && Residue(i) == x
  {
    hide Residue, Divides, Orbit, Interval;
    OrbitSize(n);
    InInterval(n, x);
    forall y | y in Orbit(n) ensures y in Interval(n) {
      InOrbit(n, y);
      var i: nat :| i < n && Residue(i) == y;
      ResidueInRange(i);
      InInterval(n, y);
    }
    SameSize(Orbit(n), Interval(n));
    InOrbit(n, x);
  }

  lemma SameSize(s: set<int>, t: set<int>)
    requires s <= t && |s| == |t|
    ensures s == t
  {
    assert |t - s| == |t| - |s|;
  }

  // ---- The period ----

  /** Every state in range is reached from every other, within 2^31 - 2 calls. */
  lemma EveryStateReached(s: Rand.Word, t: Rand.Word)
    requires 1 <= s < Rand.M && 1 <= t < Rand.M
    ensures exists n: nat :: n < PERIOD && Rand.After(s, n) == t
  {
    hide Residue, Divides;
    OrbitIsAll(PERIOD, s);
    OrbitIsAll(PERIOD, t);
    var i: nat :| i < PERIOD && Residue(i) == s;
    var j: nat :| j < PERIOD && Residue(j) == t;
    var n := if i <= j then j - i else j + PERIOD - i;
    AfterOne(i);
    AfterOne(i + n);
    AfterOne(j);
    AfterSum(1, i, n);
    Certificate();
    ResidueSum(PERIOD, j);
    assert n < PERIOD && Rand.After(s, n) == t;
  }

  /** The generator has the full period: whatever the seed in range, it comes back exactly after the multiples of
      2^31 - 2. */
  lemma FullPeriod(s: Rand.Word, n: nat)
    requires 1 <= s < Rand.M
    ensures Rand.After(s, n) == s <==> n % PERIOD == 0
  {
    hide Residue, Divides;
    OrbitIsAll(PERIOD, s);
    var i: nat :| i < PERIOD && Residue(i) == s;
    AfterOne(i);
    AfterOne(n + i);
    AfterSum(1, i, n);
    if Rand.After(s, n) == s {
      RepeatedAfterPeriod(i, n);
      ModZero(PERIOD, n);
    }
    if n % PERIOD == 0 {
      ModZero(PERIOD, n);
      OrderIsPeriod(n);
      ResidueSum(n, i);
    }
  }

  lemma ModZero(d: nat, n: nat)
    requires d > 0
    ensures n % d == 0 <==> Divides(d, n)
  {
    if Divides(d, n) {
      Rest(n, d, Cofactor(d, n));
    }
    if n % d == 0 {
      assert n == d * (n / d);
    }
  }

  /** The check value of this generator: from seed 1 the 10000th number is 399268537. */
  lemma KnownAnswer()
    ensures Rand.After(1, 10000) == 399268537
  {
    hide Residue;
    First();
    Sum(1, 1, 48271, 48271, 182605794);
    Sum(2, 2, 182605794, 182605794, 1914720637);
    Sum(4, 4, 1914720637, 1914720637, 854716505);
    Sum(8, 1, 854716505, 48271, 564586691);
    Sum(9, 9, 564586691, 564586691, 2136927794);
    Sum(18, 1, 2136927794, 48271, 1559527823);
    Sum(19, 19, 1559527823, 1559527823, 1168816941);
    Sum(38, 1, 1168816941, 48271, 1272185027);
    Sum(39, 39, 1272185027, 1272185027, 837051536);
    Sum(78, 78, 837051536, 837051536, 2071152004);
    Sum(156, 156, 2071152004, 2071152004, 1451777401);
    Sum(312, 312, 1451777401, 1451777401, 2033250834);
    Sum(624, 1, 2033250834, 48271, 605889173);
    Sum(625, 625, 605889173, 605889173, 1285444814);
    Sum(1250, 1250, 1285444814, 1285444814, 1211932242);
    Sum(2500, 2500, 1211932242, 1211932242, 1629331733);
    Sum(5000, 5000, 1629331733, 1629331733, 399268537);
    AfterOne(10000);
  }
}
