/**
 Powers of 7^5 modulo 2^31 - 1, computed by repeated squaring: what the period, the seed spacing
 and the self-test depend on.
 */
module LcgPowers {
  import opened Lcgs

  // ---------------------------------------------------------------- adding exponents

  ghost predicate Next(f: nat -> nat, e: nat)
  {
    f(e + 1) == Mul(A, f(e))
  }

  /** What the addition law rests on, for a function that the prover does not unfold. */
  ghost predicate MultipliesByA(f: nat -> nat)
  {
    f(0) == 1 && (forall e :: f(e) < P) && forall e :: Next(f, e)
  }

  lemma {:induction false} AddsUp(f: nat -> nat, m: nat, n: nat)
    requires MultipliesByA(f)
    ensures f(m + n) == Mul(f(m), f(n))
  {
    if m == 0 {
      MulOne(f(n));
    } else {
      AddsUp(f, m - 1, n);
      assert Next(f, m - 1) && Next(f, m - 1 + n);
      MulAssociates(A, f(m - 1), f(n));
    }
  }

  lemma JumpAdds(m: nat, n: nat)
    ensures Jump(m + n) == Mul(Jump(m), Jump(n))
  {
    forall e
      ensures Next(Jump, e)
    {
      JumpNext(e);
    }
    AddsUp(Jump, m, n);
  }

  /** Equal powers are a period apart. */
  lemma JumpsCancel(i: nat, d: nat)
    ensures Jump(i + d) == Jump(i) <==> Jump(d) == 1
  {
    JumpAdds(i, d);
    JumpInRange(d);
    IterateIsJump(1, i);
    IterateIsJump(Jump(d), i);
    MulCommutes(Jump(i), Jump(d));
    MulOne(Jump(i));
    if Jump(i + d) == Jump(i) {
      IterateIsInjective(1, Jump(d), i);
    }
  }

  ghost predicate Adds(f: nat -> nat, m: nat, n: nat)
  {
    f(m + n) == Mul(f(m), f(n))
  }

  /** f(e) is A^e modulo P for all e, known only by the law of powers. */
  ghost predicate Powers(f: nat -> nat)
  {
    f(1) == A && forall m, n :: Adds(f, m, n)
  }

  lemma JumpIsPowers()
    ensures Powers(Jump)
  {
    MulOne(A);
    assert Jump(1) == Mul(A, Jump(0));
    forall m, n
      ensures Adds(Jump, m, n)
    {
      JumpAdds(m, n);
    }
  }

  lemma Square(f: nat -> nat, e: nat, v: nat, w: nat)
    requires Powers(f) && f(e) == v && v * v % P == w
    ensures f(2 * e) == w
  {
    assert Adds(f, e, e);
  }

  lemma Product(f: nat -> nat, e: nat, v: nat, g: nat, w: nat, z: nat)
    requires Powers(f) && f(e) == v && f(g) == w && v * w % P == z
    ensures f(e + g) == z
  {
    assert Adds(f, e, g);
  }

  lemma Squares10(f: nat -> nat)
    requires Powers(f)
    ensures f(1) == 16807 && f(2) == 282475249 && f(4) == 984943658 && f(8) == 1457850878
    ensures f(16) == 1137522503 && f(32) == 1636807826 && f(64) == 685118024 && f(128) == 515204530
    ensures f(256) == 897054849 && f(512) == 2038299453 && f(1024) == 1836275591
  {
    Square(f, 1, 16807, 282475249);
    Square(f, 2, 282475249, 984943658);
    Square(f, 4, 984943658, 1457850878);
    Square(f, 8, 1457850878, 1137522503);
    Square(f, 16, 1137522503, 1636807826);
    Square(f, 32, 1636807826, 685118024);
    Square(f, 64, 685118024, 515204530);
    Square(f, 128, 515204530, 897054849);
    Square(f, 256, 897054849, 2038299453);
    Square(f, 512, 2038299453, 1836275591);
  }

  lemma Squares20(f: nat -> nat)
    requires Powers(f)
    ensures f(1024) == 1836275591 && f(2048) == 349037107 && f(4096) == 149796865 && f(8192) == 1186652285
    ensures f(16384) == 2106880871 && f(32768) == 877809922 && f(65536) == 1682791109 && f(131072) == 1900685356
    ensures f(262144) == 2080563572 && f(524288) == 612544882 && f(1048576) == 1295048709
  {
    Squares10(f);
    Square(f, 1024, 1836275591, 349037107);
    Square(f, 2048, 349037107, 149796865);
    Square(f, 4096, 149796865, 1186652285);
    Square(f, 8192, 1186652285, 2106880871);
    Square(f, 16384, 2106880871, 877809922);
    Square(f, 32768, 877809922, 1682791109);
    Square(f, 65536, 1682791109, 1900685356);
    Square(f, 131072, 1900685356, 2080563572);
    Square(f, 262144, 2080563572, 612544882);
    Square(f, 524288, 612544882, 1295048709);
  }

  lemma Squares30(f: nat -> nat)
    requires Powers(f)
    ensures f(1048576) == 1295048709 && f(2097152) == 1987420232 && f(4194304) == 868966365 && f(8388608) == 1331238991
    ensures f(16777216) == 1550655590 && f(33554432) == 766698560 && f(67108864) == 1154667137 && f(134217728) == 901595110
    ensures f(268435456) == 1008653149 && f(536870912) == 1821072732 && f(1073741824) == 2147466840
  {
    Squares20(f);
    Square(f, 1048576, 1295048709, 1987420232);
    Square(f, 2097152, 1987420232, 868966365);
    Square(f, 4194304, 868966365, 1331238991);
    Square(f, 8388608, 1331238991, 1550655590);
    Square(f, 16777216, 1550655590, 766698560);
    Square(f, 33554432, 766698560, 1154667137);
    Square(f, 67108864, 1154667137, 901595110);
    Square(f, 134217728, 901595110, 1008653149);
    Square(f, 268435456, 1008653149, 1821072732);
    Square(f, 536870912, 1821072732, 2147466840);
  }

  /** (2^31 - 2) / 7 */
  lemma PeriodOver7(f: nat -> nat)
    requires Powers(f)
    ensures f(306783378) == 1600955193
  {
    Squares10(f);
    Squares20(f);
    Squares30(f);
    Product(f, 2, 282475249, 16, 1137522503, 16531729);
    Product(f, 18, 16531729, 128, 515204530, 877819790);
    Product(f, 146, 877819790, 1024, 1836275591, 1973792143);
    Product(f, 1170, 1973792143, 8192, 1186652285, 1588280530);
    Product(f, 9362, 1588280530, 65536, 1682791109, 713072451);
    Product(f, 74898, 713072451, 524288, 612544882, 864669998);
    Product(f, 599186, 864669998, 4194304, 868966365, 1089368889);
    Product(f, 4793490, 1089368889, 33554432, 766698560, 1410082339);
    Product(f, 38347922, 1410082339, 268435456, 1008653149, 1600955193);
  }

  /** (2^31 - 2) / 11 */
  lemma PeriodOver11(f: nat -> nat)
    requires Powers(f)
    ensures f(195225786) == 298192073
  {
    Squares10(f);
    Squares20(f);
    Squares30(f);
    Product(f, 2, 282475249, 8, 1457850878, 2007237709);
    Product(f, 10, 2007237709, 16, 1137522503, 1131570933);
    Product(f, 26, 1131570933, 32, 1636807826, 1927702196);
    Product(f, 58, 1927702196, 128, 515204530, 462242385);
    Product(f, 186, 462242385, 2048, 349037107, 621222764);
    Product(f, 2234, 621222764, 8192, 1186652285, 1432671743);
    Product(f, 10426, 1432671743, 16384, 2106880871, 904341801);
    Product(f, 26810, 904341801, 32768, 877809922, 687791678);
    Product(f, 59578, 687791678, 131072, 1900685356, 515678993);
    Product(f, 190650, 515678993, 2097152, 1987420232, 70230534);
    Product(f, 2287802, 70230534, 8388608, 1331238991, 1922162627);
    Product(f, 10676410, 1922162627, 16777216, 1550655590, 249105855);
    Product(f, 27453626, 249105855, 33554432, 766698560, 765237990);
    Product(f, 61008058, 765237990, 134217728, 901595110, 298192073);
  }

  /** (2^31 - 2) / 31 */
  lemma PeriodOver31(f: nat -> nat)
    requires Powers(f)
    ensures f(69273666) == 16384
  {
    Squares10(f);
    Squares20(f);
    Squares30(f);
    Product(f, 2, 282475249, 64, 685118024, 1060806853);
    Product(f, 66, 1060806853, 2048, 349037107, 111398400);
    Product(f, 2114, 111398400, 65536, 1682791109, 766345775);
    Product(f, 67650, 766345775, 2097152, 1987420232, 501934855);
    Product(f, 2164802, 501934855, 67108864, 1154667137, 16384);
  }

  /** (2^31 - 2) / 151 */
  lemma PeriodOver151(f: nat -> nat)
    requires Powers(f)
    ensures f(14221746) == 1013763951
  {
    Squares10(f);
    Squares20(f);
    Squares30(f);
    Product(f, 2, 282475249, 16, 1137522503, 16531729);
    Product(f, 18, 16531729, 32, 1636807826, 937186357);
    Product(f, 50, 937186357, 128, 515204530, 290145159);
    Product(f, 178, 290145159, 256, 897054849, 2119315080);
    Product(f, 434, 2119315080, 65536, 1682791109, 461253127);
    Product(f, 65970, 461253127, 524288, 612544882, 1419975727);
    Product(f, 590258, 1419975727, 1048576, 1295048709, 2125667626);
    Product(f, 1638834, 2125667626, 4194304, 868966365, 168128469);
    Product(f, 5833138, 168128469, 8388608, 1331238991, 1013763951);
  }

  /** (2^31 - 2) / 331 */
  lemma PeriodOver331(f: nat -> nat)
    requires Powers(f)
    ensures f(6487866) == 759513457
  {
    Squares10(f);
    Squares20(f);
    Squares30(f);
    Product(f, 2, 282475249, 8, 1457850878, 2007237709);
    Product(f, 10, 2007237709, 16, 1137522503, 1131570933);
    Product(f, 26, 1131570933, 32, 1636807826, 1927702196);
    Product(f, 58, 1927702196, 256, 897054849, 1262696576);
    Product(f, 314, 1262696576, 512, 2038299453, 895063368);
    Product(f, 826, 895063368, 1024, 1836275591, 2028965134);
    Product(f, 1850, 2028965134, 2048, 349037107, 840788275);
    Product(f, 3898, 840788275, 4096, 149796865, 1433401925);
    Product(f, 7994, 1433401925, 8192, 1186652285, 369200414);
    Product(f, 16186, 369200414, 16384, 2106880871, 1576225411);
    Product(f, 32570, 1576225411, 32768, 877809922, 1456949660);
    Product(f, 65338, 1456949660, 131072, 1900685356, 7693700);
    Product(f, 196410, 7693700, 2097152, 1987420232, 1043837591);
    Product(f, 2293562, 1043837591, 4194304, 868966365, 759513457);
  }

  /** (2^31 - 2) / 6 */
  lemma PeriodOver6(f: nat -> nat)
    requires Powers(f)
    ensures f(357913941) == 634005912
  {
    Squares10(f);
    Squares20(f);
    Squares30(f);
    Product(f, 1, 16807, 4, 984943658, 1144108930);
    Product(f, 5, 1144108930, 16, 1137522503, 896544303);
    Product(f, 21, 896544303, 64, 685118024, 1864546517);
    Product(f, 85, 1864546517, 256, 897054849, 1442645480);
    Product(f, 341, 1442645480, 1024, 1836275591, 237955200);
    Product(f, 1365, 237955200, 4096, 149796865, 80227910);
    Product(f, 5461, 80227910, 16384, 2106880871, 1283266847);
    Product(f, 21845, 1283266847, 65536, 1682791109, 1029451770);
    Product(f, 87381, 1029451770, 262144, 2080563572, 123152199);
    Product(f, 349525, 123152199, 1048576, 1295048709, 600776587);
    Product(f, 1398101, 600776587, 4194304, 868966365, 154745822);
    Product(f, 5592405, 154745822, 16777216, 1550655590, 544774798);
    Product(f, 22369621, 544774798, 67108864, 1154667137, 1568664301);
    Product(f, 89478485, 1568664301, 268435456, 1008653149, 634005912);
  }

  /** (2^31 - 2) / 3, (2^31 - 2) / 2 and 2^31 - 2. */
  lemma PeriodOver3And2(f: nat -> nat)
    requires Powers(f)
    ensures f(715827882) == 634005911 && f(1073741823) == 2147483646 && f(2147483646) == 1
  {
    PeriodOver6(f);
    Square(f, 357913941, 634005912, 634005911);
    Product(f, 715827882, 634005911, 357913941, 634005912, 2147483646);
    Square(f, 1073741823, 2147483646, 1);
  }

  /** The check value of the generator: x[10000] for x[0] = 1. */
  lemma SelfTestPower(f: nat -> nat)
    requires Powers(f)
    ensures f(10000) == 1043618065
  {
    Squares10(f);
    Squares20(f);
    Product(f, 16, 1137522503, 256, 897054849, 2034837525);
    Product(f, 272, 2034837525, 512, 2038299453, 320514918);
    Product(f, 784, 320514918, 1024, 1836275591, 544733637);
    Product(f, 1808, 544733637, 8192, 1186652285, 1043618065);
  }

  /** What lies between two consecutive automatic seeds. */
  lemma SpacingPower(f: nat -> nat)
    requires Powers(f)
    ensures f(0x80_0000) == 1331238991
  {
    Squares30(f);
  }
}
