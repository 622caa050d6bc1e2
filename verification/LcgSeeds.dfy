/**
 The 256 automatic seeds: that they are 8,388,608 steps apart, and what that means for the
 stretches of random numbers drawn from them.
 */
module LcgSeeds {
  import opened Bits
  import opened Lcgs
  import opened LcgPowers
  import opened LcgPeriod

  const SPACING := 0x80_0000
  const SPACING_FACTOR := 1331238991  // 7^5 to the power of the spacing

  const ROW_0: seq<nat> := [
    1, 1331238991, 1550655590, 930627303, 766698560, 372156336, 1645116277, 1635860990,
    1154667137, 692982627, 1961833381, 713190994, 460575272, 1298018763, 1497719440, 2030952567]

  const ROW_1: seq<nat> := [
    901595110, 631930165, 354421844, 1213737427, 1800697079, 795809157, 821079954, 1624537871,
    1918430133, 861482464, 1736896562, 1220028201, 634729389, 456922549, 23246132, 979545543]

  const ROW_2: seq<nat> := [
    1008653149, 1156436224, 1689665648, 1604778030, 1628735393, 1949577498, 550023088, 1726571906,
    1267216792, 1750609806, 314116942, 736299588, 2095003524, 1281569003, 356484144, 1423591576]

  const ROW_3: seq<nat> := [
    2140958617, 1577658393, 1116852912, 1865734753, 1701937813, 301264580, 171817360, 1809513683,
    360646631, 546534802, 1652205397, 136501886, 605448579, 1857604347, 1223969344, 668104522]

  const ROW_4: seq<nat> := [
    1821072732, 738721927, 1237280745, 1753702432, 2125855022, 1259255700, 935058038, 1325807218,
    1151620124, 585222105, 1970906347, 1267057970, 66562942, 1959090863, 1503754591, 114059398]

  const ROW_5: seq<nat> := [
    2007872839, 1886985293, 1870986444, 2110445215, 1375265396, 1512926254, 470646700, 1951555990,
    500432100, 1843528576, 347147950, 1431668171, 929595364, 1507452793, 800443847, 1428656866]

  const ROW_6: seq<nat> := [
    5715478, 1607979231, 2032092669, 37809413, 996425830, 1010869813, 1884232020, 312192738,
    1821061493, 462270727, 248900140, 678804905, 905130946, 1892339752, 1307421505, 491642575]

  const ROW_7: seq<nat> := [
    1091346202, 1076664921, 1140141037, 122447008, 1244153851, 1382627577, 611793617, 1989326495,
    808278095, 1352281487, 2106046913, 1731628906, 1226683843, 1683200486, 90274853, 1676390615]

  const ROW_8: seq<nat> := [
    2147466840, 498396356, 2140522509, 1217803227, 1146667727, 788324559, 1530171233, 317473611,
    319146380, 992289339, 2077765218, 652681396, 789950931, 485020132, 632682054, 32775496]

  const ROW_9: seq<nat> := [
    1683083109, 603834907, 351704670, 1809710911, 171230418, 1511135464, 1986612391, 1646573708,
    1411714374, 1546459273, 872179784, 1307370996, 801917373, 2051724276, 144283230, 1535180348]

  const ROW_10: seq<nat> := [
    1949917822, 650872229, 113201992, 890256110, 1965781805, 1903960687, 679060319, 452497769,
    630187802, 174438105, 1298843779, 961082145, 1565131991, 2078229636, 50366922, 959177042]

  const ROW_11: seq<nat> := [
    144513213, 1423462005, 207666443, 152219823, 13354949, 412643566, 631135695, 166938633,
    958408264, 1324624652, 494931978, 1472820641, 1150735880, 1508483704, 1640573652, 359288909]

  const ROW_12: seq<nat> := [
    1315013967, 1051019865, 1254156333, 1883764098, 587564032, 1288274932, 1912367727, 1595891993,
    2138169990, 1794668172, 2059764593, 1152025509, 115613893, 926625010, 131630606, 706594585]

  const ROW_13: seq<nat> := [
    1386707532, 1624163092, 2081362360, 1882152641, 1428465736, 602313149, 1170668648, 863700348,
    931140599, 1856765731, 197473249, 507314638, 1381732824, 252975355, 925311926, 1726193892]

  const ROW_14: seq<nat> := [
    576725369, 774762078, 198434005, 192355221, 1296038143, 1201667973, 653782169, 1426685702,
    1503907840, 211726157, 33491376, 906578176, 238345926, 1826083853, 1366925216, 480315631]

  const ROW_15: seq<nat> := [
    1549695660, 1337366022, 1793656969, 1469954017, 1701980729, 98857548, 1883864564, 1709982325,
    251608257, 1171967839, 642486710, 1358844649, 1115145546, 1398997376, 1021484058, 2035865982]

  function Row(r: nat): seq<nat>
    requires r < 16
  {
    match r
    case 0 => ROW_0
    case 1 => ROW_1
    case 2 => ROW_2
    case 3 => ROW_3
    case 4 => ROW_4
    case 5 => ROW_5
    case 6 => ROW_6
    case 7 => ROW_7
    case 8 => ROW_8
    case 9 => ROW_9
    case 10 => ROW_10
    case 11 => ROW_11
    case 12 => ROW_12
    case 13 => ROW_13
    case 14 => ROW_14
    case 15 => ROW_15
  }

  /** autoSeeds[k]. */
  function AutoSeed(k: nat): nat
    requires k < 256
  {
    assert forall r: nat :: r < 16 ==> |Row(r)| == 16;
    Row(k / 16)[k % 16]
  }

  /** One spacing leads from seed x to seed y. */
  predicate Follows(x: nat, y: nat)
  {
    x * SPACING_FACTOR % P == y
  }

  lemma Next(x: nat, y: nat)
    requires x * 1331238991 % 2147483647 == y
    ensures Follows(x, y)
  {
  }

  ghost predicate Chained(row: seq<nat>)
  {
    |row| == 16 && forall i, j :: 0 <= i < j < |row| && j == i + 1 ==> Follows(row[i], row[j])
  }

  lemma Row0IsChained(row: seq<nat>)
    requires row == ROW_0
    ensures Chained(row)
  {
    Next(1, 1331238991); Next(1331238991, 1550655590); Next(1550655590, 930627303);
    Next(930627303, 766698560); Next(766698560, 372156336); Next(372156336, 1645116277);
    Next(1645116277, 1635860990); Next(1635860990, 1154667137); Next(1154667137, 692982627);
    Next(692982627, 1961833381); Next(1961833381, 713190994); Next(713190994, 460575272);
    Next(460575272, 1298018763); Next(1298018763, 1497719440); Next(1497719440, 2030952567);
  }

  lemma Row1IsChained(row: seq<nat>)
    requires row == ROW_1
    ensures Chained(row)
  {
    Next(901595110, 631930165); Next(631930165, 354421844); Next(354421844, 1213737427);
    Next(1213737427, 1800697079); Next(1800697079, 795809157); Next(795809157, 821079954);
    Next(821079954, 1624537871); Next(1624537871, 1918430133); Next(1918430133, 861482464);
    Next(861482464, 1736896562); Next(1736896562, 1220028201); Next(1220028201, 634729389);
    Next(634729389, 456922549); Next(456922549, 23246132); Next(23246132, 979545543);
  }

  lemma Row2IsChained(row: seq<nat>)
    requires row == ROW_2
    ensures Chained(row)
  {
    Next(1008653149, 1156436224); Next(1156436224, 1689665648); Next(1689665648, 1604778030);
    Next(1604778030, 1628735393); Next(1628735393, 1949577498); Next(1949577498, 550023088);
    Next(550023088, 1726571906); Next(1726571906, 1267216792); Next(1267216792, 1750609806);
    Next(1750609806, 314116942); Next(314116942, 736299588); Next(736299588, 2095003524);
    Next(2095003524, 1281569003); Next(1281569003, 356484144); Next(356484144, 1423591576);
  }

  lemma Row3IsChained(row: seq<nat>)
    requires row == ROW_3
    ensures Chained(row)
  {
    Next(2140958617, 1577658393); Next(1577658393, 1116852912); Next(1116852912, 1865734753);
    Next(1865734753, 1701937813); Next(1701937813, 301264580); Next(301264580, 171817360);
    Next(171817360, 1809513683); Next(1809513683, 360646631); Next(360646631, 546534802);
    Next(546534802, 1652205397); Next(1652205397, 136501886); Next(136501886, 605448579);
    Next(605448579, 1857604347); Next(1857604347, 1223969344); Next(1223969344, 668104522);
  }

  lemma Row4IsChained(row: seq<nat>)
    requires row == ROW_4
    ensures Chained(row)
  {
    Next(1821072732, 738721927); Next(738721927, 1237280745); Next(1237280745, 1753702432);
    Next(1753702432, 2125855022); Next(2125855022, 1259255700); Next(1259255700, 935058038);
    Next(935058038, 1325807218); Next(1325807218, 1151620124); Next(1151620124, 585222105);
    Next(585222105, 1970906347); Next(1970906347, 1267057970); Next(1267057970, 66562942);
    Next(66562942, 1959090863); Next(1959090863, 1503754591); Next(1503754591, 114059398);
  }

  lemma Row5IsChained(row: seq<nat>)
    requires row == ROW_5
    ensures Chained(row)
  {
    Next(2007872839, 1886985293); Next(1886985293, 1870986444); Next(1870986444, 2110445215);
    Next(2110445215, 1375265396); Next(1375265396, 1512926254); Next(1512926254, 470646700);
    Next(470646700, 1951555990); Next(1951555990, 500432100); Next(500432100, 1843528576);
    Next(1843528576, 347147950); Next(347147950, 1431668171); Next(1431668171, 929595364);
    Next(929595364, 1507452793); Next(1507452793, 800443847); Next(800443847, 1428656866);
  }

  lemma Row6IsChained(row: seq<nat>)
    requires row == ROW_6
    ensures Chained(row)
  {
    Next(5715478, 1607979231); Next(1607979231, 2032092669); Next(2032092669, 37809413);
    Next(37809413, 996425830); Next(996425830, 1010869813); Next(1010869813, 1884232020);
    Next(1884232020, 312192738); Next(312192738, 1821061493); Next(1821061493, 462270727);
    Next(462270727, 248900140); Next(248900140, 678804905); Next(678804905, 905130946);
    Next(905130946, 1892339752); Next(1892339752, 1307421505); Next(1307421505, 491642575);
  }

  lemma Row7IsChained(row: seq<nat>)
    requires row == ROW_7
    ensures Chained(row)
  {
    Next(1091346202, 1076664921); Next(1076664921, 1140141037); Next(1140141037, 122447008);
    Next(122447008, 1244153851); Next(1244153851, 1382627577); Next(1382627577, 611793617);
    Next(611793617, 1989326495); Next(1989326495, 808278095); Next(808278095, 1352281487);
    Next(1352281487, 2106046913); Next(2106046913, 1731628906); Next(1731628906, 1226683843);
    Next(1226683843, 1683200486); Next(1683200486, 90274853); Next(90274853, 1676390615);
  }

  lemma Row8IsChained(row: seq<nat>)
    requires row == ROW_8
    ensures Chained(row)
  {
    Next(2147466840, 498396356); Next(498396356, 2140522509); Next(2140522509, 1217803227);
    Next(1217803227, 1146667727); Next(1146667727, 788324559); Next(788324559, 1530171233);
    Next(1530171233, 317473611); Next(317473611, 319146380); Next(319146380, 992289339);
    Next(992289339, 2077765218); Next(2077765218, 652681396); Next(652681396, 789950931);
    Next(789950931, 485020132); Next(485020132, 632682054); Next(632682054, 32775496);
  }

  lemma Row9IsChained(row: seq<nat>)
    requires row == ROW_9
    ensures Chained(row)
  {
    Next(1683083109, 603834907); Next(603834907, 351704670); Next(351704670, 1809710911);
    Next(1809710911, 171230418); Next(171230418, 1511135464); Next(1511135464, 1986612391);
    Next(1986612391, 1646573708); Next(1646573708, 1411714374); Next(1411714374, 1546459273);
    Next(1546459273, 872179784); Next(872179784, 1307370996); Next(1307370996, 801917373);
    Next(801917373, 2051724276); Next(2051724276, 144283230); Next(144283230, 1535180348);
  }

  lemma Row10IsChained(row: seq<nat>)
    requires row == ROW_10
    ensures Chained(row)
  {
    Next(1949917822, 650872229); Next(650872229, 113201992); Next(113201992, 890256110);
    Next(890256110, 1965781805); Next(1965781805, 1903960687); Next(1903960687, 679060319);
    Next(679060319, 452497769); Next(452497769, 630187802); Next(630187802, 174438105);
    Next(174438105, 1298843779); Next(1298843779, 961082145); Next(961082145, 1565131991);
    Next(1565131991, 2078229636); Next(2078229636, 50366922); Next(50366922, 959177042);
  }

  lemma Row11IsChained(row: seq<nat>)
    requires row == ROW_11
    ensures Chained(row)
  {
    Next(144513213, 1423462005); Next(1423462005, 207666443); Next(207666443, 152219823);
    Next(152219823, 13354949); Next(13354949, 412643566); Next(412643566, 631135695);
    Next(631135695, 166938633); Next(166938633, 958408264); Next(958408264, 1324624652);
    Next(1324624652, 494931978); Next(494931978, 1472820641); Next(1472820641, 1150735880);
    Next(1150735880, 1508483704); Next(1508483704, 1640573652); Next(1640573652, 359288909);
  }

  lemma Row12IsChained(row: seq<nat>)
    requires row == ROW_12
    ensures Chained(row)
  {
    Next(1315013967, 1051019865); Next(1051019865, 1254156333); Next(1254156333, 1883764098);
    Next(1883764098, 587564032); Next(587564032, 1288274932); Next(1288274932, 1912367727);
    Next(1912367727, 1595891993); Next(1595891993, 2138169990); Next(2138169990, 1794668172);
    Next(1794668172, 2059764593); Next(2059764593, 1152025509); Next(1152025509, 115613893);
    Next(115613893, 926625010); Next(926625010, 131630606); Next(131630606, 706594585);
  }

  lemma Row13IsChained(row: seq<nat>)
    requires row == ROW_13
    ensures Chained(row)
  {
    Next(1386707532, 1624163092); Next(1624163092, 2081362360); Next(2081362360, 1882152641);
    Next(1882152641, 1428465736); Next(1428465736, 602313149); Next(602313149, 1170668648);
    Next(1170668648, 863700348); Next(863700348, 931140599); Next(931140599, 1856765731);
    Next(1856765731, 197473249); Next(197473249, 507314638); Next(507314638, 1381732824);
    Next(1381732824, 252975355); Next(252975355, 925311926); Next(925311926, 1726193892);
  }

  lemma Row14IsChained(row: seq<nat>)
    requires row == ROW_14
    ensures Chained(row)
  {
    Next(576725369, 774762078); Next(774762078, 198434005); Next(198434005, 192355221);
    Next(192355221, 1296038143); Next(1296038143, 1201667973); Next(1201667973, 653782169);
    Next(653782169, 1426685702); Next(1426685702, 1503907840); Next(1503907840, 211726157);
    Next(211726157, 33491376); Next(33491376, 906578176); Next(906578176, 238345926);
    Next(238345926, 1826083853); Next(1826083853, 1366925216); Next(1366925216, 480315631);
  }

  lemma Row15IsChained(row: seq<nat>)
    requires row == ROW_15
    ensures Chained(row)
  {
    Next(1549695660, 1337366022); Next(1337366022, 1793656969); Next(1793656969, 1469954017);
    Next(1469954017, 1701980729); Next(1701980729, 98857548); Next(98857548, 1883864564);
    Next(1883864564, 1709982325); Next(1709982325, 251608257); Next(251608257, 1171967839);
    Next(1171967839, 642486710); Next(642486710, 1358844649); Next(1358844649, 1115145546);
    Next(1115145546, 1398997376); Next(1398997376, 1021484058); Next(1021484058, 2035865982);
  }

  lemma RowIsChained(r: nat)
    requires r < 16
    ensures Chained(Row(r))
  {
    match r {
      case 0 => Row0IsChained(ROW_0);
      case 1 => Row1IsChained(ROW_1);
      case 2 => Row2IsChained(ROW_2);
      case 3 => Row3IsChained(ROW_3);
      case 4 => Row4IsChained(ROW_4);
      case 5 => Row5IsChained(ROW_5);
      case 6 => Row6IsChained(ROW_6);
      case 7 => Row7IsChained(ROW_7);
      case 8 => Row8IsChained(ROW_8);
      case 9 => Row9IsChained(ROW_9);
      case 10 => Row10IsChained(ROW_10);
      case 11 => Row11IsChained(ROW_11);
      case 12 => Row12IsChained(ROW_12);
      case 13 => Row13IsChained(ROW_13);
      case 14 => Row14IsChained(ROW_14);
      case 15 => Row15IsChained(ROW_15);
    }
  }

  lemma RowFollowsRow(r: nat)
    requires r < 15
    ensures |Row(r)| == 16 && |Row(r + 1)| == 16 && Follows(Row(r)[15], Row(r + 1)[0])
  {
    Next(2030952567, 901595110); Next(979545543, 1008653149); Next(1423591576, 2140958617);
    Next(668104522, 1821072732); Next(114059398, 2007872839); Next(1428656866, 5715478);
    Next(491642575, 1091346202); Next(1676390615, 2147466840); Next(32775496, 1683083109);
    Next(1535180348, 1949917822); Next(959177042, 144513213); Next(359288909, 1315013967);
    Next(706594585, 1386707532); Next(1726193892, 576725369); Next(480315631, 1549695660);
  }

  lemma SeedAt(k: nat, r: nat, i: nat)
    requires r < 16 && i < 16 && k == 16 * r + i
    ensures |Row(r)| == 16 && AutoSeed(k) == Row(r)[i]
  {
    QuotientIsUnique(k, 16, r, i);
  }

  lemma FollowsIsMul(x: nat, y: nat)
    requires Follows(x, y)
    ensures y == Mul(x, SPACING_FACTOR)
  {
  }

  lemma NextSeed(k: nat)
    requires k < 255
    ensures AutoSeed(k + 1) == Mul(AutoSeed(k), SPACING_FACTOR)
  {
    if k % 16 < 15 {
      NextInRow(k, k / 16, k % 16);
    } else {
      NextRow(k, k / 16);
    }
    FollowsIsMul(AutoSeed(k), AutoSeed(k + 1));
  }

  lemma NextInRow(k: nat, r: nat, i: nat)
    requires r < 16 && i < 15 && k == 16 * r + i
    ensures k < 255 && Follows(AutoSeed(k), AutoSeed(k + 1))
  {
    SeedAt(k, r, i);
    SeedAt(k + 1, r, i + 1);
    RowIsChained(r);
  }

  lemma NextRow(k: nat, r: nat)
    requires r < 15 && k == 16 * r + 15
    ensures k < 255 && Follows(AutoSeed(k), AutoSeed(k + 1))
  {
    SeedAt(k, r, 15);
    SeedAt(k + 1, r + 1, 0);
    RowFollowsRow(r);
  }

  lemma JumpOfSpacing(f: nat -> nat, spacing: nat)
    requires Powers(f) && spacing == SPACING
    ensures f(spacing) == SPACING_FACTOR
  {
    SpacingPower(f);
  }

  /** Seed k is what the generator started at 1 reaches after k times the spacing. */
  lemma {:induction false} SeedsAreSpaced(k: nat, spacing: nat)
    requires k < 256 && spacing == SPACING
    ensures AutoSeed(k) == Jump(k * spacing)
  {
    if k == 0 {
      assert ROW_0[0] == 1;
    } else {
      SeedsAreSpaced(k - 1, spacing);
      NextSeed(k - 1);
      assert k * spacing == (k - 1) * spacing + spacing;
      JumpAdds((k - 1) * spacing, spacing);
      JumpIsPowers();
      JumpOfSpacing(Jump, spacing);
    }
  }

  /** Draw i of the stretch that starts at seed k. */
  function Draw(k: nat, i: nat): nat
    requires k < 256
  {
    Iterate(AutoSeed(k), i)
  }

  lemma DrawIsJump(k: nat, i: nat, spacing: nat)
    requires k < 256 && spacing == SPACING
    ensures Draw(k, i) == Jump(k * spacing + i)
  {
    SeedsAreSpaced(k, spacing);
    IterateIsJump(AutoSeed(k), i);
    JumpAdds(k * spacing, i);
  }

  lemma Positions(k: nat, i: nat, l: nat, j: nat, spacing: nat)
    requires k < 256 && l < 256 && i < spacing && j < spacing && spacing == SPACING
    requires k < l || (k == l && i <= j)
    ensures k * spacing + i <= l * spacing + j
    ensures (l * spacing + j - (k * spacing + i)) % PERIOD == 0 <==>
              (k == l && i == j) || (k == 0 && l == 255 && j == i + SPACING - 2)
  {
    var d := l * spacing + j - (k * spacing + i);
    assert d < 0x8000_0000;
    assert d == (l - k) * SPACING + j - i;
    if d == PERIOD {
      QuotientIsUnique(d, PERIOD, 1, 0);
    } else if d < PERIOD {
      QuotientIsUnique(d, PERIOD, 0, d);
    } else {
      QuotientIsUnique(d, PERIOD, 1, d - PERIOD);
    }
  }

  /** Drawing 8,388,608 numbers from each of the 256 seeds never repeats a number, with one
      exception: the seeds cover two values more than the period, so that the last two draws from
      the last seed are the first two from the first one. */
  lemma StretchesAreDisjoint(k: nat, i: nat, l: nat, j: nat)
    requires k < 256 && l < 256 && i < SPACING && j < SPACING && (k < l || (k == l && i <= j))
    ensures Draw(k, i) == Draw(l, j) <==> (k == l && i == j) || (k == 0 && l == 255 && j == i + SPACING - 2)
  {
    var spacing := SPACING;
    DrawIsJump(k, i, spacing);
    DrawIsJump(l, j, spacing);
    JumpIsGroup();
    StretchesMeet(Jump, k, i, l, j, spacing, Draw(k, i), Draw(l, j));
  }

  lemma StretchesMeet(f: nat -> nat, k: nat, i: nat, l: nat, j: nat, spacing: nat, x: nat, y: nat)
    requires Group(f) && x == f(k * spacing + i) && y == f(l * spacing + j)
    requires k < 256 && l < 256 && i < spacing && j < spacing && spacing == SPACING && (k < l || (k == l && i <= j))
    ensures x == y <==> (k == l && i == j) || (k == 0 && l == 255 && j == i + SPACING - 2)
  {
    Positions(k, i, l, j, spacing);
    PowersDiffer(f, k * spacing + i, l * spacing + j);
  }

  lemma CheckValue(f: nat -> nat, n: nat)
    requires Powers(f) && n == 10000
    ensures f(n) == 1043618065
  {
    SelfTestPower(f);
  }

  /** selfTest() never finds fault: the published check value comes out. */
  method SelfTest(rng: Lcg32) returns (ok: bool)
    modifies rng
    ensures ok && rng.seed == 1043618065
  {
    rng.seed := 1;
    var n := 10000;
    for i := 0 to n
      invariant 0 < rng.seed < P && rng.seed == Iterate(1, i)
    {
      IterateInRange(1, i + 1);
      var r := rng.IntRand();
    }
    IterateIsJump(1, n);
    JumpIsPowers();
    CheckValue(Jump, n);
    MulOne(Jump(n));
    ok := rng.seed == 1043618065;
  }
}
