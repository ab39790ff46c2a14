/** ltm_prime_tab: the table of small primes, and that they are primes. */
module PrimeTable {
  import opened Arith
  import opened Primes

  const PRIME_SIZE: nat := 256

  const ROW_0: seq<nat> := [
    2, 3, 5, 7, 11, 13, 17, 19, 23, 29, 31, 37, 41, 43, 47, 53]

  const ROW_1: seq<nat> := [
    59, 61, 67, 71, 73, 79, 83, 89, 97, 101, 103, 107, 109, 113, 127, 131]

  const ROW_2: seq<nat> := [
    137, 139, 149, 151, 157, 163, 167, 173, 179, 181, 191, 193, 197, 199, 211, 223]

  const ROW_3: seq<nat> := [
    227, 229, 233, 239, 241, 251, 257, 263, 269, 271, 277, 281, 283, 293, 307, 311]

  const ROW_4: seq<nat> := [
    313, 317, 331, 337, 347, 349, 353, 359, 367, 373, 379, 383, 389, 397, 401, 409]

  const ROW_5: seq<nat> := [
    419, 421, 431, 433, 439, 443, 449, 457, 461, 463, 467, 479, 487, 491, 499, 503]

  const ROW_6: seq<nat> := [
    509, 521, 523, 541, 547, 557, 563, 569, 571, 577, 587, 593, 599, 601, 607, 613]

  const ROW_7: seq<nat> := [
    617, 619, 631, 641, 643, 647, 653, 659, 661, 673, 677, 683, 691, 701, 709, 719]

  const ROW_8: seq<nat> := [
    727, 733, 739, 743, 751, 757, 761, 769, 773, 787, 797, 809, 811, 821, 823, 827]

  const ROW_9: seq<nat> := [
    829, 839, 853, 857, 859, 863, 877, 881, 883, 887, 907, 911, 919, 929, 937, 941]

  const ROW_10: seq<nat> := [
    947, 953, 967, 971, 977, 983, 991, 997, 1009, 1013, 1019, 1021, 1031, 1033, 1039, 1049]

  const ROW_11: seq<nat> := [
    1051, 1061, 1063, 1069, 1087, 1091, 1093, 1097, 1103, 1109, 1117, 1123, 1129, 1151, 1153, 1163]

  const ROW_12: seq<nat> := [
    1171, 1181, 1187, 1193, 1201, 1213, 1217, 1223, 1229, 1231, 1237, 1249, 1259, 1277, 1279, 1283]

  const ROW_13: seq<nat> := [
    1289, 1291, 1297, 1301, 1303, 1307, 1319, 1321, 1327, 1361, 1367, 1373, 1381, 1399, 1409, 1423]

  const ROW_14: seq<nat> := [
    1427, 1429, 1433, 1439, 1447, 1451, 1453, 1459, 1471, 1481, 1483, 1487, 1489, 1493, 1499, 1511]

  const ROW_15: seq<nat> := [
    1523, 1531, 1543, 1549, 1553, 1559, 1567, 1571, 1579, 1583, 1597, 1601, 1607, 1609, 1613, 1619]

  const LOWER_TAB: seq<nat> := ROW_0 + ROW_1 + ROW_2 + ROW_3 + ROW_4 + ROW_5 + ROW_6 + ROW_7
  const UPPER_TAB: seq<nat> := ROW_8 + ROW_9 + ROW_10 + ROW_11 + ROW_12 + ROW_13 + ROW_14 + ROW_15

  const LTM_PRIME_TAB: seq<nat> := LOWER_TAB + UPPER_TAB

  /** No prime below 41 divides p, unless it is p. */
  predicate Unfactored(p: nat) {
    && (p % 2 != 0 || p == 2) && (p % 3 != 0 || p == 3) && (p % 5 != 0 || p == 5) && (p % 7 != 0 || p == 7)
    && (p % 11 != 0 || p == 11) && (p % 13 != 0 || p == 13) && (p % 17 != 0 || p == 17) && (p % 19 != 0 || p == 19)
    && (p % 23 != 0 || p == 23) && (p % 29 != 0 || p == 29) && (p % 31 != 0 || p == 31) && (p % 37 != 0 || p == 37)
  }

  lemma FactorOf(e: nat) returns (q: nat)
    requires 1 < e <= 40
    ensures q in {2, 3, 5, 7, 11, 13, 17, 19, 23, 29, 31, 37} && e % q == 0
  {
    q := if e % 2 == 0 then 2 else if e % 3 == 0 then 3 else if e % 5 == 0 then 5 else if e % 7 == 0 then 7 else e;
  }

  lemma DividesThrough(p: nat, e: nat, q: nat)
    requires e > 0 && q > 0 && p % e == 0 && e % q == 0
    ensures p % q == 0
  {
    DivMod(p, e);
    DivMod(e, q);
    MulAssoc(p / e, e / q, q);
    DivModUnique(p, q, p / e * (e / q), 0);
  }

  /** An unfactored number has no divisor up to 40 but itself. */
  lemma SmallDivisor(p: nat, e: nat)
    requires Unfactored(p) && 1 < e <= 40 && e < p
    ensures p % e != 0
  {
    var q := FactorOf(e);
    if q > e { DivModUnique(e, q, 0, e); }
    if p % e == 0 { DividesThrough(p, e, q); }
  }

  lemma UnfactoredIsPrime(p: nat)
    requires Unfactored(p) && 1 < p < 1681
    ensures Prime(p)
  {
    forall d | 1 < d < p ensures p % d != 0 {
      if p % d == 0 {
        var e := p / d;
        DivMod(p, d);
        if e <= 1 { MulMonotone(e, 1, d); }
        if e >= p { MulMonotone(p, e, d); MulMonotone(2, d, p); }
        DivModUnique(p, e, d, 0);
        if d > 40 && e > 40 { MulMonotone(41, d, 41); MulMonotone(41, e, d); }
        if d <= 40 { SmallDivisor(p, d); } else { SmallDivisor(p, e); }
      }
    }
  }

  /** n unfactored numbers. */
  ghost predicate Good(s: seq<nat>, n: nat) {
    |s| == n && forall i :: 0 <= i < n ==> 1 < s[i] < 1681 && Unfactored(s[i])
  }

  lemma GoodRow0()
    ensures Good(ROW_0, 16)
  {
  }

  lemma GoodRow1()
    ensures Good(ROW_1, 16)
  {
  }

  lemma GoodRow2()
    ensures Good(ROW_2, 16)
  {
  }

  lemma GoodRow3()
    ensures Good(ROW_3, 16)
  {
  }

  lemma GoodRow4()
    ensures Good(ROW_4, 16)
  {
  }

  lemma GoodRow5()
    ensures Good(ROW_5, 16)
  {
  }

  lemma GoodRow6()
    ensures Good(ROW_6, 16)
  {
  }

  lemma GoodRow7()
    ensures Good(ROW_7, 16)
  {
  }

  lemma GoodRow8()
    ensures Good(ROW_8, 16)
  {
  }

  lemma GoodRow9()
    ensures Good(ROW_9, 16)
  {
  }

  lemma GoodRow10()
    ensures Good(ROW_10, 16)
  {
  }

  lemma GoodRow11()
    ensures Good(ROW_11, 16)
  {
  }

  lemma GoodRow12()
    ensures Good(ROW_12, 16)
  {
  }

  lemma GoodRow13()
    ensures Good(ROW_13, 16)
  {
  }

  lemma GoodRow14()
    ensures Good(ROW_14, 16)
  {
  }

  lemma GoodRow15()
    ensures Good(ROW_15, 16)
  {
  }

  lemma GoodConcat(s: seq<nat>, n: nat, r: seq<nat>, m: nat)
    requires Good(s, n) && Good(r, m)
    ensures Good(s + r, n + m)
  {
    hide Unfactored;
  }

  lemma GoodHalf(a: seq<nat>, b: seq<nat>, c: seq<nat>, d: seq<nat>, e: seq<nat>, f: seq<nat>, g: seq<nat>, h: seq<nat>)
    requires Good(a, 16) && Good(b, 16) && Good(c, 16) && Good(d, 16) && Good(e, 16) && Good(f, 16) && Good(g, 16)
    requires Good(h, 16)
    ensures Good(a + b + c + d + e + f + g + h, 128) && (a + b + c + d + e + f + g + h)[0] == a[0]
  {
    hide Unfactored;
    GoodConcat(a, 16, b, 16);
    GoodConcat(a + b, 32, c, 16);
    GoodConcat(a + b + c, 48, d, 16);
    GoodConcat(a + b + c + d, 64, e, 16);
    GoodConcat(a + b + c + d + e, 80, f, 16);
    GoodConcat(a + b + c + d + e + f, 96, g, 16);
    GoodConcat(a + b + c + d + e + f + g, 112, h, 16);
  }

  lemma LowerIsGood()
    ensures Good(LOWER_TAB, 128) && LOWER_TAB[0] == 2
  {
    hide Unfactored, Good;
    GoodLength(ROW_0, 16);
    GoodRow0();
    GoodRow1();
    GoodRow2();
    GoodRow3();
    GoodRow4();
    GoodRow5();
    GoodRow6();
    GoodRow7();
    GoodHalf(ROW_0, ROW_1, ROW_2, ROW_3, ROW_4, ROW_5, ROW_6, ROW_7);
    GoodLength(LOWER_TAB, 128);
  }

  lemma UpperIsGood()
    ensures Good(UPPER_TAB, 128)
  {
    hide Unfactored, Good;
    GoodRow8();
    GoodRow9();
    GoodRow10();
    GoodRow11();
    GoodRow12();
    GoodRow13();
    GoodRow14();
    GoodRow15();
    GoodHalf(ROW_8, ROW_9, ROW_10, ROW_11, ROW_12, ROW_13, ROW_14, ROW_15);
  }

  lemma GoodLength(s: seq<nat>, n: nat)
    ensures Good(s, n) ==> |s| == n
  {
  }

  lemma TableIsGood()
    ensures Good(LTM_PRIME_TAB, PRIME_SIZE) && LTM_PRIME_TAB[0] == 2
  {
    hide Unfactored;
    LowerIsGood();
    UpperIsGood();
    GoodConcat(LOWER_TAB, 128, UPPER_TAB, 128);
  }

  /** What the users of the table rely on. */
  ghost predicate PrimesOnly(tab: seq<nat>) {
    |tab| == PRIME_SIZE && tab[0] == 2 && forall i :: 0 <= i < PRIME_SIZE ==> 1 < tab[i] < 1681 && Prime(tab[i])
  }

  /** The table has PRIME_SIZE entries, and all of them are primes. */
  lemma TableIsPrimes()
    ensures PrimesOnly(LTM_PRIME_TAB)
  {
    TableIsGood();
    PrimesFromGood(LTM_PRIME_TAB);
  }

  lemma PrimesFromGood(tab: seq<nat>)
    requires Good(tab, PRIME_SIZE) && tab[0] == 2
    ensures PrimesOnly(tab)
  {
    hide Unfactored, Prime;
    forall i | 0 <= i < PRIME_SIZE ensures Prime(tab[i]) { UnfactoredIsPrime(tab[i]); }
  }

  // ------------------------------------------------------------- nothing left out

  /** A prime below 41 divides n. */
  predicate Factored(n: nat) {
    || n % 2 == 0 || n % 3 == 0 || n % 5 == 0 || n % 7 == 0 || n % 11 == 0 || n % 13 == 0 || n % 17 == 0
    || n % 19 == 0 || n % 23 == 0 || n % 29 == 0 || n % 31 == 0 || n % 37 == 0
  }

  /** One does for every other number from n up to q, without q. */
  predicate Skips(n: nat, q: nat)
    decreases q - n
  {
    n >= q || (Factored(n) && Skips(n + 2, q))
  }

  /** Nothing unfactored lies between p and q. */
  ghost predicate Gap(p: nat, q: nat) {
    p < q && (p % 2 == 1 || q == p + 1) && Skips(p + 2, q)
  }

  /** Ascending, and nothing unfactored in between. */
  ghost predicate Climbs(s: seq<nat>) {
    forall i :: 0 < i < |s| ==> Gap(s[i - 1], s[i])
  }

  lemma GapRow0()
    ensures Gap(2, 3) && Gap(3, 5) && Gap(5, 7) && Gap(7, 11) && Gap(11, 13)
    ensures Gap(13, 17) && Gap(17, 19) && Gap(19, 23) && Gap(23, 29) && Gap(29, 31)
    ensures Gap(31, 37) && Gap(37, 41) && Gap(41, 43) && Gap(43, 47) && Gap(47, 53)
  {
  }

  lemma ClimbRow0()
    ensures Climbs(ROW_0)
  {
    hide Gap;
    GapRow0();
  }

  lemma GapRow1()
    ensures Gap(59, 61) && Gap(61, 67) && Gap(67, 71) && Gap(71, 73) && Gap(73, 79)
    ensures Gap(79, 83) && Gap(83, 89) && Gap(89, 97) && Gap(97, 101) && Gap(101, 103)
    ensures Gap(103, 107) && Gap(107, 109) && Gap(109, 113) && Gap(113, 127) && Gap(127, 131)
  {
  }

  lemma ClimbRow1()
    ensures Climbs(ROW_1)
  {
    hide Gap;
    GapRow1();
  }

  lemma GapRow2()
    ensures Gap(137, 139) && Gap(139, 149) && Gap(149, 151) && Gap(151, 157) && Gap(157, 163)
    ensures Gap(163, 167) && Gap(167, 173) && Gap(173, 179) && Gap(179, 181) && Gap(181, 191)
    ensures Gap(191, 193) && Gap(193, 197) && Gap(197, 199) && Gap(199, 211) && Gap(211, 223)
  {
  }

  lemma ClimbRow2()
    ensures Climbs(ROW_2)
  {
    hide Gap;
    GapRow2();
  }

  lemma GapRow3()
    ensures Gap(227, 229) && Gap(229, 233) && Gap(233, 239) && Gap(239, 241) && Gap(241, 251)
    ensures Gap(251, 257) && Gap(257, 263) && Gap(263, 269) && Gap(269, 271) && Gap(271, 277)
    ensures Gap(277, 281) && Gap(281, 283) && Gap(283, 293) && Gap(293, 307) && Gap(307, 311)
  {
  }

  lemma ClimbRow3()
    ensures Climbs(ROW_3)
  {
    hide Gap;
    GapRow3();
  }

  lemma GapRow4()
    ensures Gap(313, 317) && Gap(317, 331) && Gap(331, 337) && Gap(337, 347) && Gap(347, 349)
    ensures Gap(349, 353) && Gap(353, 359) && Gap(359, 367) && Gap(367, 373) && Gap(373, 379)
    ensures Gap(379, 383) && Gap(383, 389) && Gap(389, 397) && Gap(397, 401) && Gap(401, 409)
  {
  }

  lemma ClimbRow4()
    ensures Climbs(ROW_4)
  {
    hide Gap;
    GapRow4();
  }

  lemma GapRow5()
    ensures Gap(419, 421) && Gap(421, 431) && Gap(431, 433) && Gap(433, 439) && Gap(439, 443)
    ensures Gap(443, 449) && Gap(449, 457) && Gap(457, 461) && Gap(461, 463) && Gap(463, 467)
    ensures Gap(467, 479) && Gap(479, 487) && Gap(487, 491) && Gap(491, 499) && Gap(499, 503)
  {
  }

  lemma ClimbRow5()
    ensures Climbs(ROW_5)
  {
    hide Gap;
    GapRow5();
  }

  lemma GapRow6()
    ensures Gap(509, 521) && Gap(521, 523) && Gap(523, 541) && Gap(541, 547) && Gap(547, 557)
    ensures Gap(557, 563) && Gap(563, 569) && Gap(569, 571) && Gap(571, 577) && Gap(577, 587)
    ensures Gap(587, 593) && Gap(593, 599) && Gap(599, 601) && Gap(601, 607) && Gap(607, 613)
  {
  }

  lemma ClimbRow6()
    ensures Climbs(ROW_6)
  {
    hide Gap;
    GapRow6();
  }

  lemma GapRow7()
    ensures Gap(617, 619) && Gap(619, 631) && Gap(631, 641) && Gap(641, 643) && Gap(643, 647)
    ensures Gap(647, 653) && Gap(653, 659) && Gap(659, 661) && Gap(661, 673) && Gap(673, 677)
    ensures Gap(677, 683) && Gap(683, 691) && Gap(691, 701) && Gap(701, 709) && Gap(709, 719)
  {
  }

  lemma ClimbRow7()
    ensures Climbs(ROW_7)
  {
    hide Gap;
    GapRow7();
  }

  lemma GapRow8()
    ensures Gap(727, 733) && Gap(733, 739) && Gap(739, 743) && Gap(743, 751) && Gap(751, 757)
    ensures Gap(757, 761) && Gap(761, 769) && Gap(769, 773) && Gap(773, 787) && Gap(787, 797)
    ensures Gap(797, 809) && Gap(809, 811) && Gap(811, 821) && Gap(821, 823) && Gap(823, 827)
  {
  }

  lemma ClimbRow8()
    ensures Climbs(ROW_8)
  {
    hide Gap;
    GapRow8();
  }

  lemma GapRow9()
    ensures Gap(829, 839) && Gap(839, 853) && Gap(853, 857) && Gap(857, 859) && Gap(859, 863)
    ensures Gap(863, 877) && Gap(877, 881) && Gap(881, 883) && Gap(883, 887) && Gap(887, 907)
    ensures Gap(907, 911) && Gap(911, 919) && Gap(919, 929) && Gap(929, 937) && Gap(937, 941)
  {
  }

  lemma ClimbRow9()
    ensures Climbs(ROW_9)
  {
    hide Gap;
    GapRow9();
  }

  lemma GapRow10()
    ensures Gap(947, 953) && Gap(953, 967) && Gap(967, 971) && Gap(971, 977) && Gap(977, 983)
    ensures Gap(983, 991) && Gap(991, 997) && Gap(997, 1009) && Gap(1009, 1013) && Gap(1013, 1019)
    ensures Gap(1019, 1021) && Gap(1021, 1031) && Gap(1031, 1033) && Gap(1033, 1039) && Gap(1039, 1049)
  {
  }

  lemma ClimbRow10()
    ensures Climbs(ROW_10)
  {
    hide Gap;
    GapRow10();
  }

  lemma GapRow11()
    ensures Gap(1051, 1061) && Gap(1061, 1063) && Gap(1063, 1069) && Gap(1069, 1087) && Gap(1087, 1091)
    ensures Gap(1091, 1093) && Gap(1093, 1097) && Gap(1097, 1103) && Gap(1103, 1109) && Gap(1109, 1117)
    ensures Gap(1117, 1123) && Gap(1123, 1129) && Gap(1129, 1151) && Gap(1151, 1153) && Gap(1153, 1163)
  {
  }

  lemma ClimbRow11()
    ensures Climbs(ROW_11)
  {
    hide Gap;
    GapRow11();
  }

  lemma GapRow12()
    ensures Gap(1171, 1181) && Gap(1181, 1187) && Gap(1187, 1193) && Gap(1193, 1201) && Gap(1201, 1213)
    ensures Gap(1213, 1217) && Gap(1217, 1223) && Gap(1223, 1229) && Gap(1229, 1231) && Gap(1231, 1237)
    ensures Gap(1237, 1249) && Gap(1249, 1259) && Gap(1259, 1277) && Gap(1277, 1279) && Gap(1279, 1283)
  {
  }

  lemma ClimbRow12()
    ensures Climbs(ROW_12)
  {
    hide Gap;
    GapRow12();
  }

  lemma GapRow13()
    ensures Gap(1289, 1291) && Gap(1291, 1297) && Gap(1297, 1301) && Gap(1301, 1303) && Gap(1303, 1307)
    ensures Gap(1307, 1319) && Gap(1319, 1321) && Gap(1321, 1327) && Gap(1327, 1361) && Gap(1361, 1367)
    ensures Gap(1367, 1373) && Gap(1373, 1381) && Gap(1381, 1399) && Gap(1399, 1409) && Gap(1409, 1423)
  {
    assert Skips(1345, 1361);
  }

  lemma ClimbRow13()
    ensures Climbs(ROW_13)
  {
    hide Gap;
    GapRow13();
  }

  lemma GapRow14()
    ensures Gap(1427, 1429) && Gap(1429, 1433) && Gap(1433, 1439) && Gap(1439, 1447) && Gap(1447, 1451)
    ensures Gap(1451, 1453) && Gap(1453, 1459) && Gap(1459, 1471) && Gap(1471, 1481) && Gap(1481, 1483)
    ensures Gap(1483, 1487) && Gap(1487, 1489) && Gap(1489, 1493) && Gap(1493, 1499) && Gap(1499, 1511)
  {
  }

  lemma ClimbRow14()
    ensures Climbs(ROW_14)
  {
    hide Gap;
    GapRow14();
  }

  lemma GapRow15()
    ensures Gap(1523, 1531) && Gap(1531, 1543) && Gap(1543, 1549) && Gap(1549, 1553) && Gap(1553, 1559)
    ensures Gap(1559, 1567) && Gap(1567, 1571) && Gap(1571, 1579) && Gap(1579, 1583) && Gap(1583, 1597)
    ensures Gap(1597, 1601) && Gap(1601, 1607) && Gap(1607, 1609) && Gap(1609, 1613) && Gap(1613, 1619)
  {
  }

  lemma ClimbRow15()
    ensures Climbs(ROW_15)
  {
    hide Gap;
    GapRow15();
  }

  lemma ClimbConcat(s: seq<nat>, r: seq<nat>)
    requires Climbs(s) && Climbs(r) && |s| > 0 && |r| > 0 && Gap(s[|s| - 1], r[0])
    ensures Climbs(s + r) && (s + r)[0] == s[0] && (s + r)[|s + r| - 1] == r[|r| - 1]
  {
    hide Gap;
  }

  /** Row s goes on with row r. */
  ghost predicate GoesOn(s: seq<nat>, r: seq<nat>) {
    Climbs(s) && Climbs(r) && |s| == 16 && |r| == 16 && Gap(s[15], r[0])
  }

  lemma ClimbHalf(a: seq<nat>, b: seq<nat>, c: seq<nat>, d: seq<nat>, e: seq<nat>, f: seq<nat>, g: seq<nat>,
                  h: seq<nat>)
    requires GoesOn(a, b) && GoesOn(b, c) && GoesOn(c, d) && GoesOn(d, e) && GoesOn(e, f) && GoesOn(f, g)
    requires GoesOn(g, h)
    ensures var t := a + b + c + d + e + f + g + h; Climbs(t) && |t| == 128 && t[0] == a[0] && t[127] == h[15]
  {
    hide Gap, Climbs;
    ClimbConcat(a, b);
    ClimbConcat(a + b, c);
    ClimbConcat(a + b + c, d);
    ClimbConcat(a + b + c + d, e);
    ClimbConcat(a + b + c + d + e, f);
    ClimbConcat(a + b + c + d + e + f, g);
    ClimbConcat(a + b + c + d + e + f + g, h);
  }

  lemma Join0()
    ensures GoesOn(ROW_0, ROW_1)
  {
    assert Gap(53, 59);
    hide Gap, Climbs;
    ClimbRow0();
    ClimbRow1();
  }

  lemma Join1()
    ensures GoesOn(ROW_1, ROW_2)
  {
    assert Gap(131, 137);
    hide Gap, Climbs;
    ClimbRow1();
    ClimbRow2();
  }

  lemma Join2()
    ensures GoesOn(ROW_2, ROW_3)
  {
    assert Gap(223, 227);
    hide Gap, Climbs;
    ClimbRow2();
    ClimbRow3();
  }

  lemma Join3()
    ensures GoesOn(ROW_3, ROW_4)
  {
    assert Gap(311, 313);
    hide Gap, Climbs;
    ClimbRow3();
    ClimbRow4();
  }

  lemma Join4()
    ensures GoesOn(ROW_4, ROW_5)
  {
    assert Gap(409, 419);
    hide Gap, Climbs;
    ClimbRow4();
    ClimbRow5();
  }

  lemma Join5()
    ensures GoesOn(ROW_5, ROW_6)
  {
    assert Gap(503, 509);
    hide Gap, Climbs;
    ClimbRow5();
    ClimbRow6();
  }

  lemma Join6()
    ensures GoesOn(ROW_6, ROW_7)
  {
    assert Gap(613, 617);
    hide Gap, Climbs;
    ClimbRow6();
    ClimbRow7();
  }

  lemma Join8()
    ensures GoesOn(ROW_8, ROW_9)
  {
    assert Gap(827, 829);
    hide Gap, Climbs;
    ClimbRow8();
    ClimbRow9();
  }

  lemma Join9()
    ensures GoesOn(ROW_9, ROW_10)
  {
    assert Gap(941, 947);
    hide Gap, Climbs;
    ClimbRow9();
    ClimbRow10();
  }

  lemma Join10()
    ensures GoesOn(ROW_10, ROW_11)
  {
    assert Gap(1049, 1051);
    hide Gap, Climbs;
    ClimbRow10();
    ClimbRow11();
  }

  lemma Join11()
    ensures GoesOn(ROW_11, ROW_12)
  {
    assert Gap(1163, 1171);
    hide Gap, Climbs;
    ClimbRow11();
    ClimbRow12();
  }

  lemma Join12()
    ensures GoesOn(ROW_12, ROW_13)
  {
    assert Gap(1283, 1289);
    hide Gap, Climbs;
    ClimbRow12();
    ClimbRow13();
  }

  lemma Join13()
    ensures GoesOn(ROW_13, ROW_14)
  {
    assert Gap(1423, 1427);
    hide Gap, Climbs;
    ClimbRow13();
    ClimbRow14();
  }

  lemma Join14()
    ensures GoesOn(ROW_14, ROW_15)
  {
    assert Gap(1511, 1523);
    hide Gap, Climbs;
    ClimbRow14();
    ClimbRow15();
  }

  lemma LowerClimbs()
    ensures Climbs(LOWER_TAB) && |LOWER_TAB| == 128 && LOWER_TAB[0] == 2 && LOWER_TAB[127] == 719
  {
    hide Climbs, GoesOn;
    Join0();
    Join1();
    Join2();
    Join3();
    Join4();
    Join5();
    Join6();
    ClimbHalf(ROW_0, ROW_1, ROW_2, ROW_3, ROW_4, ROW_5, ROW_6, ROW_7);
  }

  lemma UpperClimbs()
    ensures Climbs(UPPER_TAB) && |UPPER_TAB| == 128 && UPPER_TAB[0] == 727 && UPPER_TAB[127] == 1619
  {
    hide Climbs, GoesOn;
    Join8();
    Join9();
    Join10();
    Join11();
    Join12();
    Join13();
    Join14();
    ClimbHalf(ROW_8, ROW_9, ROW_10, ROW_11, ROW_12, ROW_13, ROW_14, ROW_15);
  }

  lemma TableClimbs()
    ensures Climbs(LTM_PRIME_TAB) && |LTM_PRIME_TAB| > 0
    ensures LTM_PRIME_TAB[0] == 2 && LTM_PRIME_TAB[|LTM_PRIME_TAB| - 1] == 1619
  {
    assert Gap(719, 727);
    hide Gap, Climbs;
    LowerClimbs();
    UpperClimbs();
    ClimbConcat(LOWER_TAB, UPPER_TAB);
  }

  lemma {:induction false} SkipsAll(n: nat, q: nat, v: nat)
    requires Skips(n, q) && n <= v < q && n % 2 == 1
    ensures Factored(v)
    decreases v - n
  {
    hide Factored;
    if v == n + 1 {
      EvenIsFactored(v);
    } else if n + 1 < v {
      SkipsAll(n + 2, q, v);
    }
  }

  lemma EvenIsFactored(v: nat)
    requires v % 2 == 0
    ensures Factored(v)
  {
  }

  lemma {:induction false} ClimbsComplete(s: seq<nat>, v: nat)
    requires Climbs(s) && |s| > 0 && s[0] <= v <= s[|s| - 1]
    ensures v in s || Factored(v)
  {
    hide Skips, Factored;
    var n := |s| - 1;
    if v != s[n] {
      assert Gap(s[n - 1], s[n]);
      if v <= s[n - 1] {
        ClimbsComplete(s[..n], v);
      } else if v == s[n - 1] + 1 {
        EvenIsFactored(v);
      } else {
        SkipsAll(s[n - 1] + 2, s[n], v);
      }
    }
  }

  lemma SmallPrime(p: nat)
    requires Prime(p) && Factored(p)
    ensures p in {2, 3, 5, 7, 11, 13, 17, 19, 23, 29, 31, 37}
  {
  }

  lemma SmallPrimesThere()
    ensures forall p :: p in {2, 3, 5, 7, 11, 13, 17, 19, 23, 29, 31, 37} ==> p in LTM_PRIME_TAB
  {
    assert forall p :: p in {2, 3, 5, 7, 11, 13, 17, 19, 23, 29, 31, 37} ==> p in ROW_0;
    assert forall p :: p in ROW_0 ==> p in LOWER_TAB;
  }

  /** The first PRIME_SIZE primes in order: none is missing. */
  lemma TableIsComplete()
    ensures forall i, j :: 0 <= i < j < |LTM_PRIME_TAB| ==> LTM_PRIME_TAB[i] < LTM_PRIME_TAB[j]
    ensures forall p: nat :: Prime(p) && p <= 1619 ==> p in LTM_PRIME_TAB
  {
    hide Prime, Factored, Climbs;
    TableClimbs();
    SmallPrimesThere();
    forall i, j | 0 <= i < j < |LTM_PRIME_TAB| ensures LTM_PRIME_TAB[i] < LTM_PRIME_TAB[j] {
      ClimbsFar(LTM_PRIME_TAB, i, j);
    }
    forall p: nat | Prime(p) && p <= 1619 ensures p in LTM_PRIME_TAB {
      assert p >= 2 by { PrimeFrom(p); }
      ClimbsComplete(LTM_PRIME_TAB, p);
      if Factored(p) { SmallPrime(p); }
    }
  }

  lemma PrimeFrom(p: nat)
    requires Prime(p)
    ensures p >= 2
  {
  }

  lemma {:induction false} ClimbsFar(s: seq<nat>, i: nat, j: nat)
    requires Climbs(s) && i < j < |s|
    ensures s[i] < s[j]
  {
    hide Skips;
    assert Gap(s[j - 1], s[j]);
    if i + 1 < j { ClimbsFar(s, i, j - 1); }
  }
}
