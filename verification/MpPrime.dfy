/** mp_prime_miller_rabin and mp_prime_is_prime. */
module MpPrime {
  import opened Arith
  import opened Modular
  import opened MpDigits
  import opened MpInts
  import opened MpShift
  import opened MpDivDigit
  import opened MpMul
  import opened MpMod
  import opened MpDigitOps
  import opened MpReduce2k
  import opened MpExptDispatch
  import opened MpRedux
  import opened MpExptmod
  import opened MpToomParts
  import opened MpInvmod
  import opened Primes
  import opened PrimeTable

  // --------------------------------------------------------------- trailing zeros

  /** How often two divides n. */
  function Twos(n: nat): nat
    requires n > 0
  {
    if n % 2 == 1 then 0 else 1 + Twos(n / 2)
  }

  lemma {:induction false} TwosFrom(n: nat, s: nat, q: nat)
    requires n == q * Pow2(s) && q % 2 == 1
    ensures n > 0 && Twos(n) == s
    decreases s
  {
    MulPositive(q, Pow2(s));
    if s > 0 {
      var p := Pow2(s - 1);
      assert n == 2 * (q * p) by { MulAssoc(q, 2, p); MulAssoc(2, q, p); }
      TwosFrom(q * p, s - 1, q);
    } else {
      assert Pow2(0) == 1;
    }
  }

  lemma {:induction false} TwosSplit(n: nat) returns (q: nat)
    requires n > 0
    ensures n == q * Pow2(Twos(n)) && q % 2 == 1 && q == n / Pow2(Twos(n))
  {
    if n % 2 == 1 {
      q := n;
      assert Pow2(0) == 1;
    } else {
      q := TwosSplit(n / 2);
      var p := Pow2(Twos(n / 2));
      assert n == q * (2 * p) by { MulAssoc(q, 2, p); MulAssoc(2, q, p); }
    }
    DivModUnique(n, Pow2(Twos(n)), q, 0);
  }

  /** The table lnz: trailing zeros of four bits. */
  function Lnz(q: nat): nat
    requires q < 16
  {
    if q == 0 then 4 else if q % 2 == 1 then 0 else if q % 4 != 0 then 1 else if q % 8 != 0 then 2 else 3
  }

  lemma {:induction false} TwosOfTwice(n: nat)
    requires n > 0
    ensures Twos(2 * n) == 1 + Twos(n)
  {
  }

  /** The low bits decide, unless they are all clear. */
  lemma {:induction false} TwosOfLow(t: nat, m: nat, k: nat)
    requires 0 < m < Pow2(k)
    ensures Twos(t * Pow2(k) + m) == Twos(m)
    decreases k
  {
    assert k > 0 by { assert Pow2(0) == 1; }
    var p := t * Pow2(k - 1);
    assert t * Pow2(k) == 2 * p by { MulAssoc(t, 2, Pow2(k - 1)); MulAssoc(2, t, Pow2(k - 1)); }
    if m % 2 == 0 {
      TwosOfLow(t, m / 2, k - 1);
      TwosOfTwice(p + m / 2);
      TwosOfTwice(m / 2);
    }
  }

  lemma {:induction false} LnzIsTwos(q: nat)
    requires 0 < q % 16
    ensures q > 0 && Twos(q) == Lnz(q % 16)
  {
    var m := q % 16;
    TwosOfLow(q / 16, m, 4);
    assert Pow2(4) == 16;
    assert Twos(m) == if m % 2 == 1 then 0 else 1 + Twos(m / 2);
    assert Twos(m) == Lnz(m);
  }

  lemma {:induction false} TwosShift(q: nat)
    requires q > 0 && q % 16 == 0
    ensures q / 16 > 0 && Twos(q) == 4 + Twos(q / 16)
  {
    assert q / 2 / 2 / 2 / 2 == q / 16;
    assert Twos(q / 2 / 2) == 1 + Twos(q / 2 / 2 / 2);
  }

  /** The scan of one digit, four bits at a time. */
  method DigitTwos(digit: nat) returns (x: nat)
    requires digit > 0
    ensures x == Twos(digit)
  {
    x := 0;
    if digit % 2 == 0 {
      var q, qq := digit, 0;
      while qq == 0
        invariant qq == 0 ==> q > 0 && x + Twos(q) == Twos(digit)
        invariant qq != 0 ==> x == Twos(digit)
        decreases qq == 0, q
      {
        qq := q % 16;
        if qq != 0 { LnzIsTwos(q); } else { TwosShift(q); }
        x := x + Lnz(qq);
        q := q / 16;
      }
    }
  }

  /** Low zero digits are factors of the base. */
  lemma {:induction false} SkipZeros(s: seq<nat>, k: nat) returns (h: nat)
    requires k < |s| && forall i :: 0 <= i < k ==> s[i] == 0
    ensures Value(s) == (s[k] + h * BASE) * Power(k)
  {
    ValueSplit(s, k);
    ValueZeros(s[..k]);
    ValueLow(s[k..]);
    h := Value(s[k..][1..]);
  }

  lemma {:induction false} TwosOfProduct(x: nat, h: nat, k: nat, v: nat)
    requires 0 < x < BASE && v == (x + h * BASE) * Power(k)
    ensures v > 0 && 0 <= k * DIGIT_BIT && Twos(v) == k * DIGIT_BIT + Twos(x)
  {
    hide Pow2, Power, Twos;
    var t := Twos(x);
    var q := TwosSplit(x);
    SmallTwos(x, t, q);
    var c, e, p, m := Pow2(DIGIT_BIT - t), Pow2(t), Power(k), k * DIGIT_BIT;
    assert BASE == c * e by { Pow2Add(DIGIT_BIT - t, t); }
    assert 0 <= m && e * p == Pow2(t + m) by { MulNonneg(k, DIGIT_BIT); PowerIsPow2(k); Pow2Add(t, m); }
    assert v == (q + h * c) * Pow2(t + m) by { TwoFactors(q, h, c, e, p, BASE); }
    OddSum(q, h, DIGIT_BIT - t);
    MulNonneg(h, c);
    TwosFrom(v, t + m, q + h * c);
  }

  /** The lowest digit that is not zero decides. */
  lemma {:induction false} TwosOfDigits(s: seq<nat>, k: nat)
    requires k < |s| && Digits(s) && s[k] > 0 && forall i :: 0 <= i < k ==> s[i] == 0
    ensures Value(s) > 0 && 0 <= k * DIGIT_BIT && Twos(Value(s)) == k * DIGIT_BIT + Twos(s[k])
  {
    var h := SkipZeros(s, k);
    TwosOfProduct(s[k], h, k, Value(s));
  }

  lemma TwoFactors(q: nat, h: nat, c: nat, e: nat, p: nat, base: nat)
    requires base == c * e
    ensures (q * e + h * base) * p == (q + h * c) * (e * p)
  {
    MulAssoc(h, c, e);
    MulDistrib(q, h * c, e);
    MulAssoc(q + h * c, e, p);
  }

  lemma {:induction false} SmallTwos(d: nat, t: nat, q: nat)
    requires 0 < d < BASE && d == q * Pow2(t) && q % 2 == 1
    ensures t < DIGIT_BIT
  {
    if t >= DIGIT_BIT {
      Pow2Monotone(DIGIT_BIT, t);
      MulMonotone(1, q, Pow2(t));
    }
  }

  lemma {:induction false} OddSum(q: nat, h: nat, e: nat)
    requires q % 2 == 1 && e > 0
    ensures (q + h * Pow2(e)) % 2 == 1
  {
    var p := Pow2(e - 1);
    MulAssoc(h, 2, p);
    MulAssoc(h, p, 2);
    ModAddMultiple(q, h * p, 2);
  }

  /** mp_cnt_lsb */
  method CntLsb(a: MpInt) returns (x: nat)
    requires a.Trim()
    ensures a.V() == 0 ==> x == 0
    ensures a.V() != 0 ==> a.Mag() > 0 && x == Twos(a.Mag())
  {
    hide Value, Pow2;
    TrimmedNegative(a);
    if a.used == 0 { return 0; }
    x := 0;
    while x < a.used && a.dp[x] == 0
      invariant 0 <= x < a.used && forall i :: 0 <= i < x ==> a.dp[i] == 0
    {
      x := x + 1;
    }
    ghost var k := x;
    var q := a.dp[x];
    TwosOfDigits(a.dp[..a.used], k);
    MulNonneg(x, DIGIT_BIT);
    var t := DigitTwos(q);
    x := x * DIGIT_BIT + t;
  }

  // ------------------------------------------------------- strong probable primes

  /** b^(r 2^j) */
  ghost function Tower(b: int, r: nat, j: nat): int {
    if j == 0 then Exp(b, r) else Tower(b, r, j - 1) * Tower(b, r, j - 1)
  }

  lemma {:induction false} TowerIsExp(b: int, r: nat, j: nat)
    ensures 0 <= r * Pow2(j) && Tower(b, r, j) == Exp(b, r * Pow2(j))
  {
    if j > 0 {
      TowerIsExp(b, r, j - 1);
      var e: nat := r * Pow2(j - 1);
      ExpAdd(b, e, e);
      assert r * Pow2(j) == e + e by { MulAssoc(r, 2, Pow2(j - 1)); MulAssoc(2, r, Pow2(j - 1)); }
    } else {
      assert Pow2(0) == 1;
    }
  }

  /** At least one power is looked at. */
  function Rounds(s: nat): nat { if s == 0 then 1 else s }

  /** a is a strong probable prime to base b: with a - 1 = r 2^s and r odd, either b^r is
      one modulo a, or one of b^r, b^2r, ... before b^(a-1) is minus one. */
  ghost predicate Strong(a: int, b: int)
    requires a > 1
  {
    var s := Twos(a - 1);
    var r := (a - 1) / Pow2(s);
    r >= 0 && (Cong(Tower(b, r, 0), 1, a) || exists j :: 0 <= j < Rounds(s) && Cong(Tower(b, r, j), -1, a))
  }

  /** If b^(r 2^j) is one modulo a prime, some step on the way was minus one, or b^r was
      one already. */
  lemma {:induction false} RootsDown(p: int, b: int, r: nat, j: nat)
    requires Prime(p) && Cong(Tower(b, r, j), 1, p)
    ensures Cong(Tower(b, r, 0), 1, p) || exists i :: 0 <= i < j && Cong(Tower(b, r, i), -1, p)
  {
    if j > 0 {
      var z := Tower(b, r, j - 1);
      var y := z % p;
      DivMod(z, p);
      CongMod(z, p);
      CongMul(y, z, y, z, p);
      RootsOfOne(y, p);
      if y == 1 {
        RootsDown(p, b, r, j - 1);
      } else {
        CongFrom(p - 1, -1, 1, p);
        assert Cong(Tower(b, r, j - 1), -1, p);
      }
    }
  }

  /** Every prime is a strong probable prime to every base it does not divide. */
  lemma {:induction false} PrimeIsStrong(p: int, b: nat)
    requires Prime(p) && b % p != 0
    ensures Strong(p, b)
  {
    var s := Twos(p - 1);
    var r := TwosSplit(p - 1);
    TowerIsExp(b, r, s);
    Fermat(b, p);
    RootsDown(p, b, r, s);
  }

  // ---------------------------------------------------------------- Miller-Rabin

  /** A power of a number prime to a is not divisible by a. */
  lemma {:induction false} TowerNotZero(a: int, b: nat, r: nat, j: nat)
    requires a > 1 && Coprime(a, b)
    ensures Tower(b, r, j) % a != 0
  {
    var g, u, v := Bezout(a, b);
    if g > 1 { assert Divides(g, a) && Divides(g, b); }
    CongFrom(1, v * b, u, a);
    TowerIsExp(b, r, j);
    InversePower(a, b, v, r * Pow2(j));
    DivModUnique(0, a, 0, 0);
    if Cong(Exp(b, r * Pow2(j)), 0, a) {
      CongMul(Exp(v, r * Pow2(j)), Exp(v, r * Pow2(j)), Exp(b, r * Pow2(j)), 0, a);
      DivModUnique(1, a, 0, 1);
    }
  }

  lemma {:induction false} InversePower(a: int, b: int, v: int, e: nat)
    requires a > 1 && Cong(v * b, 1, a)
    ensures Cong(Exp(v, e) * Exp(b, e), 1, a)
  {
    if e > 0 {
      InversePower(a, b, v, e - 1);
      CongMul(v * b, 1, Exp(v, e - 1) * Exp(b, e - 1), 1, a);
      Shuffle(v, b, Exp(v, e - 1), Exp(b, e - 1));
    }
  }

  lemma Shuffle(v: int, b: int, x: int, y: int)
    ensures (v * b) * (x * y) == (v * x) * (b * y)
  {
    MulAssoc(v, b, x * y);
    MulAssoc(b, x, y);
    MulAssoc(x, b, y);
    MulAssoc(v, x, b * y);
  }

  /** One that is not can run into a zero: 3^2 modulo 9, in the second of three rounds. */
  lemma ZeroTurnsUp()
    ensures Twos(9 - 1) == 3 && (9 - 1) / Pow2(3) == 1 && 1 < Rounds(3) && Tower(3, 1, 1) % 9 == 0
  {
    assert Pow2(3) == 2 * Pow2(2) && Pow2(2) == 2 * Pow2(1) && Pow2(1) == 2 * Pow2(0) && Pow2(0) == 1;
    TwosFrom(8, 3, 1);
    assert Exp(3, 1) == 3 * Exp(3, 0);
    assert Tower(3, 1, 1) == Tower(3, 1, 0) * Tower(3, 1, 0);
  }

  /** Once a power is one modulo a, the later ones are. */
  lemma {:induction false} OneStays(a: int, b: int, r: nat, j: nat, k: nat)
    requires a > 1 && j <= k && Cong(Tower(b, r, j), 1, a)
    ensures Cong(Tower(b, r, k), 1, a)
    decreases k - j
  {
    if j < k {
      OneStays(a, b, r, j, k - 1);
      var z := Tower(b, r, k - 1);
      CongMul(z, 1, z, 1, a);
    }
  }

  lemma OneIsNotMinusOne(a: int, z: int)
    requires a > 2 && Cong(z, 1, a)
    ensures !Cong(z, -1, a)
  {
    DivModUnique(1, a, 0, 1);
    DivModUnique(-1, a, -1, a - 1);
  }

  /** y stands for minus one exactly when it is a - 1. */
  lemma MinusOne(a: int, z: int)
    requires a > 1
    ensures z % a == a - 1 <==> Cong(z, -1, a)
    ensures z % a == 1 <==> Cong(z, 1, a)
  {
    DivModUnique(1, a, 0, 1);
    DivModUnique(-1, a, -1, a - 1);
  }

  /** None of the first k powers is minus one. */
  ghost predicate NoMinusOne(a: int, b: int, r: nat, k: nat)
    requires a > 1
  {
    forall i :: 0 <= i < k ==> !Cong(Tower(b, r, i), -1, a)
  }

  /** A one reached from something other than minus one: a is not strong. */
  lemma {:induction false} OneTooEarly(a: int, b: int, r: nat, s: nat, j: nat)
    requires a > 2 && s == Twos(a - 1) && r == (a - 1) / Pow2(s) && !Cong(Tower(b, r, 0), 1, a)
    requires NoMinusOne(a, b, r, j) && Cong(Tower(b, r, j), 1, a)
    ensures !Strong(a, b)
  {
    forall i | 0 <= i < Rounds(s) ensures !Cong(Tower(b, r, i), -1, a) {
      if i >= j {
        OneStays(a, b, r, j, i);
        OneIsNotMinusOne(a, Tower(b, r, i));
      }
    }
  }

  /** mp_cmp_d(y, 1) == MP_EQ, for y that is not zero. */
  method IsOne(y: MpInt) returns (r: bool)
    requires y.Trim()
    ensures y.V() != 0 ==> r == (y.V() == 1)
  {
    BaseIsLarge();
    TrimmedNegative(y);
    var o := CmpD(y, 1);
    r := o == EQ;
  }

  /** mp_sqrmod */
  method SqrMod(y: MpInt, a: MpInt)
    requires y.Trim() && a.Trim() && y != a && a.V() > 0 && y.V() >= 0
    modifies y
    ensures y.Trim() && y.V() == old(y.V()) * old(y.V()) % a.V()
  {
    hide Value;
    ghost var v: nat := y.V();
    var t := new MpInt.Init();
    Sqr(y, t);
    var ok := Mod(t, a, y);
  }

  lemma {:induction false} TowerStep(a: int, b: int, r: nat, j: nat, y: int)
    requires a > 1 && y == Tower(b, r, j) % a
    ensures y * y % a == Tower(b, r, j + 1) % a && 0 <= y < a
  {
    var z := Tower(b, r, j);
    DivMod(z, a);
    CongMod(z, a);
    CongMul(y, z, y, z, a);
  }

  lemma NotTwo(n: int)
    requires n > 1 && Twos(n - 1) > 0
    ensures n > 2
  {
  }

  /** The loop: square until minus one turns up, a one turns up, or the rounds are over. The
      answer means something when y starts as the odd power. */
  method SquareUp(a: MpInt, n1: MpInt, y: MpInt, s: nat, ghost b: nat, ghost r: nat, ghost right: bool)
    returns (result: bool)
    requires a.Trim() && n1.Trim() && y.Trim() && y !in {a, n1} && a.V() > 1 && n1.V() == a.V() - 1
    requires s == Twos(a.V() - 1) && r == (a.V() - 1) / Pow2(s) && 0 <= y.V() < a.V()
    requires right ==> y.V() == Tower(b, r, 0) % a.V()
    modifies y
    ensures right && Coprime(a.V(), b) && !Cong(Tower(b, r, 0), 1, a.V()) ==> result == Strong(a.V(), b)
  {
    hide Value, Pow2, Tower, Twos, Coprime, Strong;
    ghost var n := a.V();
    ghost var fair := right && Coprime(n, b) && !Cong(Tower(b, r, 0), 1, n);
    var j := 1;
    var o := Cmp(y, n1);
    while j <= s - 1 && o != EQ
      invariant 1 <= j <= Rounds(s) && y.Trim() && 0 <= y.V() < n && o == Compare(y.V(), n - 1)
      invariant right ==> y.V() == Tower(b, r, j - 1) % n && NoMinusOne(n, b, r, j - 1)
      decreases s - j
    {
      NotTwo(n);
      MinusOne(n, Tower(b, r, j - 1));
      if right { TowerStep(n, b, r, j - 1, y.V()); }
      SqrMod(y, a);
      if fair { TowerNotZero(n, b, r, j); }
      MinusOne(n, Tower(b, r, j));
      var one := IsOne(y);
      if one {
        if fair { OneTooEarly(n, b, r, s, j); }
        return false;
      }
      j := j + 1;
      o := Cmp(y, n1);
    }
    MinusOne(n, Tower(b, r, j - 1));
    result := o == EQ;
    if right { Verdict(n, b, r, s, j, result); }
  }

  lemma Verdict(n: int, b: int, r: nat, s: nat, j: nat, result: bool)
    requires n > 1 && s == Twos(n - 1) && r == (n - 1) / Pow2(s) && 1 <= j <= Rounds(s) && NoMinusOne(n, b, r, j - 1)
    requires result == Cong(Tower(b, r, j - 1), -1, n) && (!result ==> j >= s)
    ensures !Cong(Tower(b, r, 0), 1, n) ==> result == Strong(n, b)
  {
    hide Tower, Twos;
  }

  /** The odd part r of n1 and the number s of twos split off. */
  method OddPart(n1: MpInt) returns (r: MpInt, s: nat)
    requires n1.Trim()
    ensures fresh(r) && r.Trim() && (n1.V() >= 0 ==> r.sign == ZPOS)
    ensures n1.V() > 0 ==> s == Twos(n1.V()) && r.Mag() == n1.V() / Pow2(s)
    ensures n1.V() == 0 ==> r.Mag() == 0
  {
    hide Value, Pow2, Twos;
    r := InitCopy(n1);
    TrimmedNegative(n1);
    s := CntLsb(r);
    Div2d(r, s, r, null);
    TrimmedNegative(r);
    if n1.V() == 0 { DivModUnique(0, Pow2(s), 0, 0); }
    if n1.V() > 0 { QuotientMonotone(0, n1.V(), Pow2(s)); }
  }

  /** The odd part of n. */
  ghost function OddOf(n: nat): (r: nat)
    requires n > 0
    ensures r == n / Pow2(Twos(n))
  {
    QuotientMonotone(0, n, Pow2(Twos(n)));
    n / Pow2(Twos(n))
  }

  /** The exponentiation of a Miller-Rabin round with base b strays. */
  ghost predicate RoundStrays(a: MpInt, b: int)
    reads a
    requires a.Valid()
  {
    a.V() > 1 && StraysFor(b, OddOf(a.V() - 1), a)
  }

  /** A modulus below WORD_TERMS digits does not. */
  lemma ShortRound(a: MpInt, b: int, x: nat)
    requires a.Valid() && a.used < WORD_TERMS
    ensures !StraysFor(b, x, a)
  {
  }

  /** y = b^r mod a, where a - 1 = r 2^s, if a is exact. */
  method OddPower(a: MpInt, b: MpInt, n1: MpInt, y: MpInt) returns (ok: bool, s: nat, strayed: bool)
    requires a.Trim() && b.Trim() && n1.Trim() && y.Trim() && y !in {a, b, n1}
    requires n1.V() == a.V() - 1 && a.V() != 0 && b.V() > 1
    modifies y
    ensures ok == (a.V() > 0)
    ensures strayed == (ok && RoundStrays(a, b.V()))
    ensures ok && !strayed ==> y.Trim()
    ensures a.V() > 1 ==> s == Twos(a.V() - 1) && 0 <= (a.V() - 1) / Pow2(s)
    ensures a.V() > 1 && !strayed ==> 0 <= y.V() < a.V()
    ensures a.V() > 1 && !strayed && Exact(a) ==> y.V() == Tower(b.V(), (a.V() - 1) / Pow2(s), 0) % a.V()
    ensures a.V() == 1 && !strayed ==> y.V() == 1
  {
    hide Value, Exp, LosesFactor, LongForm, Exact, GoesMontgomery, Blurred, Agrees, Pow2, Twos, StraysFor;
    hide StartsWith;
    TrimmedNegative(a);
    OneIsShort(a);
    var r;
    r, s := OddPart(n1);
    if a.V() == 1 { ShortRound(a, b.V(), r.Mag()); }
    ghost var h;
    ok, strayed, h := Exptmod(b, r, a, y);
    if a.V() > 1 && !strayed { ResultInRange(y.V(), b.V(), r.Mag(), a); }
  }

  lemma {:induction false} ResultInRange(y: int, b: int, r: nat, a: MpInt)
    requires a.Trim() && a.V() > 1 && (Exact(a) ==> Right(y, b, r, a.V()))
    requires (LosesFactor(a) ==> Blurred(y, b, r, a.V()))
    ensures 0 <= y < a.V()
  {
    if Exact(a) { DivMod(Exp(b, r), a.V()); }
  }

  /** mp_prime_miller_rabin. It fails for a base up to one and for a negative number. For a
      base prime to a, the answer is whether a is a strong probable prime, unless mp_exptmod
      strays or loses a factor; a base that is not can make a zero turn up, of which mp_cmp_d
      reads a digit that is not there. */
  method MillerRabin(a: MpInt, b: MpInt) returns (ok: bool, result: bool, strayed: bool)
    requires a.Trim() && b.Trim() && a.V() != 0 && (b.used == 0 ==> b.dp[0] == 0)
    ensures ok == (b.V() > 1 && a.V() > 0)
    ensures strayed == (ok && RoundStrays(a, b.V()))
    ensures ok && !strayed && a.V() > 1 && Exact(a) && Coprime(a.V(), b.V()) ==> result == Strong(a.V(), b.V())
    ensures ok && !strayed && a.V() == 1 ==> result
    ensures !ok ==> !result
  {
    hide Value, Tower, Twos, Coprime, Strong, LosesFactor, LongForm, Exact, GoesMontgomery, RoundStrays;
    BaseIsLarge();
    TrimmedNegative(a);
    var o := CmpD(b, 1);
    if o != GT { return false, false, false; }
    var n1 := InitCopy(a);
    SubD(n1, 1, n1);
    var y := new MpInt.Init();
    var s;
    ok, s, strayed := OddPower(a, b, n1, y);
    if !ok { return false, false, false; }
    if strayed { return true, false, true; }
    result := Judge(a, b, n1, y, s, Exact(a));
  }

  /** From the odd power on. */
  method Judge(a: MpInt, b: MpInt, n1: MpInt, y: MpInt, s: nat, ghost right: bool) returns (result: bool)
    requires a.Trim() && b.Trim() && n1.Trim() && y.Trim() && y !in {a, b, n1}
    requires b.V() > 1 && a.V() > 0 && n1.V() == a.V() - 1
    requires a.V() > 1 ==> s == Twos(a.V() - 1) && 0 <= (a.V() - 1) / Pow2(s) && 0 <= y.V() < a.V()
    requires a.V() > 1 && right ==> y.V() == Tower(b.V(), (a.V() - 1) / Pow2(s), 0) % a.V()
    requires a.V() == 1 ==> y.V() == 1
    modifies y
    ensures a.V() > 1 && right && Coprime(a.V(), b.V()) ==> result == Strong(a.V(), b.V())
    ensures a.V() == 1 ==> result
  {
    hide Value, Tower, Coprime, Pow2, Twos;
    ghost var n, bv := a.V(), b.V();
    ghost var r: nat := if n > 1 then (n - 1) / Pow2(s) else 0;
    if n > 1 {
      MinusOne(n, Tower(bv, r, 0));
      if Coprime(n, bv) { TowerNotZero(n, bv, r, 0); }
    }
    var one := IsOne(y);
    if one { return true; }
    var o := Cmp(y, n1);
    if o == EQ { return true; }
    result := SquareUp(a, n1, y, s, bv, r, right);
  }

  // ------------------------------------------------------------ mp_prime_is_prime

  ghost predicate InTable(v: int, tab: seq<nat>) {
    exists i :: 0 <= i < |tab| && tab[i] == v
  }

  ghost predicate DividedAt(v: int, tab: seq<nat>, i: int) {
    0 <= i < |tab| && tab[i] > 0 && v % tab[i] == 0
  }

  ghost predicate SmallFactor(v: int, tab: seq<nat>) {
    exists i :: DividedAt(v, tab, i)
  }

  ghost predicate StrongTo(v: int, tab: seq<nat>, t: nat)
    requires v > 1
  {
    forall i :: 0 <= i < t && i < |tab| ==> Strong(v, tab[i])
  }

  lemma MagDivides(v: int, m: int, d: nat)
    requires d > 0 && (m == v || m == -v)
    ensures m % d == 0 <==> v % d == 0
  {
    DivMod(v, d);
    DivMod(m, d);
    if v % d == 0 { DivModUnique(-v, d, -(v / d), 0); }
    if m % d == 0 { DivModUnique(-m, d, -(m / d), 0); }
  }

  /** mp_prime_is_divisible */
  method IsDivisible(a: MpInt, tab: seq<nat>) returns (result: bool)
    requires a.Trim() && PrimesOnly(tab)
    ensures result == SmallFactor(a.V(), tab)
  {
    hide Value, Prime;
    BaseIsLarge();
    var ix := 0;
    while ix < PRIME_SIZE
      invariant 0 <= ix <= PRIME_SIZE && forall i :: 0 <= i < ix ==> !DividedAt(a.V(), tab, i)
    {
      var ok, res := DivD(a, tab[ix], null);
      MagDivides(a.V(), a.Mag(), tab[ix]);
      if res == 0 {
        assert DividedAt(a.V(), tab, ix);
        return true;
      }
      ix := ix + 1;
    }
    result := false;
  }

  /** The comparison with the whole table. */
  method EqualsSmallPrime(a: MpInt, tab: seq<nat>) returns (result: bool)
    requires a.Trim() && PrimesOnly(tab) && (a.used == 0 ==> a.dp[0] == 0)
    ensures result == InTable(a.V(), tab)
  {
    hide Value, Prime;
    BaseIsLarge();
    var ix := 0;
    while ix < PRIME_SIZE
      invariant 0 <= ix <= PRIME_SIZE && forall i :: 0 <= i < ix ==> tab[i] != a.V()
    {
      var o := CmpD(a, tab[ix]);
      if o == EQ { return true; }
      ix := ix + 1;
    }
    result := false;
  }

  /** A number that a prime does not divide is prime to it. */
  lemma CoprimeToPrime(a: int, p: nat)
    requires Prime(p) && a % p != 0
    ensures Coprime(a, p)
  {
    forall d | d > 1 ensures !(Divides(d, a) && Divides(d, p)) {
      if d > p { DivModUnique(p, d, 0, p); }
    }
  }

  /** A prime not in the table has no factor there and divides no entry. */
  lemma PrimeOutside(v: int, tab: seq<nat>, i: nat)
    requires Prime(v) && PrimesOnly(tab) && !InTable(v, tab) && i < PRIME_SIZE
    ensures !DividedAt(v, tab, i) && tab[i] % v != 0
  {
    var p := tab[i];
    if p > v { DivModUnique(v, p, 0, v); }
    if v > p { DivModUnique(p, v, 0, p); }
  }

  /** No prime is turned away. */
  lemma PrimesPass(v: int, tab: seq<nat>, t: nat)
    requires Prime(v) && PrimesOnly(tab) && !InTable(v, tab) && t <= PRIME_SIZE
    ensures !SmallFactor(v, tab) && StrongTo(v, tab, t)
  {
    hide Strong, Prime;
    PrimeIsLarge(v);
    forall i | 0 <= i < PRIME_SIZE ensures !DividedAt(v, tab, i) && Strong(v, tab[i]) {
      PrimeOutside(v, tab, i);
      PrimeIsStrong(v, tab[i]);
    }
  }

  lemma PrimeIsLarge(v: int)
    ensures Prime(v) ==> v > 1
  {
  }

  lemma OneHasNoFactor(tab: seq<nat>)
    requires PrimesOnly(tab)
    ensures !SmallFactor(1, tab)
  {
    hide Prime;
    forall i | 0 <= i < |tab| ensures !DividedAt(1, tab, i) { DivModUnique(1, tab[i], 0, 1); }
  }

  /** What trial division leaves is odd. */
  lemma OddLeft(a: MpInt, tab: seq<nat>)
    requires a.Trim() && PrimesOnly(tab) && !SmallFactor(a.V(), tab)
    ensures a.Mag() % 2 == 1 && a.V() != 0
  {
    hide Prime;
    assert !DividedAt(a.V(), tab, 0);
    MagDivides(a.V(), a.Mag(), 2);
  }

  /** An odd modulus is exact. */
  lemma {:induction false} OddIsExact(a: MpInt)
    requires a.Trim() && a.Mag() % 2 == 1
    ensures Exact(a)
  {
    hide Value, Pow2, LongForm;
    TrimmedNegative(a);
    OddIsNotLacking(a.Mag());
  }

  lemma {:induction false} OddIsNotLacking(n: nat)
    requires n % 2 == 1
    ensures !Lacking(n)
  {
    hide Pow2;
    var b := BitsOf(n);
    var h := TwoHalves(DIGIT_BIT);
    if b > 0 {
      var k := TwoHalves(b);
    }
  }

  /** One Miller-Rabin round with a base from the table. */
  method Round(a: MpInt, base: nat) returns (ok: bool, res: bool, strayed: bool)
    requires a.Trim() && a.Mag() % 2 == 1 && a.V() != 0
    requires 1 < base < 1681 && Prime(base) && a.V() % base != 0
    ensures ok == (a.V() > 0)
    ensures strayed == (ok && RoundStrays(a, base))
    ensures ok && !strayed && a.V() > 1 ==> res == Strong(a.V(), base)
    ensures ok && !strayed && a.V() == 1 ==> res
    ensures !ok ==> !res
  {
    hide Value, Strong, Prime, Coprime, Exact, LongForm, NearPower, RoundStrays;
    BaseIsLarge();
    DivModUnique(base, BASE, 0, base);
    CoprimeToPrime(a.V(), base);
    OddIsExact(a);
    var b := new MpInt.Init();
    Set(b, base);
    ok, res, strayed := MillerRabin(a, b);
  }

  /** Among the first t bases there is one whose round strays, and a passes all before it. */
  ghost predicate SomeRoundStrays(a: MpInt, tab: seq<nat>, t: nat)
    reads a
    requires a.Valid() && t <= |tab|
  {
    exists i :: 0 <= i < t && a.V() > 1 && StrongTo(a.V(), tab, i) && FirstToStray(a, tab, i)
  }

  ghost predicate FirstToStray(a: MpInt, tab: seq<nat>, i: nat)
    reads a
    requires a.Valid() && i < |tab|
  {
    RoundStrays(a, tab[i]) && forall j :: 0 <= j < i ==> !RoundStrays(a, tab[j])
  }

  /** The rounds. */
  method TestBases(a: MpInt, t: nat, tab: seq<nat>) returns (ok: bool, result: bool, strayed: bool)
    requires a.Trim() && a.Mag() % 2 == 1 && a.V() != 0
    requires PrimesOnly(tab) && !SmallFactor(a.V(), tab) && 0 < t <= PRIME_SIZE
    ensures ok == (a.V() > 0)
    ensures strayed == (ok && SomeRoundStrays(a, tab, t))
    ensures ok && !strayed && a.V() > 1 ==> result == StrongTo(a.V(), tab, t)
    ensures ok && !strayed && a.V() == 1 ==> result
    ensures !ok ==> !result
  {
    hide Value, Strong, Prime, LongForm, RoundStrays;
    ghost var v := a.V();
    OneRoundShort(a);
    ok, result, strayed := true, false, false;
    var ix := 0;
    while ix < t
      invariant 0 <= ix <= t && ok && !result && !strayed && (ix > 0 ==> v > 0) && (v > 1 ==> StrongTo(v, tab, ix))
      invariant forall j :: 0 <= j < ix ==> !RoundStrays(a, tab[j])
    {
      assert !DividedAt(v, tab, ix);
      var res;
      ok, res, strayed := Round(a, tab[ix]);
      if !ok || strayed || !res {
        if strayed { assert FirstToStray(a, tab, ix); }
        return;
      }
      ix := ix + 1;
    }
    result := true;
  }

  lemma OneRoundShort(a: MpInt)
    requires a.Valid()
    ensures forall b {:trigger RoundStrays(a, b)} :: RoundStrays(a, b) ==> a.V() > 1
  {
  }

  /** The number reaches the rounds, and one of them strays. */
  ghost predicate TestStrays(a: MpInt, tab: seq<nat>, t: nat)
    reads a
    requires a.Valid() && t <= |tab|
  {
    !InTable(a.V(), tab) && !SmallFactor(a.V(), tab) && SomeRoundStrays(a, tab, t)
  }

  /** mp_prime_is_prime with t rounds. It strays exactly when the exponentiation of a round
      does that it comes to. Otherwise every prime is accepted, and so is one; and anything
      else that is accepted has no small factor and is a strong probable prime to the first
      t bases. Below 1620^2 the answer is exact. */
  method IsPrime(a: MpInt, t: int) returns (ok: bool, result: bool, strayed: bool)
    requires a.Trim() && (a.used == 0 ==> a.dp[0] == 0)
    ensures !(0 < t <= PRIME_SIZE) ==> !ok && !result
    ensures |LTM_PRIME_TAB| == PRIME_SIZE
    ensures strayed == (0 < t <= PRIME_SIZE && TestStrays(a, LTM_PRIME_TAB, t))
    ensures 0 < t <= PRIME_SIZE && 1 < a.V() < 1620 * 1620 ==> ok && (result <==> Prime(a.V()))
    ensures 0 < t <= PRIME_SIZE && Prime(a.V()) && !strayed ==> ok && result
    ensures 0 < t <= PRIME_SIZE && a.V() == 1 ==> ok && result
    ensures 0 < t <= PRIME_SIZE && a.V() > 1 ==> ok
    ensures result && !strayed && a.V() > 1 ==>
      InTable(a.V(), LTM_PRIME_TAB) || (!SmallFactor(a.V(), LTM_PRIME_TAB) && StrongTo(a.V(), LTM_PRIME_TAB, t))
    ensures !result && ok && !strayed && a.V() > 1 ==>
      !InTable(a.V(), LTM_PRIME_TAB) && (SmallFactor(a.V(), LTM_PRIME_TAB) || !StrongTo(a.V(), LTM_PRIME_TAB, t))
  {
    hide Value, Strong, Prime, LongForm, TestStrays;
    ok, result, strayed := false, false, false;
    TableIsPrimes();
    if t <= 0 || t > PRIME_SIZE { return; }
    ok, result, strayed := IsPrimeBy(a, t, LTM_PRIME_TAB);
    if 1 < a.V() < 1620 * 1620 {
      TableIsComplete();
      SmallIsShort(a, LTM_PRIME_TAB, t);
      ExactBelow(a.V(), LTM_PRIME_TAB, t);
    }
  }

  /** The same with the table as a parameter. */
  method IsPrimeBy(a: MpInt, t: nat, tab: seq<nat>) returns (ok: bool, result: bool, strayed: bool)
    requires a.Trim() && (a.used == 0 ==> a.dp[0] == 0)
    requires PrimesOnly(tab) && 0 < t <= PRIME_SIZE
    ensures strayed == TestStrays(a, tab, t)
    ensures Prime(a.V()) && !strayed ==> ok && result
    ensures a.V() == 1 ==> ok && result && !strayed
    ensures a.V() > 1 ==> ok
    ensures a.V() > 1 && !strayed ==>
      (result <==> InTable(a.V(), tab) || (!SmallFactor(a.V(), tab) && StrongTo(a.V(), tab, t)))
  {
    hide Value, Strong, Prime, LongForm, RoundStrays;
    OneRoundShort(a);
    ok, result, strayed := true, false, false;
    TrimmedNegative(a);
    OneIsShort(a);
    PrimeIsLarge(a.V());
    if Prime(a.V()) && !InTable(a.V(), tab) { PrimesPass(a.V(), tab, t); }
    OneHasNoFactor(tab);
    var known := EqualsSmallPrime(a, tab);
    if known { return true, true, false; }
    var divisible := IsDivisible(a, tab);
    if divisible { return; }
    OddLeft(a, tab);
    ok, result, strayed := TestBases(a, t, tab);
  }

  lemma OneIsShort(a: MpInt)
    requires a.Trim()
    ensures a.V() == 1 ==> a.used == 1
  {
    if a.used != 1 { OneDigitOne(a); }
  }

  // ------------------------------------------------------------ small numbers

  lemma {:induction false} SmallIsShort(a: MpInt, tab: seq<nat>, t: nat)
    requires a.Trim() && 1 < a.V() < 1620 * 1620 && t <= |tab|
    ensures !TestStrays(a, tab, t)
  {
    hide Value, StraysFor;
    BaseIsLarge();
    TwoDigitsHold();
    UsedBound(a, 2);
    forall i | 0 <= i < t ensures !RoundStrays(a, tab[i]) {
      ShortRound(a, tab[i], OddOf(a.V() - 1));
    }
  }

  lemma TwoDigitsHold()
    ensures 1620 * 1620 < Power(2)
  {
    BaseIsLarge();
    assert Power(2) == BASE * Power(1) && Power(1) == BASE * Power(0);
    MulMonotone(1681, BASE, BASE);
  }

  /** The least divisor above one is a prime. */
  lemma {:induction false} LeastIsPrime(v: nat, d: nat)
    requires 1 < d <= v && v % d == 0 && forall e :: 1 < e < d ==> v % e != 0
    ensures Prime(d)
  {
    forall e | 1 < e < d ensures d % e != 0 {
      if d % e == 0 { DividesThrough(v, d, e); }
    }
  }

  lemma {:induction false} LeastDivisor(v: nat, d: nat) returns (p: nat)
    requires 1 < d < v && v % d == 0
    ensures 1 < p <= d && v % p == 0 && forall e :: 1 < e < p ==> v % e != 0
    decreases d
  {
    p := d;
    if e :| 1 < e < d && v % e == 0 { p := LeastDivisor(v, e); }
  }

  lemma LeastIsSmall(v: nat, p: nat)
    requires 1 < p < v && v % p == 0 && forall e :: 1 < e < p ==> v % e != 0
    ensures p * p <= v
  {
    var e := v / p;
    DivMod(v, p);
    assert v == e * p;
    if e <= 1 {
      MulMonotone(e, 1, p);
    } else {
      DivModUnique(v, e, p, 0);
      MulMonotone(p, e, p);
    }
  }

  /** A composite number has a prime divisor whose square is not larger. */
  lemma {:induction false} SmallPrimeDivisor(v: nat) returns (p: nat)
    requires v > 1 && !Prime(v)
    ensures Prime(p) && v % p == 0 && p < v && p * p <= v
  {
    var d :| 1 < d < v && v % d == 0;
    hide Prime;
    p := LeastDivisor(v, d);
    LeastIsPrime(v, p);
    LeastIsSmall(v, p);
  }

  /** With the first 256 primes for trial division, nothing composite below 1620^2 is left. */
  lemma {:induction false} ExactBelow(v: nat, tab: seq<nat>, t: nat)
    requires PrimesOnly(tab) && (forall p: nat :: Prime(p) && p <= 1619 ==> p in tab)
    requires 1 < v < 1620 * 1620 && t <= PRIME_SIZE
    ensures InTable(v, tab) || (!SmallFactor(v, tab) && StrongTo(v, tab, t)) <==> Prime(v)
  {
    hide Strong, Prime;
    if Prime(v) {
      if !InTable(v, tab) { PrimesPass(v, tab, t); }
    } else {
      var p := SmallPrimeDivisor(v);
      if p >= 1620 { MulMonotone(1620, p, 1620); MulMonotone(1620, p, p); }
      var i :| 0 <= i < |tab| && tab[i] == p;
      assert DividedAt(v, tab, i);
    }
  }
}
