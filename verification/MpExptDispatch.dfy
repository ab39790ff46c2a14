/** mp_exptmod: which exponentiation routine and which reduction a modulus gets. */
module MpExptDispatch {
  import opened Arith
  import opened Modular
  import opened MpDigits
  import opened MpInts
  import opened MpSize
  import opened MpToomParts
  import opened MpMod
  import opened MpReduce2k
  import opened MpWindow
  import opened MpRedux
  import opened MpExptmod
  import opened MpInvmod

  /** What mp_reduce_is_2k_l answers. */
  ghost predicate LongForm(p: MpInt)
    reads p
    requires p.Valid()
  {
    p.used == 1 || (p.used > 1 && MaskCount(p.dp[..p.used]) >= p.used / 2)
  }

  /** mp_exptmod_fast gets the modulus, with Montgomery reduction. */
  ghost predicate GoesMontgomery(p: MpInt)
    reads p
    requires p.Valid()
  {
    p.Mag() % 2 == 1 && !LongForm(p) && (p.used == 2 ==> !NearPower(p.Mag()))
  }

  /** n is within BASE of the next power of two. */
  ghost predicate NearPower(n: nat) {
    forall b: nat :: Bits(n, b) ==> Pow2(b) - n <= BASE
  }

  /** The modulus is taken for 2^b - d with a digit d, but d = BASE is not a digit. */
  ghost predicate LosesFactor(p: MpInt)
    reads p
    requires p.Valid()
  {
    !LongForm(p) && p.used > 1 && Lacking(p.Mag())
  }

  /** The moduli for which mp_exptmod is right, as far as the reduction goes: those that
      lose no factor, and BASE itself, of which 2^b is a multiple. */
  ghost predicate Exact(p: MpInt)
    reads p
    requires p.Valid()
  {
    LosesFactor(p) ==> p.Mag() == BASE
  }

  /** A diminished radix modulus is of the long form too, so mp_dr_reduce is never
      chosen. */
  lemma {:induction false} DiminishedIsLong(s: seq<nat>)
    requires |s| >= 1 && forall i :: 1 <= i < |s| ==> s[i] == BASE - 1
    ensures MaskCount(s) >= |s| - 1
  {
    if |s| > 1 { DiminishedIsLong(s[..|s| - 1]); }
  }

  /** Digits whose value is one below a power of two are full of ones, but for the top. */
  lemma {:induction false} OnesDigits(s: seq<nat>, m: nat, i: nat)
    requires Digits(s) && i + 1 < |s| && Value(s) == Pow2(m) - 1 && (|s| - 1) * DIGIT_BIT <= m
    ensures s[i] == BASE - 1
    decreases i
  {
    MulDistrib(|s| - 2, 1, DIGIT_BIT);
    MulNonneg(|s| - 2, DIGIT_BIT);
    ValueLow(s);
    var e := Pow2(m - DIGIT_BIT);
    Pow2Add(m - DIGIT_BIT, DIGIT_BIT);
    MulDistrib(e - 1, 1, BASE);
    BaseIsLarge();
    DivModUnique(Value(s), BASE, e - 1, BASE - 1);
    DivModUnique(Value(s), BASE, Value(s[1..]), s[0]);
    if i > 0 { OnesDigits(s[1..], m - DIGIT_BIT, i - 1); }
  }

  lemma {:induction false} OnesInside(s: seq<nat>)
    requires |s| >= 2 && forall i :: 1 <= i < |s| - 1 ==> s[i] == BASE - 1
    ensures MaskCount(s) >= |s| - 2
  {
    DiminishedIsLong(s[..|s| - 1]);
  }

  /** A modulus of three digits or more within BASE of a power of two is of the long form,
      so mp_reduce_2k only ever gets two digits. */
  lemma {:induction false} NearPowerIsLong(p: MpInt, b: nat)
    requires p.Trim() && p.used >= 3 && Bits(p.Mag(), b) && Pow2(b) - p.Mag() <= BASE
    ensures LongForm(p)
  {
    var s := p.dp[..p.used];
    var m := HighOnes(p, b);
    forall i | 1 <= i < |s| - 1 ensures s[i] == BASE - 1 { OnesDigits(s[1..], m, i - 1); }
    OnesInside(s);
  }

  lemma {:induction false} HighOnes(p: MpInt, b: nat) returns (m: nat)
    requires p.Trim() && p.used >= 2 && Bits(p.Mag(), b) && Pow2(b) - p.Mag() <= BASE
    ensures Value(p.dp[..p.used][1..]) == Pow2(m) - 1 && (p.used - 2) * DIGIT_BIT <= m
  {
    var s := p.dp[..p.used];
    DigitBitsBound(p, b);
    MulDistrib(p.used - 2, 1, DIGIT_BIT);
    MulNonneg(p.used - 2, DIGIT_BIT);
    m := b - DIGIT_BIT;
    ValueLow(s);
    Pow2Add(m, DIGIT_BIT);
    HighArith(s[0], Value(s[1..]), Pow2(m), p.Mag());
  }

  lemma {:induction false} DigitBitsBound(p: MpInt, b: nat)
    requires p.Trim() && p.used >= 2 && Bits(p.Mag(), b)
    ensures (p.used - 1) * DIGIT_BIT < b
  {
    ValueTop(p.dp[..p.used]);
    PowerIsPow2(p.used - 1);
    MulNonneg(p.used - 1, DIGIT_BIT);
    if b <= (p.used - 1) * DIGIT_BIT { Pow2Monotone(b, (p.used - 1) * DIGIT_BIT); }
  }

  // -------------------------------------------------------------- the two routines

  /** s_mp_exptmod with redmode 1. */
  method ExptmodLong(g: MpInt, x: MpInt, p: MpInt, y: MpInt)
    requires g.Trim() && x.Trim() && p.Trim() && y.Valid() && p.sign == ZPOS && p.Mag() > 0
    modifies y
    ensures y.Trim() && (old(p.V()) > 1 ==> y.V() == Exp(old(g.V()), old(x.Mag())) % old(p.V()))
    ensures old(p.V()) == 1 && old(x.used) == 0 ==> y.V() == 1
  {
    hide Value, Pow2, Pair, Exp;
    var mu := new MpInt.Init();
    Setup2kL(p, mu);
    TrimmedNegative(mu);
    var res := PowerPlain(g, x, p, TwoKLong(mu));
    ResidueIsMod(res.V(), g.V(), x.Mag(), p, TwoKLong(mu));
    Exch(res, y);
  }

  /** On plain residues, holding a power is being its residue. */
  lemma {:induction false} ResidueIsMod(v: int, g: int, e: nat, p: MpInt, red: Reducer)
    requires ResidueOf(v, g, e, p, red) && !red.Montgomery? && !FactorCut(p.Mag(), red)
    ensures p.V() > 1 ==> v == Exp(g, e) % p.V()
  {
    assert Power(0) == 1;
    if p.V() > 1 { CongSmall(v, Exp(g, e), p.V()); }
  }

  /** s_mp_exptmod with redmode 0. It fails exactly for a zero modulus. */
  method ExptmodBarrett(g: MpInt, x: MpInt, p: MpInt, y: MpInt) returns (ok: bool)
    requires g.Trim() && x.Trim() && p.Trim() && y.Valid() && p.sign == ZPOS && p.V() != 1
    modifies y
    ensures ok == (old(p.V()) != 0)
    ensures ok ==> y.Trim() && y.V() == Exp(old(g.V()), old(x.Mag())) % old(p.V())
  {
    hide Value, Pow2, Exp;
    TrimmedNegative(p);
    var mu := new MpInt.Init();
    ok := MpBarrett.ReduceSetup(mu, p);
    if !ok { return; }
    QuotientMonotone(0, Power(2 * p.used), p.V());
    TrimmedNegative(mu);
    var res := PowerPlain(g, x, p, Barrett(mu));
    ResidueIsMod(res.V(), g.V(), x.Mag(), p, Barrett(mu));
    Exch(res, y);
  }

  /** mp_exptmod_fast with redmode 2. With the factor cut, only the residue modulo BASE
      survives, and of a multiple of BASE nothing. */
  method ExptmodTwoK(g: MpInt, x: MpInt, p: MpInt, y: MpInt, ghost b: nat)
    requires g.Trim() && x.Trim() && p.Trim() && y.Valid() && p.sign == ZPOS && p.used == 2
    requires p.Mag() > 1 && Bits(p.Mag(), b) && Pow2(b) - p.Mag() <= BASE
    modifies y
    ensures y.Trim()
    ensures old(!Lacking(p.Mag())) ==> y.V() == Exp(old(g.V()), old(x.Mag())) % old(p.V())
    ensures old(Lacking(p.Mag())) ==> Blurred(y.V(), old(g.V()), old(x.Mag()), old(p.V()))
  {
    hide Value, Pow2, Exp, Pair, Blurred;
    ghost var n, gv, e := p.Mag(), g.V(), x.Mag();
    var d := Setup2k(p);
    FactorFound(n, b, d);
    var res := PowerPlain(g, x, p, TwoK(d));
    if Pair(n, d) { ResidueIsMod(res.V(), gv, e, p, TwoK(d)); }
    Exch(res, y);
  }

  /** The setup digit is the factor, or 0 where the factor is BASE. */
  lemma FactorFound(n: nat, b: nat, d: nat)
    requires Bits(n, b) && Pow2(b) - n <= BASE && d == (Pow2(b) - n) % BASE
    ensures Pair(n, d) <==> !Lacking(n)
    ensures Lacking(n) ==> d == 0
  {
    BaseIsLarge();
    SetupExact(n, b, d);
    if Pow2(b) - n == BASE {
      DivModUnique(BASE, BASE, 1, 0);
      forall q: nat | Bits(n, q) ensures Pow2(q) - n == BASE { BitsUnique(n, b, q); }
    }
  }

  // ------------------------------------------------------------------ the choice

  /** mp_mul gets g * r right for r with fewer than WORD_TERMS digits. */
  lemma {:induction false} ShortAgrees(g: int, k: nat, n: int)
    requires 0 < n < Power(k) && k < WORD_TERMS
    ensures Agrees(g, Power(k) % n)
  {
    DivMod(Power(k), n);
    NumDigitsBelow(Power(k) % n, k);
  }

  /** The result of mp_exptmod is what it should be. */
  ghost predicate Right(y: int, g: int, x: nat, p: int) {
    p > 1 && y == Exp(g, x) % p
  }

  /** mp_mul gets the first product of Montgomery exponentiation right: always for a base
      that is not negative, and for short moduli. */
  ghost predicate StartsRight(g: int, p: MpInt)
    reads p
    requires p.Valid()
  {
    GoesMontgomery(p) && g < 0 && p.used >= WORD_TERMS && p.Mag() > 0 ==> Agrees(g, Power(p.used) % p.Mag())
  }

  /** The power that is taken is that of h: g itself, except where Montgomery exponentiation
      starts from a wrong product. */
  ghost predicate Takes(g: int, h: int, p: MpInt)
    reads p
    requires p.Valid()
  {
    && (StartsRight(g, p) ==> h == g)
    && (GoesMontgomery(p) && p.V() > 0 ==> StartsWith(g, h, p.V(), p.used))
  }

  /** Taking the power x of h modulo p strays. */
  ghost predicate StraysFor(h: int, x: nat, p: MpInt)
    reads p
    requires p.Valid()
  {
    GoesMontgomery(p) && p.V() > 0 && ExptStrays(h, x, p.V(), p.used)
  }

  /** mp_exptmod, for an exponent that is not negative. It fails exactly when the modulus
      is not positive.
      - It strays exactly when the modulus goes to Montgomery reduction by WORD_TERMS digits
        or more and the sliding window multiplies two powers with short forms.
      - A run that does not stray and starts right is right for every g and x exactly when
        the modulus is exact: for any other modulus the square of BASE comes out as 0.
      - Modulo one, g^0 comes out as one. */
  method Exptmod(g: MpInt, x: MpInt, p: MpInt, y: MpInt) returns (ok: bool, strayed: bool, ghost h: int)
    requires g.Trim() && x.Trim() && p.Trim() && y.Valid() && (p.sign == ZPOS ==> x.sign == ZPOS)
    modifies y
    ensures ok == (old(p.V()) > 0)
    ensures ok ==> old(Takes(g.V(), h, p)) && strayed == old(StraysFor(h, x.Mag(), p))
    ensures !ok ==> !strayed
    ensures ok && !strayed ==> y.Trim()
    ensures !strayed && old(p.V()) > 1 && old(Exact(p)) ==> Right(y.V(), h, old(x.Mag()), old(p.V()))
    ensures !strayed && old(p.V()) > 1 && old(LosesFactor(p)) ==> Blurred(y.V(), old(g.V()), old(x.Mag()), old(p.V()))
    ensures !strayed && old(p.V()) > 1 && !old(Exact(p)) && old(g.V()) == BASE && old(x.Mag()) == 2 ==>
      y.V() == 0 && !Right(y.V(), old(g.V()), old(x.Mag()), old(p.V()))
    ensures old(p.V()) == 1 && old(x.Mag()) == 0 && !strayed ==> y.V() == 1
  {
    hide Value, Power, Exp, Pow2, Lacking, Blurred, Agrees, NearPower, ExptStrays, StartsWith;
    TrimmedNegative(p);
    TrimmedNegative(x);
    strayed, h := false, g.V();
    if p.sign == NEG { return false, false, h; }
    var long := Is2kL(p);
    if long {
      ExptmodLong(g, x, p, y);
      return true, false, h;
    }
    ok, strayed, h := ExptmodOther(g, x, p, y);
  }

  /** The moduli that are not of the long form. */
  method ExptmodOther(g: MpInt, x: MpInt, p: MpInt, y: MpInt) returns (ok: bool, strayed: bool, ghost h: int)
    requires g.Trim() && x.Trim() && p.Trim() && y.Valid() && p.sign == ZPOS && x.sign == ZPOS && !LongForm(p)
    modifies y
    ensures ok == (old(p.V()) > 0)
    ensures ok ==> old(Takes(g.V(), h, p)) && strayed == old(StraysFor(h, x.Mag(), p))
    ensures !ok ==> !strayed
    ensures ok ==> old(p.V()) > 1 && (!strayed ==> y.Trim())
    ensures ok && !strayed && old(Exact(p)) ==> Right(y.V(), h, old(x.Mag()), old(p.V()))
    ensures ok && !strayed && old(LosesFactor(p)) ==> Blurred(y.V(), old(g.V()), old(x.Mag()), old(p.V()))
    ensures ok && !strayed && !old(Exact(p)) && old(g.V()) == BASE && old(x.Mag()) == 2 ==>
      y.V() == 0 && !Right(y.V(), old(g.V()), old(x.Mag()), old(p.V()))
  {
    hide Value, Power, Exp, Pow2, Lacking, Blurred, Agrees, NearPower, ExptStrays, StartsWith;
    TrimmedNegative(p);
    TrimmedNegative(x);
    strayed, h := false, g.V();
    var dr := DrIsModulus(p);
    if p.used >= 2 && dr { DiminishedIsLong(p.dp[..p.used]); }
    OneDigitOne(p);
    var twok := Is2k(p);
    if p.used > 0 { TwoKMeans(p, twok); }
    if twok {
      ghost var n, gv, xv := p.Mag(), g.V(), x.Mag();
      ghost var b := BitsOf(n);
      ghost var lacking := LosesFactor(p);
      if lacking { LackingIsCut(p); }
      ExptmodTwoK(g, x, p, y, b);
      if lacking { BlurredMeans(y.V(), gv, xv, n); }
      return true, false, h;
    }
    var odd := IsOdd(p);
    if odd {
      ok, strayed, h := ExptmodMontgomery(g, x, p, y);
    } else {
      ok := ExptmodBarrett(g, x, p, y);
    }
  }

  /** What mp_reduce_is_2k's answer means for a modulus that is not of the long form. */
  lemma {:induction false} TwoKMeans(p: MpInt, twok: bool)
    requires p.Trim() && p.used > 1 && !LongForm(p)
    requires forall b: nat :: Bits(p.Mag(), b) ==> (twok <==> Pow2(b) - p.Mag() <= BASE)
    ensures twok ==>
      p.used == 2 && NearPower(p.Mag()) && forall b: nat :: Bits(p.Mag(), b) ==> Pow2(b) - p.Mag() <= BASE
    ensures !twok ==> !NearPower(p.Mag()) && !Lacking(p.Mag())
  {
    TrimmedNegative(p);
    var b := BitsOf(p.Mag());
    if twok && p.used >= 3 { NearPowerIsLong(p, b); }
  }

  /** mp_exptmod_fast with redmode 0. */
  method ExptmodMontgomery(g: MpInt, x: MpInt, p: MpInt, y: MpInt) returns (ok: bool, strayed: bool, ghost h: int)
    requires g.Trim() && x.Trim() && p.Trim() && y.Valid() && p.sign == ZPOS && p.V() > 1 && p.V() % 2 == 1
    requires GoesMontgomery(p)
    modifies y
    ensures ok && old(Takes(g.V(), h, p)) && strayed == old(StraysFor(h, x.Mag(), p))
    ensures !strayed ==> y.Trim() && y.V() == Exp(h, old(x.Mag())) % old(p.V())
  {
    hide Value, Exp, Agrees, LongForm, NearPower, Pow2, ExptStrays;
    TrimmedNegative(p);
    DivMod(Power(p.used), p.V());
    if p.used < WORD_TERMS {
      ValueBound(p.dp[..p.used]);
      ShortAgrees(g.V(), p.used, p.V());
    }
    if g.V() >= 0 { NaturalAgrees(g.V(), Power(p.used) % p.V()); }
    ok, strayed, h := ExptmodFast(g, x, p, y);
  }

  lemma NaturalAgrees(x: int, y: int)
    requires x >= 0 && y >= 0
    ensures Agrees(x, y)
  {
  }

  /** The number one has one digit. */
  lemma {:induction false} OneDigitOne(p: MpInt)
    requires p.Trim() && p.used != 1
    ensures p.Mag() != 1
  {
    if p.used > 1 {
      ValueTop(p.dp[..p.used]);
      PowerMonotone(1, p.used - 1);
      BaseIsLarge();
      assert Power(1) == BASE * Power(0);
    } else {
      TrimmedNegative(p);
    }
  }

  // ------------------------------------------------------------- a run that strays

  lemma {:induction false} EvenPowerOfTwo(t: nat)
    ensures Pow2(2 * t) % 3 == 1
  {
    if t == 0 {
      assert Pow2(0) == 1;
    } else {
      EvenPowerOfTwo(t - 1);
      assert Pow2(2 * t) == 2 * Pow2(2 * t - 1) && Pow2(2 * t - 1) == 2 * Pow2(2 * t - 2);
    }
  }

  lemma ThirdOf(b: nat)
    requires b % 3 == 1 && b > 3
    ensures 3 * ((b - 1) / 3) == b - 1 && (b - 1) / 3 < b - 1
  {
  }

  /** A digit with every other bit set, a third of the mask. */
  function Third(): (d: nat)
    ensures 3 * d == BASE - 1 && d < BASE - 1
  {
    EvenPowerOfTwo(DIGIT_BIT / 2);
    BaseIsLarge();
    ThirdOf(BASE);
    (BASE - 1) / 3
  }

  lemma {:induction false} ThirdValue(s: seq<nat>)
    requires forall i :: 0 <= i < |s| ==> s[i] == Third()
    ensures 3 * Value(s) == Power(|s|) - 1 && MaskCount(s) == 0
  {
    hide Third;
    if s != [] {
      ThirdValue(s[..|s| - 1]);
      var r := Power(|s| - 1);
      MulAssoc(3, Third(), r);
      MulSum(BASE, 3 * Third(), 1, r);
    }
  }

  lemma OddThird(n: int, h: int)
    requires 3 * n == 2 * h - 1
    ensures n % 2 == 1
  {
  }

  lemma {:induction false} ThirdForm(n: int, k: nat)
    requires 3 * n == Power(k) - 1 && 0 < k && k + 2 < MP_WARRAY
    ensures n > 2 && n % 2 == 1 && ShortForm(2, k, n)
  {
    hide Power, Pow2;
    PowerIsLarge(k);
    var h := PowerHalf(k);
    OddThird(n, h);
    var r := Power(k);
    DivModUnique(2 * r, n, 6, 2);
    assert Exp(2, 1) == 2 * Exp(2, 0);
    TwoIsDigit();
  }

  lemma TwoIsDigit()
    ensures NumDigits(2) == 1
  {
    BaseIsLarge();
    DivModUnique(2, BASE, 0, 2);
  }

  lemma {:induction false} PowerHalf(k: nat) returns (h: nat)
    requires k > 0
    ensures Power(k) == 2 * h
  {
    MulMonotone(1, k, DIGIT_BIT);
    PowerIsPow2(k);
    h := TwoHalves(k * DIGIT_BIT);
  }

  lemma {:induction false} PowerIsLarge(k: nat)
    requires k > 0
    ensures Power(k) > 8
  {
    hide Pow2;
    BaseIsLarge();
    PowerMonotone(1, k);
    assert Power(1) == BASE * Power(0) && Power(0) == 1;
  }

  /** A modulus for which g = 2 strays: WORD_TERMS digits with every other bit set. */
  lemma {:induction false} StrayExample(p: MpInt)
    requires p.Valid() && p.sign == ZPOS && p.used == WORD_TERMS
    requires forall i :: 0 <= i < p.used ==> p.dp[i] == Third()
    ensures p.Trim() && p.V() > 1 && GoesMontgomery(p) && forall x: nat :: StraysFor(2, x, p)
  {
    hide Value, Power, Third, ShortForm, ExptStrays;
    BaseIsLarge();
    ThirdValue(p.dp[..p.used]);
    ThirdForm(p.Mag(), p.used);
    ValueBound(p.dp[..p.used]);
    forall x: nat ensures StraysFor(2, x, p) { ShortFormStrays(2, x, p.V(), p.used); }
  }

  lemma PairsOfThree()
    ensures Pairs(3) == {Factors(2, 1), Factors(0, 3)}
  {
    assert BitLength(3) == 2 && BitLength(1) == 1;
    assert Pow2(1) == 2 * Pow2(0);
    assert Top(3, 0) == 3 && Top(3, 1) == 1 && Top(3, 2) == 0;
    assert Field(3, 2, 1) == 1 && Field(3, 2, 2) == 3 && ShiftUp(0, 1) == 0 && ShiftUp(0, 2) == 0;
    assert Windows(3, 2, 2) == {Factors(0, 3)} + Windows(3, 0, 2);
    assert TablePairs(2) == {Factors(2, 1)};
  }

  lemma {:induction false} SteadyModulus(n: int, k: nat) returns (u: nat)
    requires 4 * n == 3 * Power(k) + 4 && k > 0
    ensures Power(k) == 8 * u && n == 6 * u + 1 && u >= 1000 && Power(k - 1) <= u
  {
    hide Pow2;
    var b := Pow2(DIGIT_BIT - 3);
    assert BASE == 8 * b && b >= 1000 by { DigitByEight(); }
    u := b * Power(k - 1);
    assert Power(k) == BASE * Power(k - 1);
    MulAssoc(8, b, Power(k - 1));
    PowerMonotone(0, k - 1);
    MulMonotone(1000, b, Power(k - 1));
  }

  lemma DigitByEight()
    ensures BASE == 8 * Pow2(DIGIT_BIT - 3) && Pow2(DIGIT_BIT - 3) >= 1000
  {
    var d: nat := DIGIT_BIT;
    assert Pow2(d) == 2 * Pow2(d - 1) && Pow2(d - 1) == 2 * Pow2(d - 2) && Pow2(d - 2) == 2 * Pow2(d - 3);
    BaseIsLarge();
    TenBits();
    Pow2Monotone(10, d - 3);
  }

  lemma TenBits()
    ensures Pow2(10) == 1024
  {
    assert Pow2(5) == 32;
    Pow2Add(5, 5);
  }

  /** The forms of the first powers of 3 are all nearly as long as the modulus. */
  lemma {:induction false} SteadyForm(n: int, k: nat, u: nat, e: nat)
    requires Power(k) == 8 * u && n == 6 * u + 1 && u >= 1000 && 0 < k && Power(k - 1) <= u && e <= 3
    ensures NumDigits(FormOfPower(3, e, n, k)) >= k
  {
    hide Pow2, Power, NumDigits;
    var r, v := Power(k), FormOfPower(3, e, n, k);
    assert Exp(3, 0) == 1 && Exp(3, 1) == 3 * Exp(3, 0) && Exp(3, 2) == 3 * Exp(3, 1) && Exp(3, 3) == 3 * Exp(3, 2);
    if e == 0 { DivModUnique(r, n, 1, r - n); }
    if e == 1 { DivModUnique(3 * r, n, 3, n - 4); }
    if e == 2 { DivModUnique(9 * r, n, 11, n - 12); }
    if e == 3 { DivModUnique(27 * r, n, 35, n - 36); }
    NumDigitsBelow(v, k - 1);
  }

  /** One for which 3^3 does not: three quarters of BASE^k, and one. The form of 3 is four
      less than the modulus, and so on. */
  lemma {:induction false} SteadyExample(n: int, k: nat)
    requires 4 * n == 3 * Power(k) + 4 && k >= WORD_TERMS
    ensures n > 1 && n % 2 == 1 && !ExptStrays(3, 3, n, k)
  {
    hide Pow2, Power, FormOfPower, NumDigits, Pairs;
    var u := SteadyModulus(n, k);
    SteadyForm(n, k, u, 0);
    SteadyForm(n, k, u, 1);
    SteadyForm(n, k, u, 2);
    SteadyForm(n, k, u, 3);
    PairsOfThree();
  }

  // ------------------------------------------------------------- the lost factor

  lemma {:induction false} OddTimesOdd(c: nat, q: nat)
    requires c % 2 == 1 && q % 2 == 1
    ensures c * q % 2 == 1
  {
    var i, j := c / 2, q / 2;
    var k := i * j;
    MulSum(c, 2 * i, 1, q);
    MulAssoc(2, i, q);
    MulSum(q, 2 * j, 1, i);
    MulAssoc(2, j, i);
  }

  /** An odd factor of a power of two is one. */
  lemma {:induction false} OddFactor(c: nat, q: nat, t: nat)
    requires c % 2 == 1 && c * q == Pow2(t)
    ensures c == 1
    decreases t
  {
    if t == 0 {
      if c > 1 && q >= 1 { MulMonotone(2, c, q); }
    } else if q % 2 == 0 {
      assert c * q == 2 * (c * (q / 2)) by { MulAssoc(c, q / 2, 2); }
      OddFactor(c, q / 2, t - 1);
    } else {
      OddTimesOdd(c, q);
    }
  }

  /** A modulus (e - 1) * BASE that divides the square of BASE divides it BASE / (e - 1)
      times. */
  lemma {:induction false} CommonFactor(e: nat, n: nat, q: nat)
    requires e >= 1 && n == (e - 1) * BASE && q * n == BASE * BASE
    ensures (e - 1) * q == BASE
  {
    BaseIsLarge();
    var m := (e - 1) * q;
    assert m * BASE == q * n by { MulAssoc(q, e - 1, BASE); }
    if m < BASE { MulMonotone(m + 1, BASE, BASE); MulDistrib(m, 1, BASE); }
    if m > BASE { MulMonotone(BASE + 1, m, BASE); MulDistrib(BASE, 1, BASE); }
  }

  /** n does not divide the square of BASE, unless it is BASE. */
  lemma {:induction false} SquareIsLeft(n: nat, b: nat)
    requires Bits(n, b) && b > DIGIT_BIT && n + BASE == Pow2(b) && n != BASE
    ensures n > 0 && BASE * BASE % n != 0
  {
    hide Pow2;
    var e := Pow2(b - DIGIT_BIT);
    TopPower(b, n, e);
    BaseIsLarge();
    if BASE * BASE % n == 0 {
      var q := BASE * BASE / n;
      DivMod(BASE * BASE, n);
      QuotientMonotone(0, BASE * BASE, n);
      CommonFactor(e, n, q);
      OddFactor(e - 1, q, DIGIT_BIT);
    }
  }

  lemma {:induction false} TopPower(b: nat, n: nat, e: nat)
    requires b > DIGIT_BIT && n + BASE == Pow2(b) && e == Pow2(b - DIGIT_BIT)
    ensures e >= 1 && n == (e - 1) * BASE && (e - 1) % 2 == 1 && n > 0
  {
    hide Pow2;
    BaseIsLarge();
    Pow2Add(b - DIGIT_BIT, DIGIT_BIT);
    var h := TwoHalves(b - DIGIT_BIT);
    TopFactor(n, e, h, BASE);
  }

  lemma {:induction false} TwoHalves(k: nat) returns (h: nat)
    requires k > 0
    ensures Pow2(k) == 2 * h && h >= 1
  {
    h := Pow2(k - 1);
    Pow2Monotone(0, k - 1);
  }

  lemma {:induction false} TopFactor(n: int, e: int, h: int, w: int)
    requires h >= 1 && e == 2 * h && w > 0 && n + w == e * w
    ensures n == (e - 1) * w && (e - 1) % 2 == 1 && n > 0
  {
    MulSum(e, e - 1, 1, w);
    MulMonotone(1, e - 1, w);
  }

  /** What the cut factor does to the result: right modulo BASE, and wrong for the square
      of BASE unless the modulus is BASE. */
  lemma {:induction false} BlurredMeans(y: int, g: int, x: nat, n: nat)
    requires n > 1 && CutModulus(n) && Lacking(n) && Blurred(y, g, x, n)
    ensures n == BASE ==> Right(y, g, x, n)
    ensures n != BASE && g == BASE && x == 2 ==> y == 0 && !Right(y, g, x, n)
  {
    BaseIsLarge();
    if n == BASE { CongSmall(y, Exp(g, x), BASE); }
    if n != BASE && g == BASE && x == 2 {
      DivModUnique(BASE, BASE, 1, 0);
      var b := BitsOf(n);
      if b <= DIGIT_BIT { Pow2Monotone(b, DIGIT_BIT); }
      SquareIsLeft(n, b);
      assert Exp(g, 2) == g * Exp(g, 1) && Exp(g, 1) == g * Exp(g, 0);
    }
  }
}
