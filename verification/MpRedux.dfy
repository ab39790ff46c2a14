/** The reductions that modular exponentiation chooses from, behind one interface. */
module MpRedux {
  import opened Arith
  import opened Modular
  import opened MpDigits
  import opened MpInts
  import opened MpMulDigs
  import opened MpSize
  import opened MpToomParts
  import opened MpMul
  import opened MpMontgomery
  import opened MpMod
  import opened MpReduce2k
  import opened MpWindow
  import MpBarrett

  /** Which reduction, with the value its setup computes. */
  datatype Reducer = Montgomery(rho: nat) | TwoK(d: nat) | TwoKLong(mu: MpInt) | Barrett(mu: MpInt)

  /** The number a reducer keeps for itself. */
  function Aux(red: Reducer): set<MpInt> {
    if red.TwoKLong? || red.Barrett? then {red.mu} else {}
  }

  ghost predicate Apart(v: MpInt, p: MpInt, red: Reducer) {
    v != p && v !in Aux(red)
  }

  /** Montgomery reduction row by row, for a modulus too long for the comba form. It takes
      in the digits above the number it reduces. */
  predicate Baseline(red: Reducer, used: nat) {
    red.Montgomery? && used >= WORD_TERMS
  }

  /** How many digits of scaling the residues carry: those of the modulus in Montgomery
      form, none otherwise. */
  ghost function Carried(red: Reducer, used: nat): nat {
    if red.Montgomery? then used else 0
  }

  /** The factor of mp_reduce_2k was BASE and has been cut to the digit 0. */
  ghost predicate FactorCut(n: nat, red: Reducer) {
    red.TwoK? && !Pair(n, red.d)
  }

  /** The modulus suits the reduction, and the setup value belongs to it. */
  ghost predicate Modulus(p: MpInt, red: Reducer)
    reads p, Aux(red)
  {
    && p.Trim() && p.sign == ZPOS && p.Mag() > 0 && p !in Aux(red)
    && match red
       case Montgomery(rho) => p.V() > 1 && p.V() % 2 == 1 && Suits(rho, p.dp[..p.used])
       case TwoK(d) => d < BASE && (Pair(p.Mag(), d) || (d == 0 && p.used == 2 && Lacking(p.Mag())))
       case TwoKLong(mu) => mu.Trim() && mu.sign == ZPOS && Pair(p.Mag(), mu.Mag())
       case Barrett(mu) => p.V() > 1 && MpBarrett.Barrett(p, mu)
  }

  // ------------------------------------------------------------- what residues hold

  /** Residues lie below the modulus, except that a one may stand unreduced modulo one. */
  function Ceiling(n: int): int { if n == 1 then 2 else n }

  /** v is a scaled by BASE^k modulo n. */
  ghost predicate Form(v: int, a: int, n: int, k: nat)
    requires n > 0
  {
    0 <= v < Ceiling(n) && Cong(v, a * Power(k), n)
  }

  /** What is left of g^e when the factor of the reduction is cut: it agrees modulo BASE
      only, and for a multiple of BASE nothing is left from the square on. */
  ghost predicate Blurred(v: int, g: int, e: nat, n: int)
    requires n > 0
  {
    && 0 <= v < n && Cong(v, Exp(g, e), BASE)
    && (g % BASE == 0 ==> (e == 0 ==> v == 1) && (e == 1 ==> v == g % n) && (e >= 2 ==> v == 0))
  }

  /** v holds g^e modulo p as the reduction keeps it. */
  ghost predicate HoldsPower(v: MpInt, g: int, e: nat, p: MpInt, red: Reducer)
    reads v, p
  {
    && p.Trim() && p.V() > 0 && v.Trim() && (Baseline(red, p.used) ==> v.ClearAbove())
    && if FactorCut(p.Mag(), red) then Blurred(v.V(), g, e, p.V())
       else Form(v.V(), Exp(g, e), p.V(), Carried(red, p.used))
  }

  /** Reducing a product of two forms gives the form of the product. */
  lemma {:induction false} FormProduct(y: int, u: int, v: int, a: int, b: int, n: int, k: nat)
    requires n > 0 && (k == 0 || n % 2 == 1) && Form(u, a, n, k) && Form(v, b, n, k) && Reduced(y, u * v, n, k)
    ensures Form(y, a * b, n, k)
  {
    var r := Power(k);
    CongMul(u, a * r, v, b * r, n);
    if k == 0 {
      assert r == 1;
    } else {
      assert (a * r) * (b * r) == a * b * r * r by {
        Regroup2(a, r, b, r);
        MulAssoc(a * b, r, r);
      }
      CancelPower(y, a * b * r, n, k);
    }
  }

  /** A power of the base cancels modulo an odd number. */
  lemma {:induction false} CancelPower(y: int, d: int, n: int, k: nat)
    requires n > 0 && n % 2 == 1 && Cong(y * Power(k), d * Power(k), n)
    ensures Cong(y, d, n)
  {
    var r := Power(k);
    CongAdd(y * r, d * r, d * r, d * r, n);
    MulDistrib(y, -d, r);
    assert (-d) * r == -(d * r);
    PowerIsPow2(k);
    CancelPow2(y - d, k * DIGIT_BIT, n);
    CongAdd(y - d, 0, d, d, n);
  }

  /** Reducing a form gives the number back. */
  lemma {:induction false} FormUndone(y: int, v: int, a: int, n: int, k: nat)
    requires n > 0 && n % 2 == 1 && Form(v, a, n, k) && Reduced(y, v, n, k)
    ensures y == a % n
  {
    CancelPower(y, a, n, k);
    CongSmall(y, a, n);
  }

  // --------------------------------------------------------------- the cut factor

  /** What a modulus with a cut factor is like. */
  ghost predicate CutModulus(n: int) {
    n >= BASE && n % BASE == 0 && BASE * BASE % (n + BASE) == 0
  }

  lemma {:induction false} LackingIsCut(p: MpInt)
    requires p.Trim() && p.used == 2 && Lacking(p.Mag())
    ensures CutModulus(p.Mag())
  {
    hide Value, Pow2;
    TrimmedNegative(p);
    var b := BitsOf(p.Mag());
    TwoDigits(p);
    TwoDigitBits(p.Mag(), b);
    CutFromBits(p.Mag(), b);
  }

  lemma {:induction false} TwoDigits(p: MpInt)
    requires p.Trim() && p.used == 2
    ensures BASE <= p.Mag() < BASE * BASE
  {
    ValueTop(p.dp[..2]);
    ValueBound(p.dp[..2]);
    assert Power(1) == BASE * Power(0) && Power(2) == BASE * Power(1);
  }

  lemma {:induction false} TwoDigitBits(n: nat, b: nat)
    requires Bits(n, b) && BASE <= n < BASE * BASE
    ensures DIGIT_BIT < b <= 2 * DIGIT_BIT && BASE * BASE == Pow2(2 * DIGIT_BIT)
  {
    Pow2Add(DIGIT_BIT, DIGIT_BIT);
    if b <= DIGIT_BIT { Pow2Monotone(b, DIGIT_BIT); }
    if b > 2 * DIGIT_BIT { Pow2Monotone(2 * DIGIT_BIT, b - 1); }
  }

  lemma {:induction false} CutFromBits(n: nat, b: nat)
    requires DIGIT_BIT < b <= 2 * DIGIT_BIT && n + BASE == Pow2(b) && BASE * BASE == Pow2(2 * DIGIT_BIT) && n >= BASE
    ensures CutModulus(n)
  {
    hide Pow2;
    var e, f := Pow2(b - DIGIT_BIT), Pow2(2 * DIGIT_BIT - b);
    assert Pow2(b) == e * BASE by { Pow2Add(b - DIGIT_BIT, DIGIT_BIT); }
    assert BASE * BASE == f * Pow2(b) by { Pow2Add(2 * DIGIT_BIT - b, b); }
    BaseIsLarge();
    MulDistrib(e - 1, 1, BASE);
    DivModUnique(n, BASE, e - 1, 0);
    DivModUnique(BASE * BASE, n + BASE, f, 0);
  }

  lemma {:induction false} BitsOf(n: nat) returns (b: nat)
    requires n > 0
    ensures Bits(n, b)
  {
    if n == 1 {
      b := 1;
      assert Pow2(0) == 1;
    } else {
      b := BitsOf(n / 2);
      b := b + 1;
      assert Pow2(b) == 2 * Pow2(b - 1) && Pow2(b - 1) == 2 * Pow2(b - 2);
    }
  }

  /** Taking a residue modulo a multiple of c first makes no difference modulo c. */
  lemma ModMultiple(x: int, t: int, c: int)
    requires 0 < t && 0 < c && t % c == 0
    ensures Cong(x % t, x, c)
  {
    DivMod(x, t);
    DivMod(t, c);
    MulAssoc(x / t, t / c, c);
    ModAddMultiple(x % t, x / t * (t / c), c);
  }

  lemma {:induction false} BlurredProduct(y: int, u: int, v: int, g: int, d: nat, e: nat, n: int)
    requires n > 0 && CutModulus(n) && Blurred(u, g, d, n) && Blurred(v, g, e, n) && y == u * v % (n + BASE) % n
    ensures Blurred(y, g, d + e, n)
  {
    BaseIsLarge();
    var t := n + BASE;
    ModAddMultiple(n, 1, BASE);
    ModMultiple(u * v, t, BASE);
    ModMultiple(u * v % t, n, BASE);
    CongMul(u, Exp(g, d), v, Exp(g, e), BASE);
    ExpAdd(g, d, e);
    DivMod(u * v % t, n);
    if g % BASE == 0 { BlurredZero(y, u, v, g, d, e, n); }
  }

  lemma {:induction false} BlurredZero(y: int, u: int, v: int, g: int, d: nat, e: nat, n: int)
    requires n > 0 && CutModulus(n) && Blurred(u, g, d, n) && Blurred(v, g, e, n) && y == u * v % (n + BASE) % n
    requires g % BASE == 0
    ensures (d + e == 0 ==> y == 1) && (d + e == 1 ==> y == g % n) && (d + e >= 2 ==> y == 0)
  {
    BaseIsLarge();
    var t := n + BASE;
    if d == 0 || e == 0 {
      var w := if d == 0 then v else u;
      DivModUnique(w, t, 0, w);
      DivModUnique(w, n, 0, w);
    } else {
      MultipleOfBase(u, g, d, n);
      MultipleOfBase(v, g, e, n);
      var i, j := u / BASE, v / BASE;
      DivMod(u, BASE);
      DivMod(v, BASE);
      Regroup2(i, BASE, j, BASE);
      var c := BASE * BASE / t;
      DivMod(BASE * BASE, t);
      MulAssoc(i * j, c, t);
      DivModUnique(u * v, t, i * j * c, 0);
      DivModUnique(0, n, 0, 0);
    }
  }

  lemma {:induction false} MultipleOfBase(v: int, g: int, e: nat, n: int)
    requires n > 0 && CutModulus(n) && Blurred(v, g, e, n) && g % BASE == 0 && e > 0
    ensures v % BASE == 0
  {
    BaseIsLarge();
    if e == 1 { ModMultiple(g, n, BASE); } else { DivModUnique(0, BASE, 0, 0); }
  }

  // -------------------------------------------------------------------- reducing

  /** Any product of two residues can be reduced. */
  lemma {:induction false} ProductReducible(u: int, v: int, n: seq<nat>)
    requires Digits(n) && 0 <= u < Value(n) && 0 <= v < Value(n)
    ensures 0 <= u * v < Value(n) * Power(|n|) && u * v < Value(n) * Value(n)
  {
    ValueBound(n);
    MulNonneg(u, v);
    MulMonotone(u, Value(n), v);
    MulMonotone(v + 1, Power(|n|), Value(n));
    MulMonotone(v + 1, Value(n), Value(n));
    MulDistrib(v, 1, Value(n));
  }

  /** redux: c modulo p, for a product c of two residues. */
  method Redux(c: MpInt, p: MpInt, red: Reducer, ghost u: int, ghost v: int)
    requires Modulus(p, red) && Apart(c, p, red) && c.Trim() && c.sign == ZPOS && c.V() == u * v
    requires 0 <= u < Ceiling(p.V()) && 0 <= v < Ceiling(p.V()) && (Baseline(red, p.used) ==> c.ClearAbove())
    modifies c
    ensures c.Trim() && (Baseline(red, p.used) ==> c.ClearAbove())
    ensures !FactorCut(p.Mag(), red) ==> Reduced(c.V(), u * v, p.V(), Carried(red, p.used))
    ensures FactorCut(p.Mag(), red) ==> c.V() == u * v % (p.V() + BASE) % p.V()
  {
    hide Value, Pair, Lacking;
    ghost var n := p.V();
    if n > 1 { ProductReducible(u, v, p.dp[..p.used]); }
    DivMod(u * v, n);
    CongMod(u * v, n);
    PlainResidue(u * v % n, u * v, n);
    match red
    case Montgomery(rho) => ReduxMontgomery(c, p, rho);
    case TwoK(d) => Reduce2k(c, p, d);
    case TwoKLong(mu) => Reduce2kL(c, p, mu);
    case Barrett(mu) => MpBarrett.Reduce(c, p, mu);
  }

  /** The choice that mp_exptmod_fast makes once for all. */
  method ReduxMontgomery(c: MpInt, p: MpInt, rho: nat)
    requires Reducible(c, p, rho) && (p.used >= WORD_TERMS ==> c.ClearAbove())
    modifies c
    ensures c.Trim() && Reduced(c.V(), old(c.V()), p.V(), p.used) && (p.used >= WORD_TERMS ==> c.ClearAbove())
  {
    if p.used < WORD_TERMS {
      FastReduce(c, p, rho);
    } else {
      Reduce(c, p, rho);
    }
  }

  lemma {:induction false} PlainResidue(y: int, x: int, n: int)
    requires n > 0 && y == x % n && 0 <= y < n && Cong(x, y, n)
    ensures Reduced(y, x, n, 0)
  {
    assert Power(0) == 1;
  }

  /** Reducing the product of what holds g^d and what holds g^e. */
  method ReduxProduct(c: MpInt, p: MpInt, red: Reducer, ghost u: int, ghost v: int, ghost g: int, ghost d: nat,
                      ghost e: nat)
    requires Modulus(p, red) && Apart(c, p, red) && c.Trim() && c.sign == ZPOS && c.V() == u * v
    requires Baseline(red, p.used) ==> c.ClearAbove()
    requires ResidueOf(u, g, d, p, red) && ResidueOf(v, g, e, p, red)
    modifies c
    ensures HoldsPower(c, g, d + e, p, red)
  {
    hide Value, Pair, Lacking, Blurred, Form, Exp;
    ghost var n, k := p.V(), Carried(red, p.used);
    ResidueRange(u, g, d, p, red);
    ResidueRange(v, g, e, p, red);
    Redux(c, p, red, u, v);
    ExpAdd(g, d, e);
    if FactorCut(p.Mag(), red) {
      LackingIsCut(p);
      BlurredProduct(c.V(), u, v, g, d, e, n);
    } else {
      FormProduct(c.V(), u, v, Exp(g, d), Exp(g, e), n, k);
    }
  }

  /** The number v is g^e modulo p as the reduction keeps it. */
  ghost predicate ResidueOf(v: int, g: int, e: nat, p: MpInt, red: Reducer)
    reads p
  {
    p.Trim() && p.V() > 0
    && if FactorCut(p.Mag(), red) then Blurred(v, g, e, p.V()) else Form(v, Exp(g, e), p.V(), Carried(red, p.used))
  }

  lemma ResidueRange(v: int, g: int, e: nat, p: MpInt, red: Reducer)
    requires ResidueOf(v, g, e, p, red)
    ensures 0 <= v < Ceiling(p.V())
  {
  }

  /** The product would be reduced together with a digit that nothing has written. */
  predicate Strays(m: nat, n: nat, red: Reducer, used: nat) {
    Baseline(red, used) && Comba(m, n)
  }

  /** What stands for the power e of g modulo n, in Montgomery form with k digits. */
  ghost function FormOfPower(g: int, e: nat, n: int, k: nat): (v: nat)
    requires n > 0
    ensures v < n && Cong(v, Exp(g, e) * Power(k), n)
  {
    DivMod(Exp(g, e) * Power(k), n);
    CongMod(Exp(g, e) * Power(k), n);
    Exp(g, e) * Power(k) % n
  }

  /** These two are short enough for the comba multiplier. */
  ghost predicate ShortFactors(q: Factors, g: int, n: int, k: nat)
    requires n > 0
  {
    Comba(NumDigits(FormOfPower(g, q.d, n, k)), NumDigits(FormOfPower(g, q.e, n, k)))
  }

  /** Some product of a set of them strays. */
  ghost predicate StraysIn(qs: set<Factors>, g: int, n: int, k: nat)
    requires n > 0
  {
    k >= WORD_TERMS && exists q :: q in qs && ShortFactors(q, g, n, k)
  }

  /** The same with the reduction at hand. */
  ghost predicate StraysOn(qs: set<Factors>, g: int, p: MpInt, red: Reducer)
    reads p
    requires p.used <= |p.dp| && p.V() > 0
  {
    red.Montgomery? && StraysIn(qs, g, p.V(), p.used)
  }

  lemma StraysInUnion(a: set<Factors>, b: set<Factors>, g: int, n: int, k: nat)
    requires n > 0
    ensures StraysIn(a + b, g, n, k) <==> StraysIn(a, g, n, k) || StraysIn(b, g, n, k)
  {
    hide ShortFactors;
    if StraysIn(a, g, n, k) {
      var q :| q in a && ShortFactors(q, g, n, k);
      assert q in a + b;
    }
    if StraysIn(b, g, n, k) {
      var q :| q in b && ShortFactors(q, g, n, k);
      assert q in a + b;
    }
  }

  lemma StraysOnUnion(a: set<Factors>, b: set<Factors>, g: int, p: MpInt, red: Reducer)
    requires p.used <= |p.dp| && p.V() > 0
    ensures StraysOn(a + b, g, p, red) <==> StraysOn(a, g, p, red) || StraysOn(b, g, p, red)
  {
    hide StraysIn;
    StraysInUnion(a, b, g, p.V(), p.used);
  }

  lemma StraysOnNone(g: int, p: MpInt, red: Reducer)
    requires p.used <= |p.dp| && p.V() > 0
    ensures !StraysOn({}, g, p, red)
  {
  }

  lemma StraysOnMore(a: set<Factors>, b: set<Factors>, g: int, p: MpInt, red: Reducer)
    requires p.used <= |p.dp| && p.V() > 0 && a <= b && StraysOn(a, g, p, red)
    ensures StraysOn(b, g, p, red)
  {
    StraysOnUnion(a, b, g, p, red);
    assert a + b == b;
  }

  lemma StraysInOne(q: Factors, g: int, n: int, k: nat)
    requires n > 0
    ensures StraysIn({q}, g, n, k) <==> k >= WORD_TERMS && ShortFactors(q, g, n, k)
  {
    hide ShortFactors;
    assert q in {q};
  }

  lemma {:induction false} HeldForm(v: MpInt, g: int, e: nat, p: MpInt, red: Reducer)
    requires Modulus(p, red) && red.Montgomery? && HoldsPower(v, g, e, p, red)
    ensures v.V() == FormOfPower(g, e, p.V(), p.used) && v.used == NumDigits(FormOfPower(g, e, p.V(), p.used))
  {
    hide Value, Power, Exp, Pow2;
    TrimmedNegative(v);
    UsedIsNumDigits(v);
    CongSmall(v.V(), Exp(g, e) * Power(p.used), p.V());
  }

  /** Whether a product strays depends on the two powers alone. */
  lemma {:induction false} StraysByPower(a: MpInt, b: MpInt, g: int, q: Factors, p: MpInt, red: Reducer)
    requires Modulus(p, red) && HoldsPower(a, g, q.d, p, red) && HoldsPower(b, g, q.e, p, red)
    ensures Strays(a.used, b.used, red, p.used) == StraysOn({q}, g, p, red)
  {
    StraysInOne(q, g, p.V(), p.used);
    hide FormOfPower, HoldsPower, StraysIn;
    if red.Montgomery? {
      HeldForm(a, g, q.d, p, red);
      HeldForm(b, g, q.e, p, red);
    }
  }

  /** c = a * b, then redux. When the product comes from the comba multiplier and the
      reduction goes row by row, the latter reads an indeterminate digit, and there is
      nothing to say about the result: the run ends there, with the product in c. */
  method MulRedux(a: MpInt, b: MpInt, c: MpInt, p: MpInt, red: Reducer, ghost g: int, ghost d: nat, ghost e: nat)
    returns (strayed: bool)
    requires Modulus(p, red) && HoldsPower(a, g, d, p, red) && HoldsPower(b, g, e, p, red) && c.Valid()
    requires Apart(c, p, red)
    requires Baseline(red, p.used) ==> c.ClearAbove()
    modifies c
    ensures strayed == StraysOn({Factors(d, e)}, g, p, red)
    ensures c.Valid() && (!strayed ==> HoldsPower(c, g, d + e, p, red))
    ensures strayed ==> c.Trim() && c.V() == old(a.V() * b.V()) && ClearBut(c, old(a.used) + old(b.used))
  {
    hide Value, Pair, Lacking, Blurred, Form, Exp, StraysIn, StraysOn;
    HoldsResidue(a, g, d, p, red);
    HoldsResidue(b, g, e, p, red);
    ghost var u: nat, v: nat := a.V(), b.V();
    strayed := Strays(a.used, b.used, red, p.used);
    StraysByPower(a, b, g, Factors(d, e), p, red);
    MulNatural(a, b, c, u, v);
    if strayed { return; }
    ReduxProduct(c, p, red, u, v, g, d, e);
  }

  lemma HoldsResidue(v: MpInt, g: int, e: nat, p: MpInt, red: Reducer)
    requires HoldsPower(v, g, e, p, red)
    ensures ResidueOf(v.V(), g, e, p, red) && v.V() >= 0
  {
  }

  /** res = res^2, then redux */
  method SquareOnce(res: MpInt, p: MpInt, red: Reducer, ghost g: int, ghost e: nat)
    requires Modulus(p, red) && HoldsPower(res, g, e, p, red) && Apart(res, p, red)
    modifies res
    ensures res.Valid() && HoldsPower(res, g, e + e, p, red)
  {
    hide Value, Pair, Lacking, Blurred, Form, Exp;
    HoldsResidue(res, g, e, p, red);
    TrimmedNegative(res);
    ghost var u := res.V();
    Sqr(res, res);
    ReduxProduct(res, p, red, u, u, g, e, e);
  }

  // ------------------------------------------------------------- the stray digit

  /** Two different stray digits w and z give two different residues. */
  lemma {:induction false} StrayMatters(x: int, w: nat, z: nat, pa: nat, n: int, k: nat, y: int, y': int)
    requires n > BASE && n % 2 == 1 && w < BASE && z < BASE && w != z
    requires Reduced(y, x + w * Power(pa), n, k) && Reduced(y', x + z * Power(pa), n, k)
    ensures y != y'
  {
    if y == y' {
      var r := Power(pa);
      CongAdd(x + w * r, x + z * r, x, x, n);
      CancelPower(w, z, n, pa);
      CongSmall(w, z, n);
      CongSmall(z, w, n);
    }
  }

  /** A product as the comba multiplier leaves it: the digit at pa is whatever the
      column buffer held, those above are clear. */
  ghost predicate LeftOver(c: MpInt, pa: nat, w: nat)
    reads c
  {
    c.Trim() && c.sign == ZPOS && c.used <= pa < |c.dp| && c.dp[pa] == w < BASE && ClearBut(c, pa)
  }

  /** The row-by-row reduction takes the stray digit for part of the number. */
  lemma {:induction false} LeftOverFound(c: MpInt, pa: nat, w: nat, digs: nat)
    requires LeftOver(c, pa, w) && pa < digs
    ensures var f := Found(c.dp, digs); Digits(f) && Value(f) == c.Mag() + w * Power(pa) < Power(pa + 1)
  {
    hide Pow2, Power;
    BaseIsLarge();
    var f := Found(c.dp, digs);
    ValueDropZeros(f, pa + 1);
    ValueBound(f[..pa + 1]);
    assert f[..pa + 1][..pa] == f[..pa];
    ValueDropZeros(f[..pa], c.used);
    assert f[..pa][..c.used] == c.dp[..c.used];
  }

  /** Whatever the digit, the number stays in the range of the reduction. */
  lemma {:induction false} LeftOverFits(x: nat, pa: nat, p: MpInt)
    requires p.Trim() && p.used >= WORD_TERMS && pa + 1 < MP_WARRAY && x < Power(pa + 1)
    ensures x < p.Mag() * Power(p.used) && p.Mag() > BASE
  {
    hide Pow2, Value;
    var k := p.used;
    ValueTop(p.dp[..k]);
    PowerMonotone(pa + 1, k - 1 + k);
    PowerAdd(k - 1, k);
    MulMonotone(Power(k - 1), p.Mag(), Power(k));
    PowerMonotone(2, k - 1);
    BaseIsLarge();
    assert Power(2) == BASE * Power(1) && Power(1) == BASE * Power(0);
  }

  /** The residue is that of the product with the stray digit on top. */
  method ReduceStray(c: MpInt, p: MpInt, rho: nat, ghost pa: nat, ghost w: nat)
    requires Modulus(p, Montgomery(rho)) && p.used >= WORD_TERMS && c != p && LeftOver(c, pa, w) && pa + 1 < MP_WARRAY
    modifies c
    ensures c.Trim() && Reduced(c.V(), old(c.V()) + w * Power(pa), p.V(), p.used) && 0 <= c.V() < p.V()
    ensures p.V() > BASE
  {
    hide Value, Power, Pair, Lacking, Found;
    LeftOverFound(c, pa, w, 2 * p.used + 1);
    LeftOverFits(c.V() + w * Power(pa), pa, p);
    ReduceFound(c, p, rho);
  }

  /** One product in two buffers that differ in the stray digit only: the reduction
      answers differently, so its answer is no function of the product. */
  method ReduceTwice(c: MpInt, d: MpInt, p: MpInt, rho: nat, ghost pa: nat, ghost w: nat, ghost z: nat)
    requires Modulus(p, Montgomery(rho)) && p.used >= WORD_TERMS && c != d && c != p && d != p
    requires LeftOver(c, pa, w) && LeftOver(d, pa, z) && c.V() == d.V() && w != z && pa + 1 < MP_WARRAY
    modifies c, d
    ensures c.Trim() && d.Trim() && c.V() != d.V()
  {
    hide Value, Power, Pair, Lacking, Reduced;
    ghost var x := c.V();
    ReduceStray(c, p, rho, pa, w);
    ReduceStray(d, p, rho, pa, z);
    StrayMatters(x, w, z, pa, p.V(), p.used, c.V(), d.V());
  }
}
