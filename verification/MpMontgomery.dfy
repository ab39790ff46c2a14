/** Montgomery reduction: the constant rho, the comba form with delayed carries
    and the row-by-row form. */
module MpMontgomery {
  import opened Arith
  import opened Modular
  import opened MpDigits
  import opened MpInts
  import opened MpAddSub
  import opened MpScale
  import opened MpMulDigs
  import opened MpShift

  // -------------------------------------------------------------------- setup

  /** mp_digit arithmetic wraps around. */
  function Wrap(x: int): nat {
    BaseIsLarge();
    x % DIGIT_RANGE
  }

  lemma {:induction false} RangeIsPow2()
    ensures DIGIT_RANGE == Pow2(DIGIT_BIT + 4)
  {
    Pow2Step(DIGIT_BIT);
  }

  lemma {:induction false} WrapCong(x: int, j: nat)
    requires j <= DIGIT_BIT + 4
    ensures Cong(Wrap(x), x, Pow2(j))
  {
    RangeIsPow2();
    var e := Pow2(DIGIT_BIT + 4 - j);
    Pow2Add(DIGIT_BIT + 4 - j, j);
    DivMod(x, DIGIT_RANGE);
    MulAssoc(x / DIGIT_RANGE, e, Pow2(j));
    CongFrom(x, Wrap(x), x / DIGIT_RANGE * e, Pow2(j));
  }

  /** x *= 2 - b * x */
  function NewtonStep(x: nat, b: nat): nat {
    Wrap(x * Wrap(2 - Wrap(b * x)))
  }

  /** A Newton step doubles the number of correct bits of an inverse. */
  lemma {:induction false} NewtonDoubles(x: nat, b: nat, j: nat)
    requires Cong(x * b, 1, Pow2(j)) && 2 * j <= DIGIT_BIT + 4
    ensures Cong(NewtonStep(x, b) * b, 1, Pow2(2 * j))
  {
    var m, m2 := Pow2(j), Pow2(2 * j);
    assert m2 == m * m by { Pow2Add(j, j); }
    var k := CongGap(x * b, 1, m);
    var u := x * (2 - b * x);
    assert Cong(NewtonStep(x, b), u, m2) by { NewtonWraps(x, b, 2 * j); }
    CongMul(NewtonStep(x, b), u, b, b, m2);
    NewtonSquare(x, b, k, m, u);
    CongFrom(u * b, 1, -(k * k), m2);
  }

  lemma {:induction false} NewtonWraps(x: nat, b: nat, j: nat)
    requires j <= DIGIT_BIT + 4
    ensures Cong(NewtonStep(x, b), x * (2 - b * x), Pow2(j))
  {
    var m := Pow2(j);
    WrapCong(b * x, j);
    CongAdd(2, 2, Wrap(b * x), b * x, m);
    var d := Wrap(2 - Wrap(b * x));
    WrapCong(2 - Wrap(b * x), j);
    CongMul(x, x, d, 2 - b * x, m);
    WrapCong(x * d, j);
  }

  lemma NewtonSquare(x: int, b: int, k: int, m: int, u: int)
    requires x * b == 1 + k * m && u == x * (2 - b * x)
    ensures u * b == 1 + (-(k * k)) * (m * m)
  {
    var t := k * m;
    assert u * b == (x * b) * (2 - b * x) by {
      MulAssoc(x, 2 - b * x, b);
      MulAssoc(x, b, 2 - b * x);
    }
    assert (1 + t) * (1 - t) == 1 - t * t;
    assert t * t == k * k * (m * m) by {
      MulAssoc(k, m, k * m);
      MulAssoc(m, k, m);
      MulAssoc(k, k, m * m);
    }
  }

  /** The first approximation has four correct bits. */
  lemma FirstInverse(b: nat)
    requires b % 2 == 1
    ensures Cong(((b + 2) / 4 % 2 * 8 + b) * b, 1, 16)
  {
    var r, q := b % 16, b / 16;
    assert b == 16 * q + r;
    var t := (b + 2) / 4 % 2;
    assert t == (r + 2) / 4 % 2;
    assert (t * 8 + b) == (t * 8 + r) + q * 16;
    CongFrom(t * 8 + b, t * 8 + r, q, 16);
    CongFrom(b, r, q, 16);
    CongMul(t * 8 + b, t * 8 + r, b, r, 16);
    SmallInverses(r);
  }

  lemma SmallInverses(r: nat)
    requires r < 16 && r % 2 == 1
    ensures Cong(((r + 2) / 4 % 2 * 8 + r) * r, 1, 16)
  {
    if r == 1 {} else if r == 3 {} else if r == 5 {} else if r == 7 {}
    else if r == 9 {} else if r == 11 {} else if r == 13 {} else { assert r == 15; }
  }

  /** The chain of Newton steps: three for 32-bit digits, four for 64-bit ones. */
  function InverseOf(b: nat): nat {
    var x0 := Wrap((b + 2) / 4 % 2 * 8 + b);
    var x3 := NewtonStep(NewtonStep(NewtonStep(x0, b), b), b);
    if DIGIT_BIT == 60 then NewtonStep(x3, b) else x3
  }

  lemma FourBits()
    ensures Pow2(4) == 16
  {
    assert Pow2(4) == 2 * Pow2(3) && Pow2(3) == 2 * Pow2(2) && Pow2(2) == 2 * Pow2(1) && Pow2(1) == 2 * Pow2(0);
  }

  lemma {:induction false} InverseWorks(b: nat)
    requires b % 2 == 1
    ensures Cong(InverseOf(b) * b, 1, Pow2(DIGIT_BIT + 4))
  {
    hide Power, Cong, Pow2, Wrap, NewtonStep;
    var y := (b + 2) / 4 % 2 * 8 + b;
    var x := Wrap(y);
    FourBits();
    FirstInverse(b);
    WrapCong(y, 4);
    CongMul(x, y, b, b, Pow2(4));
    NewtonDoubles(x, b, 4);
    x := NewtonStep(x, b);
    NewtonDoubles(x, b, 8);
    x := NewtonStep(x, b);
    NewtonDoubles(x, b, 16);
    x := NewtonStep(x, b);
    if DIGIT_BIT == 60 { NewtonDoubles(x, b, 32); }
  }

  lemma {:induction false} NegatedInverse(b: nat, x: nat)
    requires Cong(x * b, 1, Pow2(DIGIT_BIT + 4))
    ensures 0 <= (BASE - x) % BASE < BASE && Cong((BASE - x) % BASE * b, -1, BASE)
  {
    hide Pow2;
    BaseIsLarge();
    var k := CongGap(x * b, 1, Pow2(DIGIT_BIT + 4));
    Pow2Step(DIGIT_BIT);
    MulAssoc(k, 16, BASE);
    CongFrom(x * b, 1, k * 16, BASE);
    var r := (BASE - x) % BASE;
    CongMod(BASE - x, BASE);
    CongMul(r, BASE - x, b, b, BASE);
    assert (BASE - x) * b == BASE * b - x * b;
    CongFrom(BASE * b, 0, b, BASE);
    CongAdd(BASE * b, 0, x * b, 1, BASE);
  }

  /** mp_montgomery_setup: fails exactly for even n, else rho * n = -1 modulo BASE. Of a zero
      it reads digit 0 too. */
  method Setup(n: MpInt) returns (ok: bool, rho: nat)
    requires n.Trim()
    ensures ok == (n.dp[0] % 2 == 1)
    ensures n.used > 0 ==> ok == (n.Mag() % 2 == 1)
    ensures ok ==> rho < BASE && Cong(rho * n.dp[0], -1, BASE)
  {
    BaseIsLarge();
    LowBit(n);
    var b := n.dp[0];
    if b % 2 == 0 { return false, 0; }
    InverseWorks(b);
    NegatedInverse(b, InverseOf(b));
    return true, (BASE - InverseOf(b)) % BASE;
  }

  lemma {:induction false} LowBit(n: MpInt)
    requires n.Trim()
    ensures n.used > 0 ==> n.Mag() % 2 == n.dp[0] % 2
    ensures n.used == 0 ==> n.Mag() == 0
  {
    if n.used > 0 {
      ValueLow(n.dp[..n.used]);
      BaseIsLarge();
      var h := Value(n.dp[..n.used][1..]);
      var e := Pow2(DIGIT_BIT - 2);
      MulAssoc(h, 2 * e, 2);
      ModAddMultiple(n.dp[0], h * (2 * e), 2);
    }
  }

  // ------------------------------------------------------------- comba columns

  /** The largest product of two digits. */
  const TOP_PRODUCT: nat := (BASE - 1) * (BASE - 1)

  /** Columns below ix are done with: what is left of them is x plus a multiple
      of n that fits ix digits. */
  ghost predicate Cleared(w: seq<nat>, ix: nat, x: nat, n: nat, u: nat) {
    ix <= |w| && u < Power(ix) && Value(w[ix..]) * Power(ix) == x + u * n
  }

  /** Each column has had at most c products, and column ix one carry as well. */
  ghost predicate Filled(w: seq<nat>, ix: nat, c: nat) {
    && (forall j :: ix < j < |w| ==> w[j] <= BASE - 1 + c * TOP_PRODUCT)
    && (ix < |w| ==> w[ix] <= BASE - 1 + c * TOP_PRODUCT + WORD_TERMS * BASE)
  }

  /** Fewer than WORD_TERMS products and the delayed carry never overflow a word. */
  lemma FilledFits(w: nat, c: nat)
    requires c < WORD_TERMS && w <= BASE - 1 + c * TOP_PRODUCT + WORD_TERMS * BASE
    ensures w < WORD_RANGE && 0 <= w / BASE < WORD_TERMS * BASE
  {
    BaseIsLarge();
    FitsArith(BASE, TOP_PRODUCT, c, w);
    MulAssoc(WORD_TERMS, BASE, BASE);
    QuotientBetween(w, BASE, 0, WORD_TERMS * BASE);
  }

  lemma FitsArith(b: nat, q: nat, c: nat, w: nat)
    requires 2 <= b && q == (b - 1) * (b - 1) && c <= 255 && w <= b - 1 + c * q + 256 * b
    ensures w < 256 * (b * b)
  {
    assert q == b * b - 2 * b + 1;
    MulMonotone(c, 255, q);
    MulMonotone(1, b, b);
  }

  lemma {:induction false} AddMultipleStep(s: seq<nat>, n: seq<nat>, iy: nat, mu: nat, t: nat, v0: nat)
    requires iy < |s| && iy < |n| && t == mu * n[iy] && Value(s) == v0 + mu * Value(n[..iy])
    ensures Value(s[iy := s[iy] + t]) == v0 + mu * Value(n[..iy + 1])
  {
    var p := Power(iy);
    ValueUpdate(s, iy, s[iy] + t);
    MulDistrib(s[iy], t, p);
    ValueStep(n, iy);
    MulAssoc(mu, n[iy], p);
    MulDistribLeft(mu, Value(n[..iy]), n[iy] * p);
  }

  lemma NoTerms(n: seq<nat>, mu: nat)
    ensures mu * Value(n[..0]) == 0
  {
    assert n[..0] == [];
  }

  /** The inner loop: adds mu * n to the columns from ix on. */
  method AddMultiple(W: array<nat>, n: seq<nat>, ix: nat, mu: nat, m: nat)
    requires ix + |n| <= m <= W.Length && Digits(n) && mu < BASE
    modifies W
    ensures forall j :: 0 <= j < W.Length && (j < ix || ix + |n| <= j) ==> W[j] == old(W[j])
    ensures forall j :: ix <= j < ix + |n| ==> W[j] == old(W[j]) + mu * n[j - ix] && W[j] <= old(W[j]) + TOP_PRODUCT
    ensures Value(W[ix..m]) == Value(old(W[ix..m])) + mu * Value(n)
  {
    hide Value, Power, Pow2;
    ghost var v0 := Value(W[ix..m]);
    NoTerms(n, mu);
    for iy := 0 to |n|
      invariant forall j :: 0 <= j < W.Length && (j < ix || ix + iy <= j) ==> W[j] == old(W[j])
      invariant forall j :: ix <= j < ix + iy ==> W[j] == old(W[j]) + mu * n[j - ix] && W[j] <= old(W[j]) + TOP_PRODUCT
      invariant Value(W[ix..m]) == v0 + mu * Value(n[..iy])
    {
      ghost var s := W[ix..m];
      TermBound(mu, n[iy], BASE - 1);
      var t: nat := mu * n[iy];
      AddMultipleStep(s, n, iy, mu, t, v0);
      W[ix + iy] := W[ix + iy] + t;
      assert W[ix..m] == s[iy := s[iy] + t];
    }
    assert n[..|n|] == n;
  }

  /** mu is chosen so that its column becomes divisible by the base. */
  lemma ColumnClears(w: nat, rho: nat, n0: nat, mu: nat)
    requires Cong(rho * n0, -1, BASE) && mu == w % BASE * rho % BASE
    ensures (w + mu * n0) % BASE == 0
  {
    BaseIsLarge();
    var k := CongGap(rho * n0, -1, BASE);
    var a, l := w % BASE, w / BASE;
    DivMod(w, BASE);
    var j := a * rho / BASE;
    DivMod(a * rho, BASE);
    ClearArith(w, a, l, rho, n0, mu, k, j, BASE);
    DivModUnique(w + mu * n0, BASE, l + a * k - j * n0, 0);
  }

  lemma ClearArith(w: int, a: int, l: int, rho: int, n0: int, mu: int, k: int, j: int, b: int)
    requires w == l * b + a && rho * n0 == -1 + k * b && a * rho == j * b + mu
    ensures w + mu * n0 == (l + a * k - j * n0) * b
  {
    MulDistrib(j * b, mu, n0);
    MulAssoc(a, rho, n0);
    MulDistribLeft(a, -1, k * b);
    MulAssoc(a, k, b);
    MulAssoc(j, b, n0);
    MulAssoc(j, n0, b);
    MulDistrib(l, a * k - j * n0, b);
    MulDistrib(a * k, -(j * n0), b);
    assert (-(j * n0)) * b == -(j * n0 * b);
  }

  /** Dropping a cleared column and passing its carry on. */
  lemma {:induction false} DropColumn(s: seq<nat>, t: seq<nat>, q: nat)
    requires |s| >= 2 && s[0] == q * BASE && t == s[1..][0 := s[1] + q]
    ensures Value(s) == Value(t) * BASE
  {
    var r := s[1..];
    ValueLow(s);
    ValueUpdate(r, 0, s[1] + q);
    assert Power(0) == 1;
    MulSum(Value(t), q, Value(r), BASE);
  }

  lemma {:induction false} ClearedStep(v: nat, v': nat, v'': nat, ix: nat, x: nat, n: nat, u: nat, mu: nat)
    requires v * Power(ix) == x + u * n && v' == v + mu * n && v' == v'' * BASE && u < Power(ix) && mu < BASE
    ensures v'' * Power(ix + 1) == x + (u + mu * Power(ix)) * n && 0 <= u + mu * Power(ix) < Power(ix + 1)
  {
    var p := Power(ix);
    MulDistrib(v, mu * n, p);
    MulAssoc(v'', BASE, p);
    MulDistrib(u, mu * p, n);
    MulAssoc(mu, n, p);
    MulAssoc(mu, p, n);
    MulMonotone(mu + 1, BASE, p);
    MulDistrib(mu, 1, p);
    MulNonneg(mu, p);
  }

  /** rho belongs to the modulus with digits n. */
  ghost predicate Suits(rho: nat, n: seq<nat>) {
    |n| > 0 && Digits(n) && rho < BASE && Cong(rho * n[0], -1, BASE)
  }

  /** The columns of a reduction after ix of them are cleared. */
  ghost predicate Reducing(w: seq<nat>, ix: nat, x: nat, n: seq<nat>, u: nat) {
    |w| == 2 * |n| + 1 && ix <= |n| && Cleared(w, ix, x, Value(n), u) && Filled(w, ix, ix)
  }

  lemma {:induction false} FilledStep(w: seq<nat>, w': seq<nat>, ix: nat, c: nat)
    requires Filled(w, ix, ix) && |w'| == |w| && ix + 1 < |w| && ix + 1 < WORD_TERMS && c == w'[ix] / BASE
    requires w'[ix] <= w[ix] + TOP_PRODUCT && w'[ix + 1] <= w[ix + 1] + TOP_PRODUCT
    requires forall j :: ix + 1 < j < |w| ==> w'[j] <= w[j] + TOP_PRODUCT
    ensures w'[ix] < WORD_RANGE && w'[ix + 1] + c < WORD_RANGE && Filled(w'[ix + 1 := w'[ix + 1] + c], ix + 1, ix + 1)
  {
    MulDistrib(ix, 1, TOP_PRODUCT);
    FilledFits(w'[ix], ix + 1);
    FilledFits(w'[ix + 1] + c, ix + 1);
  }

  /** One turn of the outer loop. */
  method ReduceColumn(W: array<nat>, n: seq<nat>, rho: nat, ix: nat, ghost x: nat, ghost u: nat) returns (ghost u': nat)
    requires Suits(rho, n) && 2 * |n| + 1 <= W.Length && ix < |n| < WORD_TERMS
    requires Reducing(W[..2 * |n| + 1], ix, x, n, u)
    modifies W
    ensures Reducing(W[..2 * |n| + 1], ix + 1, x, n, u')
  {
    hide Pow2;
    BaseIsLarge();
    var m := 2 * |n| + 1;
    ghost var w := W[..m];
    assert w[ix..] == W[ix..m];
    MulNonneg(W[ix] % BASE, rho);
    var mu := W[ix] % BASE * rho % BASE;
    ColumnClears(W[ix], rho, n[0], mu);
    AddMultiple(W, n, ix, mu, m);
    ghost var w' := W[..m];
    assert w'[ix..] == W[ix..m];
    var c := W[ix] / BASE;
    FilledStep(w, w', ix, c);
    W[ix + 1] := W[ix + 1] + c;
    u' := ColumnDone(w, w', W[..m], ix, x, n, u, mu, c);
  }

  lemma {:induction false} ColumnDone(w: seq<nat>, w': seq<nat>, w'': seq<nat>, ix: nat, x: nat, n: seq<nat>, u: nat,
                                      mu: nat, c: nat)
    returns (u': nat)
    requires Cleared(w, ix, x, Value(n), u) && |w| == |w'| && ix + 1 < |w| && mu < BASE
    requires Value(w'[ix..]) == Value(w[ix..]) + mu * Value(n) && w'[ix] % BASE == 0 && c == w'[ix] / BASE
    requires w'' == w'[ix + 1 := w'[ix + 1] + c]
    ensures Cleared(w'', ix + 1, x, Value(n), u')
  {
    DivMod(w'[ix], BASE);
    assert w''[ix + 1..] == w'[ix..][1..][0 := w'[ix + 1] + c];
    DropColumn(w'[ix..], w''[ix + 1..], c);
    ClearedStep(Value(w[ix..]), Value(w'[ix..]), Value(w''[ix + 1..]), ix, x, Value(n), u, mu);
    u' := u + mu * Power(ix);
  }

  /** Copy the digits into the words and clear the rest. */
  method LoadWords(W: array<nat>, x: seq<nat>, m: nat)
    requires |x| <= m <= W.Length && Digits(x)
    modifies W
    ensures (forall j :: 0 <= j < m ==> W[j] < BASE) && Value(W[..m]) == Value(x)
  {
    BaseIsLarge();
    var ix := 0;
    while ix < |x|
      invariant ix <= |x| && forall j :: 0 <= j < ix ==> W[j] == x[j]
    {
      W[ix] := x[ix];
      ix := ix + 1;
    }
    while ix < m
      invariant |x| <= ix <= m && (forall j :: 0 <= j < |x| ==> W[j] == x[j]) && forall j :: |x| <= j < ix ==> W[j] == 0
    {
      W[ix] := 0;
      ix := ix + 1;
    }
    ValueDropZeros(W[..m], |x|);
    assert W[..m][..|x|] == x;
  }

  /** The digits of words whose carries have been passed on. */
  function LowDigits(w: seq<nat>): (d: seq<nat>)
    ensures |d| == |w| && Digits(d) && forall i :: 0 <= i < |w| ==> d[i] == w[i] % BASE
  {
    BaseIsLarge();
    seq(|w|, i requires 0 <= i < |w| => w[i] % BASE)
  }

  /** The words from k on, carried up to word i: still the number a. */
  ghost predicate Carried(w: seq<nat>, k: nat, i: nat, a: nat) {
    k <= i < |w| && Value(LowDigits(w[k..i])) + Value(w[i..]) * Power(i - k) == a
  }

  lemma {:induction false} CarriedStep(w: seq<nat>, k: nat, i: nat, a: nat, c: nat)
    requires Carried(w, k, i, a) && i + 1 < |w| && c == w[i] / BASE
    ensures Carried(w[i + 1 := w[i + 1] + c], k, i + 1, a)
  {
    hide Value, Pow2;
    var w' := w[i + 1 := w[i + 1] + c];
    var d := w[i] % BASE;
    DivMod(w[i], BASE);
    assert LowDigits(w'[k..i + 1]) == LowDigits(w[k..i]) + [d];
    ValueAppend(LowDigits(w[k..i]), d);
    var s, p := w[i..], Power(i - k);
    ValueLow(s);
    assert s[1..] == w[i + 1..] && w'[i + 1..] == s[1..][0 := w[i + 1] + c];
    ValueUpdate(s[1..], 0, w[i + 1] + c);
    assert Power(0) == 1;
    CarryArith(Value(s), d, c, Value(s[1..]), Value(w'[i + 1..]), p);
  }

  lemma CarryArith(v: nat, d: nat, c: nat, r: nat, r': nat, p: nat)
    requires v == c * BASE + d + r * BASE && r' == r + c
    ensures v * p == d * p + r' * (BASE * p)
  {
    MulSum(r', r, c, BASE);
    MulSum(v, r' * BASE, d, p);
    MulAssoc(r', BASE, p);
  }

  /** The second carry loop: afterwards word k + i holds digit i of the result. */
  method Propagate(W: array<nat>, k: nat, ghost a: nat)
    requires 2 * k + 1 < W.Length && k < WORD_TERMS && Filled(W[..2 * k + 1], k, k)
    requires Value(W[k..2 * k + 1]) == a < Power(k + 1)
    modifies W
    ensures Value(LowDigits(W[k..2 * k + 1])) == a
  {
    hide Value, Pow2;
    var m := 2 * k + 1;
    assert W[..m][k..] == W[k..m];
    CarriedStart(W[..m], k);
    var ix := k + 1;
    while ix < m
      invariant k < ix <= m && Carried(W[..m], k, ix - 1, a) && Filled(W[..m], ix - 1, k)
    {
      CarryWord(W, m, k, ix - 1, a);
      ix := ix + 1;
    }
    CarriedAll(W[..m], k, a);
    ghost var w := W[k..m];
    assert W[..m][k..] == w;
    FilledFits(W[ix - 1], k);
    W[ix] := W[ix] + W[ix - 1] / BASE;
    assert W[k..m] == w;
  }

  /** Pass the carry of word i on to the next word. */
  method CarryWord(W: array<nat>, m: nat, k: nat, i: nat, ghost a: nat)
    requires i + 1 < m <= W.Length && k < WORD_TERMS && Carried(W[..m], k, i, a) && Filled(W[..m], i, k)
    modifies W
    ensures Carried(W[..m], k, i + 1, a) && Filled(W[..m], i + 1, k)
  {
    ghost var w := W[..m];
    FilledFits(W[i], k);
    var c := W[i] / BASE;
    CarriedStep(w, k, i, a, c);
    W[i + 1] := W[i + 1] + c;
    assert W[..m] == w[i + 1 := w[i + 1] + c];
  }

  lemma {:induction false} CarriedStart(w: seq<nat>, k: nat)
    requires k < |w|
    ensures Carried(w, k, k, Value(w[k..]))
  {
    assert LowDigits(w[k..k]) == [];
    assert Power(0) == 1;
  }

  /** A small enough number leaves no carry in the top word. */
  lemma {:induction false} CarriedAll(w: seq<nat>, k: nat, a: nat)
    requires |w| == 2 * k + 1 && Carried(w, k, 2 * k, a) && a < Power(k + 1)
    ensures Value(LowDigits(w[k..])) == a
  {
    var t, p := w[2 * k], Power(k);
    assert w[2 * k..] == [t];
    assert Value([t]) == t by { assert [t][..0] == []; assert Power(0) == 1; }
    assert t < BASE by { MulCancelLess(t, BASE, p); }
    DivModUnique(t, BASE, 0, t);
    assert LowDigits(w[k..]) == LowDigits(w[k..2 * k]) + [t];
    ValueAppend(LowDigits(w[k..2 * k]), t);
  }

  /** The column loop as a whole. */
  method ReduceColumns(W: array<nat>, n: seq<nat>, rho: nat, ghost x: nat) returns (ghost u: nat)
    requires Suits(rho, n) && 2 * |n| + 1 <= W.Length && |n| < WORD_TERMS
    requires Reducing(W[..2 * |n| + 1], 0, x, n, 0)
    modifies W
    ensures Reducing(W[..2 * |n| + 1], |n|, x, n, u)
  {
    u := 0;
    for ix := 0 to |n|
      invariant Reducing(W[..2 * |n| + 1], ix, x, n, u)
    {
      u := ReduceColumn(W, n, rho, ix, x, u);
    }
  }

  lemma {:induction false} ReducingStart(w: seq<nat>, n: seq<nat>)
    requires |w| == 2 * |n| + 1 && forall j :: 0 <= j < |w| ==> w[j] < BASE
    ensures Reducing(w, 0, Value(w), n, 0)
  {
    assert w[0..] == w && Power(0) == 1;
  }

  /** What is left after the columns are cleared is below twice the modulus. */
  lemma ReducedBound(a: nat, r: nat, x: nat, n: nat, u: nat)
    requires a * r == x + u * n && u < r && x < n * r
    ensures a < 2 * n
  {
    MulMonotone(u, r, n);
    MulAssoc(2, n, r);
    MulCancelLess(a, 2 * n, r);
  }

  /** Steps of fast_mp_montgomery_reduce up to the copy: the digits of (x + u n) / BASE^k. */
  method ReducedDigits(x: seq<nat>, n: seq<nat>, rho: nat) returns (d: seq<nat>, ghost u: nat)
    requires Suits(rho, n) && Digits(x) && |x| <= 2 * |n| + 1 && |n| < WORD_TERMS && Value(x) < Value(n) * Power(|n|)
    ensures |d| == |n| + 1 && Digits(d) && Value(d) * Power(|n|) == Value(x) + u * Value(n) && u < Power(|n|)
  {
    hide Value;
    var k := |n|;
    var W := new nat[MP_WARRAY];
    LoadWords(W, x, 2 * k + 1);
    ReducingStart(W[..2 * k + 1], n);
    u := ReduceColumns(W, n, rho, Value(x));
    ghost var a := Value(W[k..2 * k + 1]);
    assert W[..2 * k + 1][k..] == W[k..2 * k + 1];
    ResultFits(a, x, n, u);
    Propagate(W, k, a);
    d := LowDigits(W[k..2 * k + 1]);
  }

  lemma {:induction false} ResultFits(a: nat, x: seq<nat>, n: seq<nat>, u: nat)
    requires Digits(n) && a * Power(|n|) == Value(x) + u * Value(n) && u < Power(|n|)
    requires Value(x) < Value(n) * Power(|n|)
    ensures a < 2 * Value(n) && a < Power(|n| + 1)
  {
    ReducedBound(a, Power(|n|), Value(x), Value(n), u);
    ValueBound(n);
    BaseIsLarge();
    MulMonotone(2, BASE, Power(|n|));
  }

  // ------------------------------------------------------------ the reductions

  /** What a Montgomery reduction of x modulo n with k digits returns. */
  ghost predicate Reduced(y: int, x: int, n: int, k: nat) {
    0 <= y < n && Cong(y * Power(k), x, n)
  }

  /** One final subtraction brings the result below the modulus. */
  lemma {:induction false} FinalSubtract(a: nat, x: nat, n: nat, u: nat, k: nat)
    requires 0 < n && a * Power(k) == x + u * n && a < 2 * n
    ensures Reduced(if a >= n then a - n else a, x, n, k)
  {
    var r := Power(k);
    if a >= n {
      MulDistrib(a - n, n, r);
      MulDistrib(u, -r, n);
      assert (-r) * n == -(n * r);
      CongFrom((a - n) * r, x, u - r, n);
    } else {
      CongFrom(a * r, x, u, n);
    }
  }

  /** The last step of both forms: if x >= n then x = x - n. */
  method SubtractModulus(x: MpInt, n: MpInt, ghost x0: nat, ghost u: nat, ghost k: nat)
    requires x.Trim() && n.Trim() && x != n && x.sign == ZPOS && n.sign == ZPOS && n.used > 0
    requires x.Mag() * Power(k) == x0 + u * n.Mag() && x.Mag() < 2 * n.Mag()
    modifies x
    ensures x.Trim() && Reduced(x.V(), x0, n.V(), k)
    ensures old(x.ClearAbove()) ==> x.ClearAbove()
  {
    TrimmedNegative(n);
    FinalSubtract(x.Mag(), x0, n.Mag(), u, k);
    var o := CmpMag(x, n);
    if o != LT {
      DigitsOrdered(x, n);
      SMpSub(x, n, x);
    }
  }

  /** The operands both forms are meant for: 0 <= x < n * BASE^k, and rho from the setup. */
  ghost predicate Reducible(x: MpInt, n: MpInt, rho: nat)
    reads x, n
  {
    && x.Trim() && n.Trim() && x != n && x.sign == ZPOS && n.sign == ZPOS
    && Suits(rho, n.dp[..n.used]) && x.Mag() < n.Mag() * Power(n.used)
  }

  lemma {:induction false} ReducibleSize(x: MpInt, n: MpInt, rho: nat)
    requires Reducible(x, n, rho)
    ensures x.used <= 2 * n.used
  {
    ValueBound(n.dp[..n.used]);
    PowerAdd(n.used, n.used);
    MulMonotone(n.Mag(), Power(n.used), Power(n.used));
    UsedBound(x, 2 * n.used);
  }

  /** fast_mp_montgomery_reduce */
  method FastReduce(x: MpInt, n: MpInt, rho: nat)
    requires Reducible(x, n, rho) && n.used < WORD_TERMS
    modifies x
    ensures x.Trim() && Reduced(x.V(), old(x.V()), n.V(), n.used)
  {
    ReducibleSize(x, n, rho);
    ghost var x0 := x.Mag();
    var k, olduse := n.used, x.used;
    var d;
    ghost var u;
    d, u := ReducedDigits(x.dp[..x.used], n.dp[..k], rho);
    ResultFits(Value(d), x.dp[..x.used], n.dp[..k], u);
    Grow(x, k + 1);
    StoreDigits(x, d, olduse);
    SubtractModulus(x, n, x0, u, k);
  }

  /** Overwrite a number with given digits, clear what was above, and trim. */
  method StoreDigits(x: MpInt, d: seq<nat>, olduse: nat)
    requires MP_PREC <= |x.dp| && |d| <= |x.dp| && olduse <= |x.dp| && Digits(d) && x.sign == ZPOS
    modifies x
    ensures x.Trim() && x.sign == ZPOS && x.Mag() == Value(d)
  {
    x.dp := CopyDigits(d, |d|, x.dp, olduse);
    x.used := |d|;
    assert x.dp[..|d|] == d;
    Clamp(x);
  }

  // ------------------------------------------------------------- row by row

  /** After ix rows the lowest ix digits are zero and a multiple of n was added. */
  ghost predicate RowsReduced(d: seq<nat>, ix: nat, x: nat, n: seq<nat>, u: nat) {
    && |d| == 2 * |n| + 1 && ix <= |n| && Digits(d) && (forall j :: 0 <= j < ix ==> d[j] == 0)
    && u < Power(ix) && Value(d) == x + u * Value(n) && x < Value(n) * Power(|n|)
  }

  /** The multiply-and-add loop of one row. */
  method RowProducts(d0: seq<nat>, n: seq<nat>, mu: nat, ix: nat) returns (d: seq<nat>, u: nat)
    requires Digits(d0) && Digits(n) && |n| > 0 && mu < BASE && ix + |n| <= |d0|
    ensures RowSoFar(d0, d, mu, n, ix, |n|, u)
    ensures (forall j :: 0 <= j < ix ==> d[j] == d0[j]) && d[ix] == (d0[ix] + mu * n[0]) % BASE
  {
    BaseIsLarge();
    d, u := d0, 0;
    assert n[..0] == [];
    for iy := 0 to |n|
      invariant RowSoFar(d0, d, mu, n, ix, iy, u) && forall j :: 0 <= j < ix ==> d[j] == d0[j]
      invariant (iy == 0 ==> u == 0) && (iy > 0 ==> d[ix] == (d0[ix] + mu * n[0]) % BASE)
    {
      MulNonneg(mu, n[iy]);
      var r: nat := mu * n[iy] + u + d[ix + iy];
      RowStep(d0, d, mu, n, ix, iy, u, r);
      u := r / BASE;
      d := d[ix + iy := r % BASE];
    }
  }

  /** The carry loop of one row; it ends inside the number because the sum fits. */
  method CarryUp(d0: seq<nat>, j0: nat, u0: nat, ghost total: nat) returns (d: seq<nat>)
    requires Digits(d0) && j0 <= |d0| && u0 < BASE && Value(d0) + u0 * Power(j0) == total < Power(|d0|)
    ensures |d| == |d0| && Digits(d) && Value(d) == total && forall j :: 0 <= j < j0 ==> d[j] == d0[j]
  {
    hide Pow2;
    BaseIsLarge();
    d := d0;
    var u: nat, i: nat := u0, j0;
    while u > 0
      invariant j0 <= i <= |d0| == |d| && Digits(d) && u < BASE && Value(d) + u * Power(i) == total
      invariant forall j :: 0 <= j < j0 ==> d[j] == d0[j]
      decreases |d0| - i
    {
      CarryInside(Value(d), u, i, |d|, total);
      var t := d[i] + u;
      CarryDigit(d, i, u, t);
      d := d[i := t % BASE];
      u := t / BASE;
      i := i + 1;
    }
  }

  lemma {:induction false} CarryInside(v: nat, u: nat, i: nat, l: nat, total: nat)
    requires u > 0 && i <= l && v + u * Power(i) == total < Power(l)
    ensures i < l
  {
    MulMonotone(1, u, Power(i));
  }

  lemma {:induction false} CarryDigit(d: seq<nat>, i: nat, u: nat, t: nat)
    requires i < |d| && Digits(d) && 0 < u < BASE && t == d[i] + u
    ensures 0 <= t % BASE < BASE && 0 <= t / BASE < BASE && t < DIGIT_RANGE
    ensures Value(d[i := t % BASE]) + t / BASE * Power(i + 1) == Value(d) + u * Power(i)
  {
    BaseIsLarge();
    QuotientBetween(t, BASE, 0, 2);
    DivMod(t, BASE);
    ValueUpdate(d, i, t % BASE);
    RowColumn(Value(d), Value(d[i := t % BASE]), d[i], 0, u, t % BASE, t / BASE, Power(i));
  }

  lemma {:induction false} RowTotal(d: seq<nat>, ix: nat, x: nat, n: seq<nat>, u: nat, mu: nat)
    requires RowsReduced(d, ix, x, n, u) && ix < |n| && mu < BASE && Digits(n)
    ensures 0 <= u + mu * Power(ix) < Power(ix + 1)
    ensures Value(d) + mu * Value(n) * Power(ix) == x + (u + mu * Power(ix)) * Value(n) < Power(|d|)
  {
    var p, k, nv := Power(ix), |n|, Value(n);
    MulMonotone(mu + 1, BASE, p);
    MulDistrib(mu, 1, p);
    MulNonneg(mu, p);
    MulDistrib(u, mu * p, nv);
    MulAssoc(mu, p, nv);
    MulAssoc(mu, nv, p);
    PowerMonotone(ix + 1, k);
    MulMonotone(u + mu * p, Power(k), nv);
    ValueBound(n);
    PowerAdd(k, k);
    MulMonotone(nv, Power(k), Power(k));
    BaseIsLarge();
    MulMonotone(2, BASE, Power(2 * k));
  }

  /** One row: digit ix becomes zero. */
  method ReduceRow(d0: seq<nat>, n: seq<nat>, rho: nat, ix: nat, ghost x: nat, ghost u: nat)
    returns (d: seq<nat>, ghost u': nat)
    requires Suits(rho, n) && RowsReduced(d0, ix, x, n, u) && ix < |n|
    ensures RowsReduced(d, ix + 1, x, n, u')
  {
    BaseIsLarge();
    MulNonneg(d0[ix], rho);
    DivModUnique(d0[ix], BASE, 0, d0[ix]);
    var mu := d0[ix] * rho % BASE;
    ColumnClears(d0[ix], rho, n[0], mu);
    RowTotal(d0, ix, x, n, u, mu);
    var c;
    d, c := RowProducts(d0, n, mu, ix);
    LowAll(n, |n|);
    u' := u + mu * Power(ix);
    d := CarryUp(d, ix + |n|, c, x + u' * Value(n));
  }

  /** All rows. */
  method ReduceRows(d0: seq<nat>, n: seq<nat>, rho: nat, ghost x: nat) returns (d: seq<nat>, ghost u: nat)
    requires Suits(rho, n) && |d0| == 2 * |n| + 1 && Digits(d0) && Value(d0) == x < Value(n) * Power(|n|)
    ensures |d| == |d0| && Digits(d) && u < Power(|n|) && Value(d[|n|..]) * Power(|n|) == x + u * Value(n)
  {
    d, u := d0, 0;
    for ix := 0 to |n|
      invariant RowsReduced(d, ix, x, n, u)
    {
      d, u := ReduceRow(d, n, rho, ix, x, u);
    }
    ValueSplit(d, |n|);
    ValueZeros(d[..|n|]);
  }

  /** The digits the row-by-row form works on once the number has grown to digs digits,
      whether they are in use or not. */
  ghost function Found(d: seq<nat>, digs: nat): (f: seq<nat>)
    ensures |f| == digs && forall i :: 0 <= i < digs ==> f[i] == if i < |d| then d[i] else 0
  {
    if |d| < digs then d + seq(digs - |d|, i => 0) else d[..digs]
  }

  /** mp_montgomery_reduce: the comba form when its columns fit, else row by row.
      The latter takes in digits above those in use, so these must be clear. */
  method Reduce(x: MpInt, n: MpInt, rho: nat)
    requires Reducible(x, n, rho) && (n.used < WORD_TERMS || x.ClearAbove())
    modifies x
    ensures x.Trim() && Reduced(x.V(), old(x.V()), n.V(), n.used)
    ensures n.used >= WORD_TERMS ==> x.ClearAbove()
  {
    var digs := n.used * 2 + 1;
    if digs < MP_WARRAY && n.used < WORD_TERMS {
      FastReduce(x, n, rho);
      return;
    }
    ReducibleSize(x, n, rho);
    FoundClear(x, digs);
    ReduceFound(x, n, rho);
  }

  lemma {:induction false} FoundClear(x: MpInt, digs: nat)
    requires x.Valid() && x.ClearAbove() && x.used <= digs
    ensures Digits(Found(x.dp, digs)) && Value(Found(x.dp, digs)) == x.Mag()
  {
    BaseIsLarge();
    var f := Found(x.dp, digs);
    ValueDropZeros(f, x.used);
    assert f[..x.used] == x.dp[..x.used];
  }

  /** The row-by-row form, on whatever the digits hold: it reduces the number that all
      2k + 1 digits make up, not the number in use. */
  method ReduceFound(x: MpInt, n: MpInt, rho: nat)
    requires x.Valid() && n.Trim() && x != n && x.sign == ZPOS && n.sign == ZPOS && Suits(rho, n.dp[..n.used])
    requires var f := Found(x.dp, 2 * n.used + 1); Digits(f) && Value(f) < n.Mag() * Power(n.used)
    modifies x
    ensures x.Trim() && Reduced(x.V(), old(Value(Found(x.dp, 2 * n.used + 1))), n.V(), n.used)
    ensures (forall i :: 2 * n.used < i < |old(x.dp)| ==> old(x.dp)[i] == 0) ==> x.ClearAbove()
  {
    hide Pow2, Value, Reduced;
    var digs := n.used * 2 + 1;
    ghost var f := Found(x.dp, digs);
    Grow(x, digs);
    assert x.dp[..digs] == f;
    ghost var u := BaselineRows(x, n, rho, digs, Value(f));
    SubtractModulus(x, n, Value(f), u, n.used);
  }

  /** The rows and the shift down by k digits. */
  method BaselineRows(x: MpInt, n: MpInt, rho: nat, digs: nat, ghost x0: nat) returns (ghost u: nat)
    requires MP_PREC <= |x.dp| && x.sign == ZPOS && n.Valid() && n != x && Suits(rho, n.dp[..n.used])
    requires digs == 2 * n.used + 1 <= |x.dp| && Digits(x.dp[..digs])
    requires x0 == Value(x.dp[..digs]) < n.Mag() * Power(n.used)
    modifies x
    ensures x.Trim() && x.sign == ZPOS && x.Mag() * Power(n.used) == x0 + u * n.Mag() && x.Mag() < 2 * n.Mag()
    ensures (forall i :: digs <= i < |old(x.dp)| ==> old(x.dp)[i] == 0) ==> x.ClearAbove()
  {
    hide Pow2;
    BaseIsLarge();
    var d;
    d, u := ReduceRows(x.dp[..digs], n.dp[..n.used], rho, x0);
    ReducedBound(Value(d[n.used..]), Power(n.used), x0, n.Mag(), u);
    RshdValue(d, n.used);
    x.dp := d + x.dp[digs..];
    x.used := digs;
    assert x.dp[..digs] == d;
    Clamp(x);
    Rshd(x, n.used);
  }

  /** For an odd modulus there is only one such result, so the two forms agree. */
  lemma {:induction false} ReducedUnique(y: int, z: int, x: int, n: int, k: nat)
    requires n % 2 == 1 && Reduced(y, x, n, k) && Reduced(z, x, n, k)
    ensures y == z
  {
    var r := Power(k);
    CongAdd(y * r, x, z * r, x, n);
    MulDistrib(y, -z, r);
    assert (-z) * r == -(z * r);
    PowerIsPow2(k);
    CancelPow2(y - z, k * DIGIT_BIT, n);
    CongAdd(y - z, 0, z, z, n);
    CongSmall(y, z, n);
    DivModUnique(z, n, 0, z);
  }

  // ---------------------------------------------------------- normalisation

  /** mp_2expt: a = 2^b */
  method TwoExpt(a: MpInt, b: nat)
    requires MP_PREC <= |a.dp|
    modifies a
    ensures a.Trim() && a.ClearAbove() && a.V() == Pow2(b)
  {
    var k, d := b / DIGIT_BIT, b % DIGIT_BIT;
    BitCounts(b, k, d);
    Zero(a);
    Grow(a, k + 1);
    a.used := k + 1;
    Pow2Below(d);
    BaseIsLarge();
    ghost var zeros := a.dp[..k + 1];
    a.dp := a.dp[k := Pow2(d)];
    assert a.dp[..k + 1] == zeros[k := Pow2(d)];
    ValueZeros(zeros);
    ValueFill(zeros, k, Pow2(d));
    BitSplit(b, k, d);
  }

  lemma {:induction false} Pow2Below(d: nat)
    requires d < DIGIT_BIT
    ensures Pow2(d) < BASE
  {
    Pow2Monotone(d + 1, DIGIT_BIT);
  }

  /** a = 2 a, less b if that is not smaller. */
  method DoubleModulo(a: MpInt, b: MpInt, ghost r: int)
    requires a.Trim() && b.Trim() && a != b && 0 <= a.V() <= b.V() && 0 < b.V() && Cong(a.V(), r, b.V())
    modifies a
    ensures a.Trim() && 0 <= a.V() <= b.V() && Cong(a.V(), 2 * r, b.V())
    ensures old(a.V()) < b.V() <==> a.V() < b.V()
    ensures old(a.ClearAbove()) ==> a.ClearAbove()
  {
    ghost var n := b.V();
    CongAdd(a.V(), r, a.V(), r, n);
    Mul2(a, a);
    TrimmedNegative(a);
    TrimmedNegative(b);
    var o := CmpMag(a, b);
    if o != LT {
      CongFrom(a.V(), a.V() - n, 1, n);
      DigitsOrdered(a, b);
      SMpSub(a, b, a);
      TrimmedNegative(a);
    }
  }

  /** b is a power of two of several digits, and not the one that fills its top digit. */
  ghost predicate StaysAtModulus(b: MpInt)
    reads b
    requires b.Valid()
  {
    b.used > 1 && exists e: nat :: b.V() == Pow2(e) && (e + 1) % DIGIT_BIT != 0
  }

  /** The starting power of two is the modulus itself exactly for those. */
  lemma {:induction false} StartsAtModulus(b: MpInt, bits: nat, start: nat)
    requires b.Trim() && b.V() > 1 && b.used > 1 && bits > 0 && Pow2(bits - 1) <= b.Mag() < Pow2(bits)
    requires (b.used - 1) * DIGIT_BIT < bits <= b.used * DIGIT_BIT
    requires start == (b.used - 1) * DIGIT_BIT + bits % DIGIT_BIT - 1
    ensures Pow2(start) == b.V() <==> StaysAtModulus(b)
  {
    hide Pow2, Value;
    LastPlace(b.used, bits, DIGIT_BIT);
    TrimmedNegative(b);
    if bits % DIGIT_BIT == 0 { Pow2Less(start, bits - 1); }
    forall e: nat | b.V() == Pow2(e) ensures e == bits - 1 {
      if e < bits - 1 { Pow2Less(e, bits - 1); }
      if e >= bits { Pow2Monotone(bits, e); }
    }
  }

  lemma Pow2Less(j: nat, k: nat)
    requires j < k
    ensures Pow2(j) < Pow2(k)
  {
    Pow2Monotone(j, k - 1);
  }

  /** The starting point: a power of two not above b, and how many doublings are missing to
      BASE^(b.used). */
  method FirstPower(a: MpInt, b: MpInt) returns (count: nat)
    requires MP_PREC <= |a.dp| && b.Trim() && a != b && b.V() > 1
    modifies a
    ensures a.Trim() && a.ClearAbove() && 0 < a.V() <= b.V() && a.V() * Pow2(count) == Power(b.used)
    ensures a.V() == b.V() <==> StaysAtModulus(b)
  {
    hide Pow2;
    BaseIsLarge();
    TrimmedNegative(b);
    var bits := CountBits(b);
    if b.used > 1 {
      var start, low := (b.used - 1) * DIGIT_BIT + bits % DIGIT_BIT - 1, bits % DIGIT_BIT;
      LastBits(b.used, bits, b.Mag());
      StartsAtModulus(b, bits, start);
      TwoExpt(a, start);
      count := DIGIT_BIT - (low - 1);
    } else {
      Set(a, 1);
      DivModUnique(1, BASE, 0, 1);
      PowerIsPow2(1);
      count := DIGIT_BIT;
    }
  }

  /** Where the last bit of a number of u digits lies in its digit. */
  lemma LastPlace(u: nat, bits: nat, width: nat)
    requires u > 1 && width > 0 && (u - 1) * width < bits <= u * width
    ensures var low := bits % width;
      && 0 <= low < width && 0 < (u - 1) * width
      && (if bits == u * width then low == 0 else low == bits - (u - 1) * width) && u * width == (u - 1) * width + width
  {
    MulDistrib(u - 1, 1, width);
    MulMonotone(1, u - 1, width);
    if bits == u * width {
      DivModUnique(bits, width, u, 0);
    } else {
      DivModUnique(bits, width, u - 1, bits - (u - 1) * width);
    }
  }

  lemma {:induction false} LastBits(u: nat, bits: nat, v: nat)
    requires u > 1 && (u - 1) * DIGIT_BIT < bits <= u * DIGIT_BIT && Pow2(bits - 1) <= v
    ensures var low := bits % DIGIT_BIT; var start := (u - 1) * DIGIT_BIT + low - 1;
      && 0 <= low < DIGIT_BIT && 0 < start && Pow2(start) <= v && Pow2(start) % 2 == 0
      && Pow2(start) * Pow2(DIGIT_BIT - (low - 1)) == Power(u)
  {
    hide Pow2;
    LastPlace(u, bits, DIGIT_BIT);
    MulMonotone(1, u - 1, DIGIT_BIT);
    var low := bits % DIGIT_BIT;
    var start := (u - 1) * DIGIT_BIT + low - 1;
    Pow2Monotone(start, bits - 1);
    Pow2Even(start);
    Pow2Add(start, DIGIT_BIT - (low - 1));
    PowerIsPow2(u);
  }

  lemma Pow2Even(k: nat)
    requires k > 0
    ensures Pow2(k) % 2 == 0
  {
    assert Pow2(k) == 2 * Pow2(k - 1);
  }

  /** mp_montgomery_calc_normalization: a is BASE^k modulo b, except for the powers of two
      for which the doubling starts at b and stays there. */
  method CalcNormalization(a: MpInt, b: MpInt)
    requires MP_PREC <= |a.dp| && b.Trim() && a != b && b.V() > 1
    modifies a
    ensures a.Trim() && a.ClearAbove() && 0 <= a.V() <= b.V() && Cong(a.V(), Power(b.used), b.V())
    ensures a.V() == Power(b.used) % b.V() <==> !StaysAtModulus(b)
    ensures StaysAtModulus(b) ==> a.V() == b.V()
  {
    hide Power, Pow2;
    var count := FirstPower(a, b);
    ghost var n, r := b.V(), a.V();
    PowerOfNone(r);
    for x := 0 to count
      invariant a.Trim() && a.ClearAbove() && 0 <= a.V() <= n && Cong(a.V(), r * Pow2(x), n)
      invariant a.V() == n <==> StaysAtModulus(b)
    {
      DoubleModulo(a, b, r * Pow2(x));
      Doubled(r, x);
    }
    DivMod(Power(b.used), n);
    if a.V() < n { CongSmall(a.V(), Power(b.used), n); }
  }

  lemma PowerOfNone(r: int)
    ensures r * Pow2(0) == r
  {
    assert Pow2(0) == 1;
  }

  lemma Doubled(r: int, x: nat)
    ensures 2 * (r * Pow2(x)) == r * Pow2(x + 1)
  {
    assert Pow2(x + 1) == 2 * Pow2(x);
    MulAssoc(2, r, Pow2(x));
    MulAssoc(r, 2, Pow2(x));
  }

  /** An odd number is no power of two of several digits. */
  lemma {:induction false} OddIsNormalized(b: MpInt)
    requires b.Trim() && b.V() % 2 == 1
    ensures !StaysAtModulus(b)
  {
    forall e: nat | b.V() == Pow2(e) ensures (e + 1) % DIGIT_BIT != 0 ==> b.used <= 1 {
      if e > 0 { Pow2Even(e); } else { assert Pow2(0) == 1; OneHasOneDigit(b); }
    }
  }

  lemma {:induction false} OneHasOneDigit(b: MpInt)
    requires b.Trim() && b.V() == 1
    ensures b.used <= 1
  {
    TrimmedNegative(b);
    BaseIsLarge();
    if b.used > 1 { SeveralDigits(b); }
  }

  /** The smallest such number: BASE itself, for which b comes out instead of zero. */
  lemma {:induction false} BaseStays(b: MpInt)
    requires b.Trim() && b.sign == ZPOS && b.used == 2 && b.dp[0] == 0 && b.dp[1] == 1
    ensures b.V() == BASE && StaysAtModulus(b)
  {
    var s := b.dp[..2];
    assert Value(s) == Value(s[..1]) + s[1] * Power(1) && Value(s[..1]) == Value(s[..1][..0]) + s[0] * Power(0);
    assert s[..1][..0] == [] && Power(1) == BASE * Power(0) && Power(0) == 1;
    DivModUnique(DIGIT_BIT + 1, DIGIT_BIT, 1, 1);
    assert b.V() == Pow2(DIGIT_BIT);
  }
}
