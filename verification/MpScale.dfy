/** Multiplication and division by a single digit or a power of two. All of them
    walk the digits once, upwards when multiplying and downwards when dividing,
    so two column invariants serve every routine. */
module MpScale {
  import opened Arith
  import opened MpDigits
  import opened MpInts
  import opened MpAddSub

  // -------------------------------------------------------- column invariants

  /** The lowest k digits of q, with carry u, are the lowest k digits of s times b. */
  ghost predicate Multiplied(s: seq<nat>, q: seq<nat>, k: nat, b: nat, u: nat) {
    && k <= |s| && k <= |q| && u <= b
    && (forall j :: 0 <= j < k ==> q[j] < BASE)
    && Value(q[..k]) + u * Power(k) == Value(s[..k]) * b
  }

  /** The digits of q from k up, with remainder w, are those of s divided by b. */
  ghost predicate Divided(s: seq<nat>, q: seq<nat>, k: nat, b: nat, w: nat) {
    && k <= |s| <= |q| && w < b
    && (forall j :: k <= j < |s| ==> q[j] < BASE)
    && Value(s[k..]) == Value(q[k..|s|]) * b + w
  }

  lemma {:induction false} MultipliedStep(s: seq<nat>, q: seq<nat>, k: nat, b: nat, u: nat, r: nat, u': nat)
    requires Multiplied(s, q, k, b, u) && k < |s| && k < |q| && s[k] < BASE
    requires r < BASE && r + u' * BASE == s[k] * b + u
    ensures u' <= b && Multiplied(s, q[k := r], k + 1, b, u')
  {
    var p := Power(k);
    assert u' <= b by { CarryBound(s[k], b, u, r, u'); }
    ValueStep(s, k);
    var q' := q[k := r];
    ValueStep(q', k);
    assert q'[..k] == q[..k];
    MulColumn(p, r, u', s[k], b, u);
    MulDistrib(Value(s[..k]), s[k] * p, b);
  }

  lemma CarryBound(x: nat, b: nat, u: nat, r: nat, u': nat)
    requires x < BASE && u <= b && r + u' * BASE == x * b + u
    ensures u' <= b
  {
    MulMonotone(x + 1, BASE, b);
    MulDistrib(x, 1, b);
    MulDistrib(b, 1, BASE);
    if u' > b { MulMonotone(b + 1, u', BASE); }
  }

  lemma MulColumn(p: nat, r: nat, u': nat, x: nat, b: nat, u: nat)
    requires r + u' * BASE == x * b + u
    ensures r * p + u' * (BASE * p) == (x * p) * b + u * p
  {
    MulDistrib(x * b, u, p);
    MulDistrib(r, u' * BASE, p);
    MulAssoc(u', BASE, p);
    assert (x * b) * p == (x * p) * b;
  }

  lemma {:induction false} DividedStep(s: seq<nat>, q: seq<nat>, k: nat, b: nat, w: nat, t: nat, w': nat)
    requires Divided(s, q, k + 1, b, w) && s[k] < BASE
    requires w' < b && t * b + w' == w * BASE + s[k]
    ensures t < BASE && Divided(s, q[k := t], k, b, w')
  {
    assert t < BASE by { QuotientBound(s[k], b, w, t, w'); }
    var q' := q[k := t];
    ValueLow(s[k..]);
    assert s[k..][1..] == s[k + 1..];
    ValueLow(q'[k..|s|]);
    assert q'[k..|s|][1..] == q[k + 1..|s|];
    DivColumn(Value(q[k + 1..|s|]), b, w, s[k], t, w');
  }

  lemma QuotientBound(x: nat, b: nat, w: nat, t: nat, w': nat)
    requires x < BASE && w < b && t * b + w' == w * BASE + x
    ensures t < BASE
  {
    MulMonotone(w + 1, b, BASE);
    MulDistrib(w, 1, BASE);
    MulCancelLess(t, BASE, b);
  }

  lemma DivColumn(n: nat, b: nat, w: nat, x: nat, t: nat, w': nat)
    requires t * b + w' == w * BASE + x
    ensures x + (n * b + w) * BASE == (t + n * BASE) * b + w'
  {
    MulDistrib(n * b, w, BASE);
    MulDistrib(t, n * BASE, b);
    MulAssoc(n, b, BASE);
    MulAssoc(n, BASE, b);
  }

  /** At the bottom the walk has found quotient and remainder. */
  lemma {:induction false} DividedDone(s: seq<nat>, q: seq<nat>, b: nat, w: nat)
    requires Divided(s, q, 0, b, w)
    ensures Value(q[..|s|]) == Value(s) / b && w == Value(s) % b
  {
    assert s[0..] == s && q[0..|s|] == q[..|s|];
    DivModUnique(Value(s), b, Value(q[..|s|]), w);
  }

  lemma {:induction false} DividedStart(s: seq<nat>, q: seq<nat>, b: nat)
    requires |s| <= |q| && 0 < b
    ensures Divided(s, q, |s|, b, 0)
  {
    assert s[|s|..] == [] && q[|s|..|s|] == [];
  }

  // --------------------------------------------------------------- by a digit

  /** Values an mp_word can hold. */
  const WORD_RANGE: nat := WORD_TERMS * (BASE * BASE)

  /** A column of mp_mul_d: its word r does not overflow and splits into a digit
      and the next carry. */
  lemma {:induction false} DigitColumn(s: seq<nat>, q: seq<nat>, k: nat, b: nat, u: nat, r: nat)
    requires Multiplied(s, q, k, b, u) && k < |s| && k < |q| && s[k] < BASE && b < BASE
    requires r == u + s[k] * b
    ensures 0 <= r % BASE < BASE && 0 <= r / BASE && r < WORD_RANGE
    ensures Multiplied(s, q[k := r % BASE], k + 1, b, r / BASE)
  {
    assert r < WORD_RANGE by { WordFits(s[k], b, u); }
    QuotientMonotone(0, r, BASE);
    DivMod(r, BASE);
    MultipliedStep(s, q, k, b, u, r % BASE, r / BASE);
  }

  lemma WordFits(x: nat, b: nat, u: nat)
    requires x < BASE && b < BASE && u <= b
    ensures u + x * b < WORD_RANGE
  {
    MulMonotone(x + 1, BASE, b);
    MulDistrib(x, 1, b);
    MulMonotone(b, BASE, BASE);
  }

  /** The column loop of mp_mul_d. */
  method MulDigits(a: MpInt, c: MpInt, n: nat, b: nat, ghost da: seq<nat>) returns (u: nat)
    requires n == |da| && n < |c.dp| && Digits(da) && Holds(a, da, 0) && b < BASE
    modifies c`dp
    ensures Multiplied(da, c.dp, n, b, u) && Written(c.dp, old(c.dp), n)
  {
    u := 0;
    for i := 0 to n
      invariant Holds(a, da, i) && Multiplied(da, c.dp, i, b, u) && Written(c.dp, old(c.dp), i)
    {
      MulNonneg(a.dp[i], b);
      var r: nat := u + a.dp[i] * b;
      DigitColumn(da, c.dp, i, b, u, r);
      c.dp := c.dp[i := r % BASE];
      u := r / BASE;
    }
  }

  lemma {:induction false} MultipliedDone(s: seq<nat>, q: seq<nat>, b: nat, u: nat)
    requires Multiplied(s, q, |s|, b, u) && |s| < |q|
    ensures Value(q[|s| := u][..|s| + 1]) == Value(s) * b
  {
    var q' := q[|s| := u];
    ValueStep(q', |s|);
    assert q'[..|s|] == q[..|s|] && s[..|s|] == s;
  }

  lemma SignedProduct(x: int, b: int)
    ensures (0 - x) * b == 0 - x * b
  {
  }

  /** mp_mul_d */
  method MulD(a: MpInt, b: nat, c: MpInt)
    requires a.Valid() && c.Valid() && b < BASE
    modifies c
    ensures c.Trim() && c.Mag() == old(a.Mag()) * b && c.V() == old(a.V()) * b && c.used <= old(a.used) + 1
    ensures old(c.ClearAbove()) ==> c.ClearAbove()
  {
    hide Pow2, Written;
    ghost var da := a.dp[..a.used];
    var n := a.used;
    Grow(c, n + 1);
    var olduse := c.used;
    c.sign := a.sign;
    MulColumns(a, c, n, b, da);
    FinishDigits(c, n + 1, olduse);
    SignedProduct(Value(da), b);
  }

  /** All columns of the product and the last carry. */
  method MulColumns(a: MpInt, c: MpInt, n: nat, b: nat, ghost da: seq<nat>)
    requires n == |da| && n < |c.dp| && Digits(da) && Holds(a, da, 0) && b < BASE
    modifies c`dp
    ensures Written(c.dp, old(c.dp), n + 1) && Value(c.dp[..n + 1]) == Value(da) * b
  {
    var u := MulDigits(a, c, n, b, da);
    MultipliedDone(da, c.dp, b, u);
    c.dp := c.dp[n := u];
  }
}
