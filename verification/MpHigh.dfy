/** The high half of a product: only columns at and above digs are computed, so the
    carries out of the lower columns are lost. */
module MpHigh {
  import opened Arith
  import opened Modular
  import opened MpDigits
  import opened MpInts
  import opened MpAddSub
  import opened MpScale
  import opened MpColumns
  import opened MpMulDigs

  /** Columns n to l - 1, weighted from column n on. */
  function HighColumns(x: seq<nat>, y: seq<nat>, n: nat, l: nat): nat
    requires n <= l
    decreases l
  {
    if l == n then 0 else
    MulNonneg(Column(x, y, l - 1, l), Power(l - 1 - n));
    HighColumns(x, y, n, l - 1) + Column(x, y, l - 1, l) * Power(l - 1 - n)
  }

  lemma {:induction false} ColumnsSplit(x: seq<nat>, y: seq<nat>, n: nat, l: nat)
    requires n <= l
    ensures Columns(x, y, l) == Columns(x, y, n) + HighColumns(x, y, n, l) * Power(n)
    decreases l
  {
    if n < l {
      ColumnsSplit(x, y, n, l - 1);
      var c := Column(x, y, l - 1, l);
      PowerAdd(l - 1 - n, n);
      MulAssoc(c, Power(l - 1 - n), Power(n));
      MulDistrib(HighColumns(x, y, n, l - 1), c * Power(l - 1 - n), Power(n));
    }
  }

  /** What is left of a product without the columns below n. */
  function HighPart(x: seq<nat>, y: seq<nat>, n: nat): (h: nat)
    ensures Value(x) * Value(y) == Columns(x, y, n) + h * Power(n)
  {
    var l := n + |x| + |y|;
    ColumnsAll(x, y, l);
    ColumnsSplit(x, y, n, l);
    HighColumns(x, y, n, l)
  }

  lemma {:induction false} HighPartUnique(x: seq<nat>, y: seq<nat>, n: nat, h: nat)
    requires Value(x) * Value(y) == Columns(x, y, n) + h * Power(n)
    ensures h == HighPart(x, y, n)
  {
    var g := HighPart(x, y, n);
    if h < g { MulMonotone(h + 1, g, Power(n)); MulDistrib(h, 1, Power(n)); }
    if g < h { MulMonotone(g + 1, h, Power(n)); MulDistrib(g, 1, Power(n)); }
  }

  // ----------------------------------------------------------- the lost carries

  lemma {:induction false} ColumnBound(x: seq<nat>, y: seq<nat>, k: nat, m: nat)
    requires Digits(x) && Digits(y) && m <= k + 1
    ensures Column(x, y, k, m) <= m * ((BASE - 1) * (BASE - 1))
  {
    if m > 0 {
      ColumnBound(x, y, k, m - 1);
      BaseIsLarge();
      TermBound(DigitAt(x, m - 1), DigitAt(y, k - (m - 1)), BASE - 1);
      MulDistrib(m - 1, 1, (BASE - 1) * (BASE - 1));
    }
  }

  /** The n lowest columns amount to less than n times BASE^(n+1). */
  lemma {:induction false} ColumnsBound(x: seq<nat>, y: seq<nat>, n: nat)
    requires Digits(x) && Digits(y)
    ensures Columns(x, y, n) <= n * ((BASE - 1) * Power(n))
  {
    if n > 0 {
      ColumnsBound(x, y, n - 1);
      ColumnBound(x, y, n - 1, n);
      BaseIsLarge();
      var b, p, c := BASE - 1, Power(n - 1), Column(x, y, n - 1, n);
      MulMonotone(c, n * (b * b), p);
      ColumnsArith(n, b, p, Columns(x, y, n - 1), c);
    }
  }

  lemma ColumnsArith(n: nat, b: nat, p: nat, s: nat, c: nat)
    requires n > 0 && s <= (n - 1) * (b * p) && c * p <= n * (b * b) * p
    ensures s + c * p <= n * (b * ((b + 1) * p))
  {
    var q := b * p;
    MulAssoc(n, b * b, p);
    MulAssoc(b, b, p);
    assert b * ((b + 1) * p) == b * q + q by {
      MulDistrib(b, 1, p);
      MulDistribLeft(b, q, p);
    }
    MulDistribLeft(n, b * q, q);
    MulDistrib(n - 1, 1, q);
    MulNonneg(b, p);
  }

  // ------------------------------------------------------------------- comba

  /** Storing a high column's digit and carrying the rest. */
  lemma {:induction false} StoreHigh(x: seq<nat>, y: seq<nat>, d: seq<nat>, n: nat, l: nat, carry: nat, w: nat)
    requires n <= l && |d| == l - n && Value(d) + carry * Power(l - n) == HighColumns(x, y, n, l)
    requires w == carry + Column(x, y, l, l + 1) && w < WORD_RANGE
    ensures 0 <= w % BASE < BASE && 0 <= w / BASE < WORD_TERMS * BASE
    ensures Value(d + [w % BASE]) + w / BASE * Power(l + 1 - n) == HighColumns(x, y, n, l + 1)
  {
    DivMod(w, BASE);
    MulAssoc(WORD_TERMS, BASE, BASE);
    QuotientBetween(w, BASE, 0, WORD_TERMS * BASE);
    ValueAppend(d, w % BASE);
    var p := Power(l - n);
    MulDistrib(w / BASE * BASE, w % BASE, p);
    MulAssoc(w / BASE, BASE, p);
    MulDistrib(carry, Column(x, y, l, l + 1), p);
  }

  /** The column loop of fast_s_mp_mul_high_digs. */
  method FillHighColumns(x: seq<nat>, y: seq<nat>, digs: nat, pa: nat, W: array<nat>)
    requires Digits(x) && Digits(y) && Min(|x|, |y|) <= WORD_TERMS && digs <= pa <= W.Length && pa == |x| + |y|
    modifies W
    ensures Digits(W[digs..pa]) && Value(W[digs..pa]) == HighPart(x, y, digs)
  {
    hide Power, Pow2;
    BaseIsLarge();
    var w: nat := 0;
    assert W[digs..digs] == [];
    for ix := digs to pa
      invariant Digits(W[digs..ix]) && w < WORD_TERMS * BASE
      invariant Value(W[digs..ix]) + w * Power(ix - digs) == HighColumns(x, y, digs, ix)
    {
      var t := AddColumnTerms(x, y, ix, w);
      ghost var d := W[digs..ix];
      StoreHigh(x, y, d, digs, ix, w, t);
      W[ix] := t % BASE;
      assert W[digs..ix + 1] == d + [t % BASE];
      w := t / BASE;
    }
    NoHighCarry(x, y, W[digs..pa], digs, w);
  }

  /** The whole product fits its digits, so no carry is left at the top. */
  lemma {:induction false} NoHighCarry(x: seq<nat>, y: seq<nat>, d: seq<nat>, digs: nat, w: nat)
    requires Digits(x) && Digits(y) && digs <= |x| + |y| && |d| == |x| + |y| - digs
    requires Value(d) + w * Power(|d|) == HighColumns(x, y, digs, |x| + |y|)
    ensures w == 0 && Value(d) == HighPart(x, y, digs)
  {
    var l, h := |x| + |y|, HighColumns(x, y, digs, |x| + |y|);
    ColumnsAll(x, y, l);
    ColumnsSplit(x, y, digs, l);
    HighPartUnique(x, y, digs, h);
    ProductBound(x, y);
    PowerAdd(l - digs, digs);
    MulCancelLess(h, Power(l - digs), Power(digs));
    if w > 0 { MulMonotone(1, w, Power(|d|)); }
  }

  /** fast_s_mp_mul_high_digs. The digits below digs are whatever c had there. */
  method FastMulHighDigs(a: MpInt, b: MpInt, c: MpInt, digs: nat)
    requires a.Valid() && b.Valid() && c.Valid() && c.ClearAbove()
    requires a.used + b.used + 1 < MP_WARRAY && Min(a.used, b.used) <= WORD_TERMS
    modifies c
    ensures c.Trim() && |old(c.dp)| <= |c.dp| && (old(c.sign) == ZPOS ==> c.sign == ZPOS)
    ensures old(a.used) + old(b.used) >= digs ==>
      c.Mag() / Power(digs) == HighPart(old(a.dp[..a.used]), old(b.dp[..b.used]), digs)
    ensures c.used <= old(a.used) + old(b.used)
  {
    var pa := a.used + b.used;
    var W := new nat[MP_WARRAY];
    if digs <= pa { FillHighColumns(a.dp[..a.used], b.dp[..b.used], digs, pa, W); }
    StoreHighDigits(c, W, digs, pa);
  }

  /** Put the computed digits in place. If there are none, only the digit count changes. */
  method StoreHighDigits(c: MpInt, W: array<nat>, digs: nat, pa: nat)
    requires c.Valid() && c.ClearAbove() && pa <= W.Length && (digs <= pa ==> Digits(W[digs..pa]))
    modifies c
    ensures c.Trim() && |old(c.dp)| <= |c.dp| && (old(c.sign) == ZPOS ==> c.sign == ZPOS) && c.used <= pa
    ensures digs <= pa ==> c.Mag() / Power(digs) == Value(W[digs..pa])
  {
    hide Pow2, Value;
    BaseIsLarge();
    Grow(c, pa);
    var olduse := c.used;
    var dp := c.dp;
    if digs <= pa {
      assert forall j :: digs <= j < pa ==> W[j] == W[digs..pa][j - digs];
      dp := CopyHigh(W, c.dp, digs, pa);
    }
    ghost var d := dp[..pa];
    c.used := pa;
    c.dp := ClearDigits(dp, Max(digs, pa), olduse);
    assert c.dp[..pa] == d;
    if digs <= pa {
      assert d[digs..] == W[digs..pa];
      RshdValue(d, digs);
    }
    Clamp(c);
  }

  /** Copy digits lo to hi of the buffer over those of the number. */
  method CopyHigh(W: array<nat>, dp: seq<nat>, lo: nat, hi: nat) returns (r: seq<nat>)
    requires lo <= hi <= W.Length && hi <= |dp|
    ensures |r| == |dp| && forall j :: 0 <= j < |dp| ==> r[j] == if lo <= j < hi then W[j] else dp[j]
  {
    r := dp;
    for ix := lo to hi
      invariant |r| == |dp| && forall j :: 0 <= j < |dp| ==> r[j] == if lo <= j < ix then W[j] else dp[j]
    {
      r := r[ix := W[ix]];
    }
  }

  // -------------------------------------------------------------- row by row

  /** The digits of y from position m on. */
  function Upper(y: seq<nat>, m: nat): seq<nat> {
    if m <= |y| then y[m..] else []
  }

  /** The sum of the rows of s_mp_mul_high_digs, for at most n + 1 rows. */
  function HighRows(x: seq<nat>, y: seq<nat>, n: nat): nat
    requires |x| <= n + 1
  {
    if |x| == 0 then 0 else
    var l := |x| - 1;
    MulNonneg(x[l], Value(Upper(y, n - l)));
    HighRows(x[..l], y, n) + x[l] * Value(Upper(y, n - l))
  }

  lemma {:induction false} UpperValue(y: seq<nat>, m: nat)
    ensures Value(y) == Low(y, m) + Value(Upper(y, m)) * Power(m)
  {
    if m <= |y| { ValueSplit(y, m); }
  }

  /** The rows make up the high part of the product. */
  lemma {:induction false} HighRowsSum(x: seq<nat>, y: seq<nat>, n: nat)
    requires |x| <= n + 1
    ensures Value(x) * Value(y) == Columns(x, y, n) + HighRows(x, y, n) * Power(n)
  {
    hide Power, Column;
    if |x| == 0 {
      ColumnsEmpty(x, y, n);
    } else {
      var l := |x| - 1;
      HighRowsSum(x[..l], y, n);
      assert x == x[..l] + [x[l]];
      ColumnsAppend(x[..l], x[l], y, n);
      UpperValue(y, n - l);
      PowerAdd(n - l, l);
      HighRowArith(Value(x[..l]), x[l], Power(l), Value(y), Low(y, n - l), Value(Upper(y, n - l)), Power(n - l),
                   Columns(x[..l], y, n), HighRows(x[..l], y, n), Power(n));
    }
  }

  lemma HighRowArith(v: nat, d: nat, p: nat, y: nat, low: nat, up: nat, q: nat, c: nat, h: nat, r: nat)
    requires v * y == c + h * r && y == low + up * q && q * p == r
    ensures (v + d * p) * y == c + d * (low * p) + (h + d * up) * r
  {
    MulDistrib(v, d * p, y);
    MulAssoc(d, p, y);
    MulSum(y, low, up * q, p);
    MulAssoc(up, q, p);
    MulDistribLeft(d, low * p, up * r);
    MulAssoc(d, up, r);
    MulDistrib(h, d * up, r);
  }

  /** The rows of s_mp_mul_high_digs; d are the digits from digs up. */
  method AddHighRows(x: seq<nat>, y: seq<nat>, digs: nat, zeros: seq<nat>) returns (d: seq<nat>)
    requires Digits(x) && Digits(y) && |x| <= digs + 1 && digs <= |x| + |y| && |zeros| == |x| + |y| + 1 - digs
    requires forall j :: 0 <= j < |zeros| ==> zeros[j] == 0
    ensures |d| == |zeros| && Digits(d) && Value(d) == HighPart(x, y, digs)
  {
    hide Value, Power, Pow2, Cong, HighRows, HighPart;
    BaseIsLarge();
    d := zeros;
    HighRowsStart(x, y, digs, zeros);
    for ix := 0 to |x|
      invariant |d| == |zeros| && Digits(d) && forall j :: RowTop(|y|, digs, ix) <= j < |d| ==> d[j] == 0
      invariant Cong(Value(d), HighRows(x[..ix], y, digs), Power(|d|))
    {
      ghost var v := Value(d);
      d := HighRow(d, x[ix], y, digs, ix);
      HighRowsStep(x, y, digs, ix, v, Value(d), Power(|d|));
    }
    assert x[..|x|] == x;
    HighRowsDone(x, y, digs, d);
  }

  lemma {:induction false} HighRowsStart(x: seq<nat>, y: seq<nat>, digs: nat, zeros: seq<nat>)
    requires forall j :: 0 <= j < |zeros| ==> zeros[j] == 0
    ensures Digits(zeros) && Power(|zeros|) > 0 && |x[..0]| <= digs + 1
    ensures Cong(Value(zeros), HighRows(x[..0], y, digs), Power(|zeros|))
  {
    BaseIsLarge();
    ValueZeros(zeros);
  }

  /** How many digits row ix reaches above digs. */
  function RowTop(ly: nat, digs: nat, ix: nat): nat {
    if ix + ly > digs then ix + ly - digs else 0
  }

  /** One row: the digits of y whose column is at least digs. */
  method HighRow(d0: seq<nat>, x: nat, y: seq<nat>, digs: nat, ix: nat) returns (d: seq<nat>)
    requires Digits(d0) && Digits(y) && x < BASE && ix <= digs && |d0| > 0
    requires forall j :: RowTop(|y|, digs, ix) <= j < |d0| ==> d0[j] == 0
    ensures |d| == |d0| && Digits(d) && forall j :: RowTop(|y|, digs, ix + 1) <= j < |d| ==> d[j] == 0
    ensures Cong(Value(d), Value(d0) + x * Value(Upper(y, digs - ix)), Power(|d|))
  {
    BaseIsLarge();
    var up := Upper(y, digs - ix);
    if |up| == 0 {
      d := d0[0 := 0];
      assert d == d0;
    } else {
      d := AddRow(d0, x, up, 0);
      assert Power(0) == 1;
    }
  }

  lemma {:induction false} HighRowsStep(x: seq<nat>, y: seq<nat>, n: nat, ix: nat, v: nat, v': nat, m: nat)
    requires ix < |x| <= n + 1 && 0 < m && Cong(v, HighRows(x[..ix], y, n), m)
    requires Cong(v', v + x[ix] * Value(Upper(y, n - ix)), m)
    ensures Cong(v', HighRows(x[..ix + 1], y, n), m)
  {
    var e := x[ix] * Value(Upper(y, n - ix));
    CongAdd(v, HighRows(x[..ix], y, n), e, e, m);
    assert x[..ix + 1][..ix] == x[..ix];
  }

  lemma {:induction false} HighRowsDone(x: seq<nat>, y: seq<nat>, n: nat, d: seq<nat>)
    requires Digits(x) && Digits(y) && Digits(d) && |x| <= n + 1 && n <= |x| + |y| && |d| == |x| + |y| + 1 - n
    requires Cong(Value(d), HighRows(x, y, n), Power(|d|))
    ensures Value(d) == HighPart(x, y, n)
  {
    var h, l := HighRows(x, y, n), |x| + |y|;
    HighRowsSum(x, y, n);
    HighPartUnique(x, y, n, h);
    ProductBound(x, y);
    PowerAdd(l - n, n);
    MulCancelLess(h, Power(l - n), Power(n));
    PowerMonotone(l - n, |d|);
    ValueBound(d);
    CongSmall(Value(d), h, Power(|d|));
    DivModUnique(h, Power(|d|), 0, h);
  }

  /** s_mp_mul_high_digs, for at most digs + 1 digits in a. */
  method SMulHighDigs(a: MpInt, b: MpInt, c: MpInt, digs: nat)
    requires a.Valid() && b.Valid() && c.Valid() && c.ClearAbove() && a.used <= digs + 1 && digs <= a.used + b.used
    modifies c
    ensures c.Trim() && (old(c.sign) == ZPOS ==> c.sign == ZPOS) && c.used <= |c.dp|
    ensures c.Mag() / Power(digs) == HighPart(old(a.dp[..a.used]), old(b.dp[..b.used]), digs)
  {
    if a.used + b.used + 1 < MP_WARRAY && Min(a.used, b.used) < WORD_TERMS {
      FastMulHighDigs(a, b, c, digs);
      return;
    }
    var n := a.used + b.used + 1;
    var t := new MpInt.InitSize(n);
    var d := AddHighRows(a.dp[..a.used], b.dp[..b.used], digs, t.dp[digs..n]);
    StoreHighRows(t, d, digs, n);
    Exch(t, c);
  }

  method StoreHighRows(t: MpInt, d: seq<nat>, digs: nat, n: nat)
    requires t.Valid() && t.ClearAbove() && t.used == 0 && t.sign == ZPOS && digs <= n <= |t.dp|
    requires |d| == n - digs && Digits(d)
    modifies t
    ensures t.Trim() && t.sign == ZPOS && t.Mag() / Power(digs) == Value(d)
  {
    BaseIsLarge();
    t.dp := t.dp[..digs] + d + t.dp[n..];
    t.used := n;
    ghost var e := t.dp[..n];
    assert e[digs..] == d;
    RshdValue(e, digs);
    Clamp(t);
  }
}
