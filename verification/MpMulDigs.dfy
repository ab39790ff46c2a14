/** The two baseline multipliers. Both compute the lowest digs digits of |a| * |b|:
    the comba form adds up whole columns before it carries, the schoolbook form
    carries row by row. */
module MpMulDigs {
  import opened Arith
  import opened Modular
  import opened MpDigits
  import opened MpInts
  import opened MpAddSub
  import opened MpScale
  import opened MpColumns

  /** The product cut down to n digits. */
  function LowProduct(x: nat, y: nat, n: nat): (p: nat)
    ensures p < Power(n)
  {
    DivMod(x * y, Power(n));
    x * y % Power(n)
  }

  lemma {:induction false} ProductBound(x: seq<nat>, y: seq<nat>)
    requires Digits(x) && Digits(y)
    ensures 0 <= Value(x) * Value(y) < Power(|x| + |y|)
  {
    ValueBound(x);
    ValueBound(y);
    PowerAdd(|x|, |y|);
    MulNonneg(Value(x), Value(y));
    MulMonotone(Value(x), Power(|x|), Value(y));
    MulMonotone(Value(y) + 1, Power(|y|), Power(|x|));
    MulDistrib(Value(y), 1, Power(|x|));
  }

  /** With enough digits nothing is cut off. */
  lemma {:induction false} LowProductExact(x: seq<nat>, y: seq<nat>, n: nat)
    requires Digits(x) && Digits(y) && |x| + |y| <= n
    ensures LowProduct(Value(x), Value(y), n) == Value(x) * Value(y)
  {
    ProductBound(x, y);
    PowerMonotone(|x| + |y|, n);
    DivModUnique(Value(x) * Value(y), Power(n), 0, Value(x) * Value(y));
  }

  /** Digits congruent to the product are its lowest digits. */
  lemma {:induction false} LowProductDigits(x: seq<nat>, y: seq<nat>, d: seq<nat>, digs: nat)
    requires Digits(x) && Digits(y) && Digits(d) && |d| == Min(digs, |x| + |y|)
    requires Cong(Value(d), Value(x) * Value(y), Power(|d|))
    ensures Value(d) == LowProduct(Value(x), Value(y), digs)
  {
    ValueBound(d);
    CongSmall(Value(d), Value(x) * Value(y), Power(|d|));
    if |d| < digs {
      LowProductExact(x, y, |d|);
      LowProductExact(x, y, digs);
    }
  }

  // ------------------------------------------------------------------- comba

  /** A column of at most WORD_TERMS products and a carry fits a word. */
  lemma ColumnFits(w: nat, carry: nat, terms: nat)
    requires carry < WORD_TERMS * BASE && terms <= WORD_TERMS && w <= carry + terms * ((BASE - 1) * (BASE - 1))
    ensures w < WORD_RANGE
  {
    hide Pow2;
    BaseIsLarge();
    var q := (BASE - 1) * (BASE - 1);
    assert q == BASE * BASE - 2 * BASE + 1;
    MulMonotone(terms, WORD_TERMS, q);
  }

  lemma TermBound(x: nat, y: nat, b: nat)
    requires x <= b && y <= b
    ensures 0 <= x * y <= b * b
  {
    MulNonneg(x, y);
    MulMonotone(x, b, y);
    MulMonotone(y, b, b);
  }

  /** The inner loop: adds the products of column ix to the carry. */
  method AddColumnTerms(x: seq<nat>, y: seq<nat>, ix: nat, carry: nat) returns (w: nat)
    requires Digits(x) && Digits(y) && Min(|x|, |y|) <= WORD_TERMS && carry < WORD_TERMS * BASE
    ensures w == carry + Column(x, y, ix, ix + 1) && w < WORD_RANGE
  {
    hide Pow2;
    var ty := if |y| - 1 < ix then |y| - 1 else ix;
    var tx := ix - ty;
    var iy := if |x| - tx < ty + 1 then |x| - tx else ty + 1;
    if ty == |y| - 1 { ColumnZero(x, y, ix, tx); }
    w := carry;
    var iz := 0;
    while iz < iy
      invariant 0 <= iz && (iz <= iy || iz == 0)
      invariant w == carry + Column(x, y, ix, tx + iz) && w <= carry + iz * ((BASE - 1) * (BASE - 1))
    {
      TermBound(x[tx + iz], y[ty - iz], BASE - 1);
      MulDistrib(iz, 1, (BASE - 1) * (BASE - 1));
      w := w + x[tx + iz] * y[ty - iz];
      iz := iz + 1;
    }
    if |x| <= tx + iz { ColumnFull(x, y, ix, tx + iz); }
    ColumnFits(w, carry, iz);
  }

  /** Storing a column's low digit and carrying the rest. */
  lemma {:induction false} StoreColumn(x: seq<nat>, y: seq<nat>, d: seq<nat>, n: nat, carry: nat, w: nat)
    requires |d| == n && Value(d) + carry * Power(n) == Columns(x, y, n)
    requires w == carry + Column(x, y, n, n + 1) && w < WORD_RANGE
    ensures 0 <= w % BASE < BASE && 0 <= w / BASE < WORD_TERMS * BASE
    ensures Value(d + [w % BASE]) + w / BASE * Power(n + 1) == Columns(x, y, n + 1)
  {
    DivMod(w, BASE);
    MulAssoc(WORD_TERMS, BASE, BASE);
    QuotientBetween(w, BASE, 0, WORD_TERMS * BASE);
    ValueAppend(d, w % BASE);
    var p := Power(n);
    MulDistrib(w / BASE * BASE, w % BASE, p);
    MulAssoc(w / BASE, BASE, p);
    MulDistrib(carry, Column(x, y, n, n + 1), p);
  }

  /** The column loop: W[..pa] becomes the low digits of the product. */
  method FillColumns(x: seq<nat>, y: seq<nat>, pa: nat, W: array<nat>)
    requires Digits(x) && Digits(y) && Min(|x|, |y|) <= WORD_TERMS && pa <= W.Length
    modifies W
    ensures Digits(W[..pa]) && Cong(Value(W[..pa]), Columns(x, y, pa), Power(pa))
  {
    var w: nat := 0;
    for ix := 0 to pa
      invariant Digits(W[..ix]) && w < WORD_TERMS * BASE && Value(W[..ix]) + w * Power(ix) == Columns(x, y, ix)
    {
      var t := AddColumnTerms(x, y, ix, w);
      ghost var d := W[..ix];
      StoreColumn(x, y, d, ix, w, t);
      W[ix] := t % BASE;
      assert W[..ix + 1] == d + [t % BASE];
      w := t / BASE;
    }
    CongFrom(Columns(x, y, pa), Value(W[..pa]), w, Power(pa));
  }

  /** Copy n digits of the buffer over the lowest digits. */
  method CopyOut(W: array<nat>, dp: seq<nat>, n: nat) returns (r: seq<nat>)
    requires n <= W.Length && n <= |dp|
    ensures |r| == |dp| && forall j :: 0 <= j < |dp| ==> r[j] == if j < n then W[j] else dp[j]
  {
    r := dp;
    for ix := 0 to n
      invariant |r| == |dp| && forall j :: 0 <= j < |dp| ==> r[j] == if j < ix then W[j] else dp[j]
    {
      r := r[ix := W[ix]];
    }
  }

  /** The digits above those in use are clear but for the one at pa. */
  ghost predicate ClearBut(c: MpInt, pa: nat)
    reads c
  {
    forall i :: c.used <= i < |c.dp| && i != pa ==> c.dp[i] == 0
  }

  lemma {:induction false} TrimmedAway(s: seq<nat>, k: nat)
    requires k <= |s| && Value(s) == Value(s[..k])
    ensures forall i :: k <= i < |s| ==> s[i] == 0
  {
    var t := s[k..];
    ValueSplit(s, k);
    PowerMonotone(0, k);
    if Value(t) > 0 { MulMonotone(1, Power(k), Value(t)); }
    ValueIsZero(t);
    assert forall i :: k <= i < |s| ==> s[i] == t[i - k];
  }

  /** The end of fast_s_mp_mul_digs. The copy takes in one more digit of the buffer than
      was computed, so the digit at pa is arbitrary afterwards. */
  method StoreProduct(c: MpInt, W: array<nat>, pa: nat)
    requires c.Valid() && pa < |c.dp| && pa < W.Length && Digits(W[..pa])
    modifies c
    ensures c.Trim() && c.Mag() == Value(W[..pa]) && c.used <= pa && (c.used > 0 ==> c.sign == old(c.sign))
    ensures |c.dp| == |old(c.dp)| && (old(c.ClearAbove()) ==> ClearBut(c, pa))
  {
    hide Pow2, Value;
    var olduse := c.used;
    c.used := pa;
    c.dp := CopyOut(W, c.dp, pa + 1);
    c.dp := ClearDigits(c.dp, pa + 1, olduse);
    ghost var d := c.dp[..pa];
    assert d == W[..pa];
    Clamp(c);
    assert d[..c.used] == c.dp[..c.used];
    TrimmedAway(d, c.used);
    assert forall i :: c.used <= i < pa ==> c.dp[i] == d[i];
  }

  /** fast_s_mp_mul_digs: the digit above those computed is arbitrary afterwards, and the
      destination needs room for it. */
  method FastMulDigs(a: MpInt, b: MpInt, c: MpInt, digs: nat)
    requires a.Valid() && b.Valid() && c.Valid()
    requires digs < MP_WARRAY && Min(a.used, b.used) <= WORD_TERMS
    requires |c.dp| < digs || Min(digs, a.used + b.used) < |c.dp|
    modifies c
    ensures c.Trim() && c.Mag() == LowProduct(old(a.Mag()), old(b.Mag()), digs)
    ensures c.used <= Min(digs, old(a.used) + old(b.used)) && (c.used > 0 ==> c.sign == old(c.sign))
    ensures |old(c.dp)| <= |c.dp| && (old(c.ClearAbove()) ==> ClearBut(c, Min(digs, old(a.used) + old(b.used))))
  {
    hide Pow2, Value, Cong;
    ghost var x, y := a.dp[..a.used], b.dp[..b.used];
    var pa := Min(digs, a.used + b.used);
    var W := new nat[MP_WARRAY];
    FillColumns(a.dp[..a.used], b.dp[..b.used], pa, W);
    ProductDigits(x, y, W[..pa], digs);
    GrowPast(c, digs, pa);
    StoreProduct(c, W, pa);
  }

  /** Room for digs digits; the padding of mp_grow leaves room for one more. */
  method GrowPast(c: MpInt, digs: nat, pa: nat)
    requires c.Valid() && pa <= digs && (|c.dp| < digs || pa < |c.dp|)
    modifies c`dp
    ensures c.Valid() && pa < |c.dp| && |old(c.dp)| <= |c.dp| && (old(c.ClearAbove()) ==> c.ClearAbove())
  {
    Grow(c, digs);
  }

  lemma {:induction false} ProductDigits(x: seq<nat>, y: seq<nat>, d: seq<nat>, digs: nat)
    requires Digits(x) && Digits(y) && Digits(d) && |d| == Min(digs, |x| + |y|)
    requires Cong(Value(d), Columns(x, y, |d|), Power(|d|))
    ensures Value(d) == LowProduct(Value(x), Value(y), digs)
  {
    ColumnsAll(x, y, |x| + |y|);
    ColumnsCong(x, y, |d|, |x| + |y|);
    LowProductDigits(x, y, d, digs);
  }

  // -------------------------------------------------------------- schoolbook

  /** Adding x times y, shifted up ix digits, has reached column iy with carry u. */
  ghost predicate RowSoFar(d0: seq<nat>, d: seq<nat>, x: nat, y: seq<nat>, ix: nat, iy: nat, u: nat) {
    && |d| == |d0| && Digits(d) && u < BASE
    && (forall j :: ix + iy <= j < |d| ==> d[j] == d0[j])
    && Value(d) + u * Power(ix + iy) == Value(d0) + x * Low(y, iy) * Power(ix)
  }

  lemma RowWord(t: nat, x: nat, y: nat, u: nat)
    requires t < BASE && x < BASE && y < BASE && u < BASE
    ensures 0 <= t + x * y + u < BASE * BASE && t + x * y + u < WORD_RANGE
    ensures 0 <= (t + x * y + u) / BASE < BASE
  {
    hide Pow2;
    TermBound(x, y, BASE - 1);
    assert (BASE - 1) * (BASE - 1) == BASE * BASE - 2 * BASE + 1;
    QuotientBetween(t + x * y + u, BASE, 0, BASE);
  }

  lemma RowColumn(v: int, v': int, t: nat, w: nat, u: nat, r: nat, u': nat, m: nat)
    requires r + u' * BASE == t + w + u && v' + t * m == v + r * m
    ensures v' + u' * (BASE * m) == v + u * m + w * m
  {
    MulDistrib(r, u' * BASE, m);
    MulAssoc(u', BASE, m);
    MulDistrib(t + w, u, m);
    MulDistrib(t, w, m);
  }

  lemma RowTerm(x: nat, y: nat, low: nat, p: nat, q: nat, m: nat)
    requires m == q * p
    ensures x * (low + y * q) * p == x * low * p + x * y * m
  {
    assert x * (low + y * q) == x * low + x * y * q;
    MulDistrib(x * low, x * y * q, p);
    MulAssoc(x * y, q, p);
  }

  lemma {:induction false} RowStep(d0: seq<nat>, d: seq<nat>, x: nat, y: seq<nat>, ix: nat, iy: nat, u: nat, r: nat)
    requires RowSoFar(d0, d, x, y, ix, iy, u) && ix + iy < |d| && iy < |y| && Digits(y) && x < BASE
    requires r == d[ix + iy] + x * y[iy] + u
    ensures 0 <= r % BASE < BASE && 0 <= r / BASE < BASE && r < WORD_RANGE
    ensures RowSoFar(d0, d[ix + iy := r % BASE], x, y, ix, iy + 1, r / BASE)
  {
    var k := ix + iy;
    RowWord(d[k], x, y[iy], u);
    DivMod(r, BASE);
    ValueUpdate(d, k, r % BASE);
    LowStep(y, iy);
    PowerAdd(iy, ix);
    MulNonneg(x, y[iy]);
    var w: nat := x * y[iy];
    assert Value(d[k := r % BASE]) + r / BASE * Power(k + 1) == Value(d) + u * Power(k) + w * Power(k) by {
      RowColumn(Value(d), Value(d[k := r % BASE]), d[k], w, u, r % BASE, r / BASE, Power(k));
    }
    RowTerm(x, y[iy], Low(y, iy), Power(ix), Power(iy), Power(k));
  }

  /** One row of the schoolbook product: the inner loop and its last carry. */
  method AddRow(d0: seq<nat>, x: nat, y: seq<nat>, ix: nat) returns (d: seq<nat>)
    requires Digits(d0) && Digits(y) && x < BASE && forall j :: ix + |y| <= j < |d0| ==> d0[j] == 0
    ensures |d| == |d0| && Digits(d) && forall j :: ix + |y| + 1 <= j < |d| ==> d[j] == 0
    ensures Cong(Value(d), Value(d0) + x * Value(y) * Power(ix), Power(|d|))
  {
    d := d0;
    var u: nat, iy: nat := 0, 0;
    var pb := if |y| < |d0| - ix then |y| else |d0| - ix;
    BaseIsLarge();
    assert y[..0] == [];
    while iy < pb
      invariant RowSoFar(d0, d, x, y, ix, iy, u) && (iy <= pb || iy == 0)
    {
      MulNonneg(x, y[iy]);
      var r: nat := d[ix + iy] + x * y[iy] + u;
      RowStep(d0, d, x, y, ix, iy, u, r);
      d := d[ix + iy := r % BASE];
      u := r / BASE;
      iy := iy + 1;
    }
    RowDone(d0, d, x, y, ix, iy, u);
    if ix + iy < |d| {
      d := d[ix + iy := u];
    }
  }

  lemma {:induction false} RowDone(d0: seq<nat>, d: seq<nat>, x: nat, y: seq<nat>, ix: nat, iy: nat, u: nat)
    requires RowSoFar(d0, d, x, y, ix, iy, u)
    requires (iy == |y| && ix + iy <= |d|) || (iy <= |y| && ix + iy == |d|) || (iy == 0 && ix >= |d|)
    requires forall j :: ix + |y| <= j < |d| ==> d0[j] == 0
    ensures var d' := if ix + iy < |d| then d[ix + iy := u] else d;
      Cong(Value(d'), Value(d0) + x * Value(y) * Power(ix), Power(|d|))
  {
    var n := |d|;
    if ix + iy < n {
      ValueFill(d, ix + iy, u);
      LowAll(y, iy);
    } else {
      PowerAdd(ix + iy - n, n);
      MulAssoc(u, Power(ix + iy - n), Power(n));
      CongFrom(Value(d0) + x * Low(y, iy) * Power(ix), Value(d), u * Power(ix + iy - n), Power(n));
      RowCut(x, y, ix, iy, n);
      CongAdd(Value(d0), Value(d0), x * Value(y) * Power(ix), x * Low(y, iy) * Power(ix), Power(n));
    }
  }

  /** What a row drops is a multiple of BASE^n. */
  lemma {:induction false} RowCut(x: nat, y: seq<nat>, ix: nat, iy: nat, n: nat)
    requires iy <= |y| && n <= ix + iy
    ensures Cong(x * Value(y) * Power(ix), x * Low(y, iy) * Power(ix), Power(n))
  {
    ValueSplit(y, iy);
    var h, e := Value(y[iy..]), ix + iy - n;
    PowerAdd(iy, ix);
    PowerAdd(e, n);
    CutArith(x, Low(y, iy), h, Power(iy), Power(ix), Power(e), Power(n));
    CongFrom(x * Value(y) * Power(ix), x * Low(y, iy) * Power(ix), x * h * Power(e), Power(n));
  }

  lemma CutArith(x: nat, low: nat, h: nat, q: nat, p: nat, e: nat, m: nat)
    requires q * p == e * m
    ensures x * (low + h * q) * p == x * low * p + x * h * e * m
  {
    assert x * (low + h * q) == x * low + x * h * q;
    MulDistrib(x * low, x * h * q, p);
    MulAssoc(x * h, q, p);
    MulAssoc(x * h, e, m);
  }

  /** All rows. */
  method AddRows(x: seq<nat>, y: seq<nat>, zeros: seq<nat>) returns (d: seq<nat>)
    requires Digits(x) && Digits(y) && forall j :: 0 <= j < |zeros| ==> zeros[j] == 0
    ensures |d| == |zeros| && Digits(d) && Value(d) == LowProduct(Value(x), Value(y), |d|)
  {
    BaseIsLarge();
    d := zeros;
    ValueZeros(d);
    for ix := 0 to |x|
      invariant |d| == |zeros| && Digits(d) && forall j :: ix + |y| <= j < |d| ==> d[j] == 0
      invariant Cong(Value(d), Value(x[..ix]) * Value(y), Power(|d|))
    {
      ghost var v := Value(d);
      d := AddRow(d, x[ix], y, ix);
      RowsStep(x, y, ix, v, Value(d), Power(|d|));
    }
    assert x[..|x|] == x;
    ValueBound(d);
    CongSmall(Value(d), Value(x) * Value(y), Power(|d|));
  }

  lemma {:induction false} RowsStep(x: seq<nat>, y: seq<nat>, ix: nat, v: nat, v': nat, m: nat)
    requires ix < |x| && 0 < m && Cong(v, Value(x[..ix]) * Value(y), m)
    requires Cong(v', v + x[ix] * Value(y) * Power(ix), m)
    ensures Cong(v', Value(x[..ix + 1]) * Value(y), m)
  {
    var yv, e := Value(y), x[ix] * Value(y) * Power(ix);
    CongAdd(v, Value(x[..ix]) * yv, e, e, m);
    ValueStep(x, ix);
    MulDistrib(Value(x[..ix]), x[ix] * Power(ix), yv);
    MulAssoc(x[ix], Power(ix), yv);
    MulAssoc(x[ix], yv, Power(ix));
  }

  /** s_mp_mul_digs: the comba form when the columns fit a word, else row by row. */
  method SMulDigs(a: MpInt, b: MpInt, c: MpInt, digs: nat)
    requires a.Valid() && b.Valid() && c.Valid()
    requires |c.dp| < digs || Min(digs, a.used + b.used) < |c.dp|
    modifies c
    ensures c.Trim() && c.Mag() == LowProduct(old(a.Mag()), old(b.Mag()), digs)
    ensures c.used <= digs && (old(c.sign) == ZPOS ==> c.sign == ZPOS)
    ensures digs >= MP_WARRAY ==> c.ClearAbove()
  {
    hide Pow2, Value;
    if digs < MP_WARRAY && Min(a.used, b.used) < WORD_TERMS {
      FastMulDigs(a, b, c, digs);
      return;
    }
    var t := new MpInt.InitSize(digs);
    var d := AddRows(a.dp[..a.used], b.dp[..b.used], t.dp[..digs]);
    t.dp := d + t.dp[digs..];
    t.used := digs;
    assert t.dp[..digs] == d;
    Clamp(t);
    Exch(t, c);
  }
}
