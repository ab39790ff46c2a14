/** mp_add_d and mp_sub_d: adding and subtracting a single digit. */
module MpDigitOps {
  import opened Arith
  import opened MpDigits
  import opened MpInts
  import opened MpAddSub

  lemma {:induction false} ValueOne(b: nat)
    ensures Value([b]) == b
  {
    assert [b][..0] == [];
    ValueStep([b], 0);
    assert [b][..1] == [b] && Power(0) == 1;
  }

  /** The digits of |a| + b, for a number that is not zero. */
  method AddDigitColumns(a: MpInt, b: nat, c: MpInt, n: nat, ghost da: seq<nat>)
    requires 0 < n == |da| && Digits(da) && Holds(a, da, 0) && b < BASE && n < |c.dp|
    modifies c`dp
    ensures Written(c.dp, old(c.dp), n + 1) && Value(c.dp[..n + 1]) == Value(da) + b
  {
    BaseIsLarge();
    ghost var db, was := [b], c.dp;
    var t := a.dp[0] + b;
    assert c.dp[..0] == [] && da[..0] == [] && db[..0] == [];
    AddInto(da, db, c.dp, 0, 0, t);
    c.dp := c.dp[0 := t % BASE];
    var u := t / BASE;
    assert u * Power(1) == t / BASE * Power(0 + 1);
    u := AddHigh(a, c, 1, n, u, da, db, was);
    FinishAdd(da, db, c.dp, n, u);
    ValueOne(b);
    c.dp := c.dp[n := u];
  }

  /** The digits of |a| - b, for |a| > b or more than one digit. */
  method SubDigitColumns(a: MpInt, b: nat, c: MpInt, n: nat, ghost da: seq<nat>)
    requires 0 < n == |da| && Digits(da) && Holds(a, da, 0) && b < BASE && n <= |c.dp| && b <= Value(da)
    modifies c`dp
    ensures Written(c.dp, old(c.dp), n) && Value(c.dp[..n]) == Value(da) - b
  {
    BaseIsLarge();
    ghost var db, was := [b], c.dp;
    var w := (a.dp[0] - b) % DIGIT_RANGE;
    assert c.dp[..0] == [] && da[..0] == [] && db[..0] == [];
    SubInto(da, db, c.dp, 0, 0, w);
    c.dp := c.dp[0 := w % BASE];
    var u := w / (8 * BASE);
    assert u * Power(1) == w / (8 * BASE) * Power(0 + 1);
    u := SubHigh(a, c, 1, n, u, da, db, was);
    FinishSub(da, db, c.dp[..n], u);
    ValueOne(b);
  }

  /** Digit 0 is what the sum takes it for. Of a zero it is read too, and counts up to the
      mask. */
  ghost predicate LowDigitRight(a: MpInt)
    reads a
    requires a.Valid()
  {
    a.used > 0 || a.dp[0] % BASE == 0
  }

  /** c = |a| + b. A zero still has its digit 0 read. */
  method AddPositive(a: MpInt, b: nat, c: MpInt)
    requires a.Trim() && c.Valid() && b < BASE && a.used < |c.dp|
    modifies c
    ensures c.Trim() && (old(a.used) > 0 ==> c.V() == old(a.Mag()) + b)
    ensures old(a.used) == 0 ==> c.V() == (old(a.dp[0]) + b) % BASE
    ensures old(c.ClearAbove()) && old(a.used > 0 || a.dp[0] == 0) ==> c.ClearAbove()
  {
    if a.used == 0 {
      AddToZero(a.dp[0], b, c);
      return;
    }
    var n := a.used;
    ghost var da := a.dp[..n];
    var oldused := c.used;
    c.sign := ZPOS;
    AddDigitColumns(a, b, c, n, da);
    FinishDigits(c, n + 1, oldused);
    TrimmedNegative(c);
  }

  /** The case of a zero whose digit 0 is d: the carry lands above the sum. */
  method AddToZero(d: nat, b: nat, c: MpInt)
    requires c.Valid() && b < BASE
    modifies c
    ensures c.Trim() && c.V() == (d + b) % BASE
    ensures old(c.ClearAbove()) && d == 0 ==> c.ClearAbove()
  {
    hide Value, Power, Pow2;
    CarryOfZero(d, b);
    var t := (d + b) % DIGIT_RANGE;
    var oldused := c.used;
    c.sign := ZPOS;
    c.dp := c.dp[0 := t % BASE];
    ValueOne(t % BASE);
    assert c.dp[..1] == [t % BASE];
    FinishDigits(c, 1, oldused);
    TrimmedNegative(c);
    ghost var low := c.dp[..c.used];
    c.dp := c.dp[1 := t / BASE];
    assert c.dp[..c.used] == low;
  }

  lemma CarryOfZero(d: nat, b: nat)
    requires b < BASE
    ensures var t := (d + b) % DIGIT_RANGE;
      0 <= t && t % BASE == (d + b) % BASE && 0 <= t % BASE < BASE && 0 <= t / BASE && (d == 0 ==> t / BASE == 0)
  {
    BaseIsLarge();
    var t := (d + b) % DIGIT_RANGE;
    DivMod(d + b, DIGIT_RANGE);
    DivMod(t, BASE);
    QuotientMonotone(0, t, BASE);
    ModOfMod(d + b, 16, BASE);
    if d == 0 {
      DivModUnique(b, DIGIT_RANGE, 0, b);
      DivModUnique(b, BASE, 0, b);
    }
  }

  /** c = |a| - b */
  method SubPositive(a: MpInt, b: nat, c: MpInt)
    requires a.Trim() && c.Valid() && b < BASE && a.used < |c.dp|
    modifies c
    ensures c.Trim() && c.V() == old(a.Mag()) - b
    ensures old(c.ClearAbove()) ==> c.ClearAbove()
  {
    var n := a.used;
    ghost var da := a.dp[..n];
    ManyDigits(da, b);
    var oldused := c.used;
    if (n == 1 && a.dp[0] <= b) || n == 0 {
      c.sign := NEG;
      ghost var d := if n == 1 then b - a.dp[0] else b;
      c.dp := c.dp[0 := if n == 1 then b - a.dp[0] else b];
      ValueOne(d);
      assert c.dp[..1] == [d];
      FinishDigits(c, 1, oldused);
    } else {
      c.sign := ZPOS;
      SubDigitColumns(a, b, c, n, da);
      FinishDigits(c, n, oldused);
    }
    TrimmedNegative(c);
  }

  /** A trimmed number of two digits or more exceeds every digit. */
  lemma {:induction false} ManyDigits(d: seq<nat>, b: nat)
    requires Digits(d) && b < BASE && (|d| > 0 ==> d[|d| - 1] != 0)
    ensures |d| == 0 ==> Value(d) == 0
    ensures |d| == 1 ==> Value(d) == d[0]
    ensures |d| > 1 ==> Value(d) > b
  {
    if |d| == 1 {
      ValueOne(d[0]);
      assert d == [d[0]];
    }
    if |d| > 1 {
      ValueTop(d);
      PowerMonotone(1, |d| - 1);
      assert Power(1) == BASE * Power(0);
    }
  }

  /** mp_add_d. Of a zero it adds the digit 0 that it finds, so it is right exactly when
      that is right. */
  method AddD(a: MpInt, b: nat, c: MpInt)
    requires a.Trim() && c.Valid() && b < BASE
    modifies a`sign, c
    ensures c.Trim() && (c.V() == old(a.V()) + b <==> old(LowDigitRight(a)))
    ensures old(a.used) == 0 ==> c.V() == (old(a.dp[0]) + b) % BASE
    ensures a != c ==> a.sign == old(a.sign)
    ensures old(c.ClearAbove()) && old(a.used > 0 || a.dp[0] == 0) ==> c.ClearAbove()
    decreases a.sign == NEG
  {
    hide Value, Pow2;
    ManyDigits(a.dp[..a.used], b);
    SumOfLow(a.dp[0], b);
    Grow(c, a.used + 1);
    if a.sign == NEG && (a.used > 1 || a.dp[0] >= b) {
      a.sign := ZPOS;
      SubD(a, b, c);
      a.sign, c.sign := NEG, NEG;
      Clamp(c);
    } else if a.sign == ZPOS {
      AddPositive(a, b, c);
    } else {
      AcrossZero(a, b, c);
    }
  }

  lemma SumOfLow(d: nat, b: nat)
    requires b < BASE
    ensures (d + b) % BASE == b <==> d % BASE == 0
  {
    BaseIsLarge();
    DivMod(d, BASE);
    MulDistrib(d / BASE, 1, BASE);
    var r := d % BASE + b;
    if r < BASE {
      DivModUnique(d + b, BASE, d / BASE, r);
    } else {
      DivModUnique(d + b, BASE, d / BASE + 1, r - BASE);
    }
  }

  /** Adding one to a zero that has kept a one in its digit 0 gives two. */
  method OneTooMany() returns (a: MpInt, c: MpInt)
    ensures fresh(a) && fresh(c) && a.Trim() && c.Trim() && a.V() == 0 && c.V() == 2
  {
    BaseIsLarge();
    a := new MpInt.Init();
    a.dp := a.dp[0 := 1];
    c := new MpInt.Init();
    AddD(a, 1, c);
    DivModUnique(2, BASE, 0, 2);
    assert a.dp[..0] == [];
  }

  /** The sum when a is negative with |a| < b: one digit. */
  method AcrossZero(a: MpInt, b: nat, c: MpInt)
    requires a.Trim() && c.Valid() && b < BASE && a.used == 1 && a.dp[0] < b
    modifies c
    ensures c.Trim() && c.V() == b - old(a.Mag())
    ensures old(c.ClearAbove()) ==> c.ClearAbove()
  {
    ManyDigits(a.dp[..1], b);
    var oldused := c.used;
    ghost var d: nat := b - a.dp[0];
    c.sign := ZPOS;
    c.dp := c.dp[0 := b - a.dp[0]];
    ValueOne(d);
    assert c.dp[..1] == [d];
    FinishDigits(c, 1, oldused);
    TrimmedNegative(c);
  }

  /** mp_sub_d */
  method SubD(a: MpInt, b: nat, c: MpInt)
    requires a.Trim() && c.Valid() && b < BASE
    modifies a`sign, c
    ensures c.Trim() && c.V() == old(a.V()) - b
    ensures a != c ==> a.sign == old(a.sign)
    ensures old(c.ClearAbove()) ==> c.ClearAbove()
    decreases a.sign == NEG
  {
    hide Value, Pow2;
    Grow(c, a.used + 1);
    if a.sign == NEG {
      a.sign := ZPOS;
      AddD(a, b, c);
      a.sign, c.sign := NEG, NEG;
      Clamp(c);
    } else {
      SubPositive(a, b, c);
    }
  }
}
