/** Multiplication, division and remainder by powers of two. */
module MpShift {
  import opened Arith
  import opened MpDigits
  import opened MpInts
  import opened MpAddSub
  import opened MpScale

  /** A digit splits at bit d. */
  lemma {:induction false} DigitSplit(d: nat)
    requires d <= DIGIT_BIT
    ensures BASE == Pow2(DIGIT_BIT - d) * Pow2(d)
  {
    Pow2Add(DIGIT_BIT - d, d);
  }

  // ------------------------------------------------------------------ upwards

  /** One column of a left shift by d bits: the masked word is the new digit and
      the top d bits carry. OR-ing the carry into the d clear bits adds it. */
  lemma {:induction false} ShiftColumn(x: nat, d: nat, u: nat)
    requires 0 < d < DIGIT_BIT && x < BASE && u < Pow2(d)
    ensures var q := x / Pow2(DIGIT_BIT - d);
      && 0 <= q < Pow2(d) && q % Pow2(d) == q
      && 0 <= (x * Pow2(d) + u) % BASE < BASE
      && (x * Pow2(d) + u) % BASE + q * BASE == x * Pow2(d) + u
  {
    var s, p := Pow2(DIGIT_BIT - d), Pow2(d);
    DigitSplit(d);
    var q, m := x / s, x % s;
    DivMod(x, s);
    QuotientBetween(x, s, 0, p);
    DivModUnique(q, p, 0, q);
    MulMonotone(m + 1, s, p);
    MulDistrib(m, 1, p);
    MulNonneg(m, p);
    MulDistrib(q * s, m, p);
    MulAssoc(q, s, p);
    DivModUnique(x * p + u, BASE, q, m * p + u);
  }

  /** The bit loop of mp_mul_2d. */
  method ShiftUp(dp: seq<nat>, n: nat, d: nat) returns (s: seq<nat>, r: nat)
    requires n <= |dp| && (forall j :: 0 <= j < n ==> dp[j] < BASE) && 0 < d < DIGIT_BIT
    ensures Written(s, dp, n) && Multiplied(dp, s, n, Pow2(d), r) && r < Pow2(d)
  {
    s, r := dp, 0;
    for x := 0 to n
      invariant Written(s, dp, x) && Multiplied(dp, s, x, Pow2(d), r) && r < Pow2(d)
    {
      var rr := s[x] / Pow2(DIGIT_BIT - d) % Pow2(d);
      ShiftColumn(s[x], d, r);
      MulNonneg(s[x], Pow2(d));
      var w: nat := s[x] * Pow2(d) + r;
      MultipliedStep(dp, s, x, Pow2(d), r, w % BASE, rr);
      s := s[x := w % BASE];
      r := rr;
    }
  }

  /** The shift by less than a digit, in place, with the final carry. */
  method ShiftBits(c: MpInt, d: nat)
    requires c.Valid() && c.used < |c.dp| && 0 < d < DIGIT_BIT
    modifies c`dp, c`used
    ensures c.Valid() && c.Mag() == old(c.Mag()) * Pow2(d) && c.used <= old(c.used) + 1 && |c.dp| == |old(c.dp)|
    ensures old(c.ClearAbove()) ==> c.ClearAbove()
  {
    ghost var was := c.dp;
    var s, r := ShiftUp(c.dp, c.used, d);
    ghost var n := c.used;
    CarryOut(was, s, n, Pow2(d), r);
    c.dp := s;
    if r != 0 {
      Pow2Monotone(d, DIGIT_BIT);
      c.dp := c.dp[c.used := r];
      c.used := c.used + 1;
    }
  }

  /** The carry is one more digit, or nothing. */
  lemma {:induction false} CarryOut(was: seq<nat>, s: seq<nat>, n: nat, b: nat, r: nat)
    requires Multiplied(was, s, n, b, r) && n < |s|
    ensures r == 0 ==> Value(s[..n]) == Value(was[..n]) * b
    ensures Value(s[n := r][..n + 1]) == Value(was[..n]) * b
  {
    var s' := s[n := r];
    ValueStep(s', n);
    assert s'[..n] == s[..n];
  }

  lemma {:induction false} BitSplit(b: nat, k: nat, d: nat)
    requires k == b / DIGIT_BIT && d == b % DIGIT_BIT
    ensures Power(k) * Pow2(d) == Pow2(b)
  {
    PowerIsPow2(k);
    DivMod(b, DIGIT_BIT);
    Pow2Add(k * DIGIT_BIT, d);
  }

  /** Shifting by whole digits and then by bits. */
  lemma {:induction false} ShiftSplit(v: nat, b: nat, k: nat, d: nat)
    requires k == b / DIGIT_BIT && d == b % DIGIT_BIT
    ensures v * Power(k) * Pow2(d) == v * Pow2(b)
  {
    var p, e, z := Power(k), Pow2(d), Pow2(b);
    assert p * e == z by { BitSplit(b, k, d); }
    MulAssoc(v, p, e);
  }

  lemma {:induction false} BitCounts(b: nat, k: int, d: int)
    requires k == b / DIGIT_BIT && d == b % DIGIT_BIT
    ensures 0 <= k && 0 <= d < DIGIT_BIT && (b < DIGIT_BIT ==> k == 0 && Power(k) == 1) && (d == 0 ==> Pow2(d) == 1)
  {
    QuotientMonotone(0, b, DIGIT_BIT);
    if b < DIGIT_BIT { DivModUnique(b, DIGIT_BIT, 0, b); }
  }

  /** mp_mul_2d */
  method Mul2d(a: MpInt, b: nat, c: MpInt)
    requires a.Valid() && c.Valid()
    modifies c
    ensures c.Trim() && c.Mag() == old(a.Mag()) * Pow2(b) && c.V() == old(a.V()) * Pow2(b)
    ensures c.used <= old(a.used) + b / DIGIT_BIT + 1 <= |c.dp|
    ensures old(c.ClearAbove()) ==> c.ClearAbove()
  {
    hide Value, Power, Pow2;
    ghost var v := a.Mag();
    if a != c { Copy(a, c); }
    Grow(c, c.used + b / DIGIT_BIT + 1);
    ShiftLeft(c, b);
    Clamp(c);
    SignedProduct(v, Pow2(b));
  }

  /** The two shifts of mp_mul_2d, in place. */
  method ShiftLeft(c: MpInt, b: nat)
    requires c.Valid() && c.used + b / DIGIT_BIT < |c.dp|
    modifies c`dp, c`used
    ensures c.Valid() && c.Mag() == old(c.Mag()) * Pow2(b)
    ensures c.used <= old(c.used) + b / DIGIT_BIT + 1 && |c.dp| >= |old(c.dp)|
    ensures old(c.ClearAbove()) ==> c.ClearAbove()
  {
    hide Pow2;
    ghost var v := c.Mag();
    var k, d := b / DIGIT_BIT, b % DIGIT_BIT;
    BitCounts(b, k, d);
    ShiftSplit(v, b, k, d);
    if b >= DIGIT_BIT {
      Lshd(c, k);
    }
    assert c.Mag() == v * Power(k);
    if d != 0 {
      ShiftBits(c, d);
    }
  }

  /** The doubling loop of mp_mul_2. */
  method DoubleDigits(a: MpInt, b: MpInt, n: nat, ghost da: seq<nat>) returns (r: nat)
    requires n == |da| <= |b.dp| && Digits(da) && Holds(a, da, 0)
    modifies b`dp
    ensures Written(b.dp, old(b.dp), n) && Multiplied(da, b.dp, n, 2, r) && r <= 1
  {
    r := 0;
    for x := 0 to n
      invariant Holds(a, da, x) && Written(b.dp, old(b.dp), x) && Multiplied(da, b.dp, x, 2, r) && r <= 1
    {
      assert Pow2(1) == 2;
      ShiftColumn(a.dp[x], 1, r);
      var rr := a.dp[x] / Pow2(DIGIT_BIT - 1);
      var w: nat := a.dp[x] * 2 + r;
      MultipliedStep(da, b.dp, x, 2, r, w % BASE, rr);
      b.dp := b.dp[x := w % BASE];
      r := rr;
    }
  }

  /** mp_mul_2. It does not trim: twice a trimmed number is trimmed. */
  method Mul2(a: MpInt, b: MpInt)
    requires a.Trim() && b.Valid()
    modifies b
    ensures b.Trim() && b.V() == 2 * old(a.V()) && b.used <= old(a.used) + 1
    ensures old(b.ClearAbove()) ==> b.ClearAbove()
  {
    hide Value, Pow2, Digits, Holds;
    ghost var da := a.dp[..a.used];
    var n, s := a.used, a.sign;
    Grow(b, n + 1);
    var oldused := b.used;
    var m := DoubleAll(a, b, n, da);
    b.used := m;
    ghost var d := b.dp[..m];
    b.dp := ClearDigits(b.dp, m, oldused);
    b.sign := s;
    assert b.dp[..m] == d;
  }

  /** The doubled digits; a carry out of the top is a new leading one. */
  method DoubleAll(a: MpInt, b: MpInt, n: nat, ghost da: seq<nat>) returns (m: nat)
    requires n == |da| < |b.dp| && Digits(da) && Holds(a, da, 0) && (n > 0 ==> da[n - 1] != 0)
    modifies b`dp
    ensures n <= m <= n + 1 && Written(b.dp, old(b.dp), m) && Value(b.dp[..m]) == 2 * Value(da)
    ensures m > 0 ==> n > 0 && b.dp[m - 1] != 0
  {
    BaseIsLarge();
    var r := DoubleDigits(a, b, n, da);
    CarryOut(da, b.dp, n, 2, r);
    assert da[..n] == da;
    m := n;
    if r != 0 {
      b.dp := b.dp[m := 1];
      m := m + 1;
    }
    TopOfDouble(da, b.dp[..m], r);
  }

  lemma {:induction false} TopOfDouble(da: seq<nat>, d: seq<nat>, r: nat)
    requires Digits(d) && Value(d) == 2 * Value(da) && r <= 1
    requires |d| == |da| + r && (r == 1 ==> d[|da|] == 1) && (|da| > 0 ==> da[|da| - 1] != 0)
    ensures |d| > 0 ==> |da| > 0 && d[|d| - 1] != 0
  {
    if |da| == 0 {
      if r == 1 { ValueTop(d); }
    } else {
      ValueTop(da);
      if d[|d| - 1] == 0 {
        ValueBound(d[..|d| - 1]);
        PowerMonotone(|d| - 1, |da| - 1);
      }
    }
  }

  // ---------------------------------------------------------------- downwards

  /** One column of a right shift by d bits: the carry from above fills the top. */
  lemma {:induction false} UnshiftColumn(x: nat, d: nat, w: nat)
    requires d <= DIGIT_BIT && x < BASE && w < Pow2(d)
    ensures var t := x / Pow2(d) + w * Pow2(DIGIT_BIT - d);
      0 <= t && 0 <= x % Pow2(d) < Pow2(d) && t * Pow2(d) + x % Pow2(d) == w * BASE + x
  {
    var s, p := Pow2(DIGIT_BIT - d), Pow2(d);
    DigitSplit(d);
    DivMod(x, p);
    QuotientMonotone(0, x, p);
    MulNonneg(w, s);
    MulDistrib(x / p, w * s, p);
    MulAssoc(w, s, p);
  }

  /** The bit loop of mp_div_2d, from the top digit down. */
  method ShiftDown(dp: seq<nat>, n: nat, d: nat) returns (s: seq<nat>)
    requires n <= |dp| && (forall j :: 0 <= j < n ==> dp[j] < BASE) && 0 < d < DIGIT_BIT
    ensures Written(s, dp, n) && Value(s[..n]) == Value(dp[..n]) / Pow2(d)
  {
    ghost var was := dp[..n];
    s := dp;
    var r: nat := 0;
    DividedStart(was, s, Pow2(d));
    var x: nat := n;
    while x > 0
      invariant x <= n && |s| == |dp| && Divided(was, s, x, Pow2(d), r)
      invariant forall j :: 0 <= j < x ==> s[j] == dp[j]
      invariant forall j :: n <= j < |s| ==> s[j] == dp[j]
    {
      x := x - 1;
      UnshiftColumn(s[x], d, r);
      var rr := s[x] % Pow2(d);
      var t: nat := s[x] / Pow2(d) + r * Pow2(DIGIT_BIT - d);
      DividedStep(was, s, x, Pow2(d), r, t, rr);
      s := s[x := t];
      r := rr;
    }
    DividedDone(was, s, Pow2(d), r);
  }

  /** The halving loop of mp_div_2. */
  method HalveDigits(a: MpInt, b: MpInt, n: nat, ghost da: seq<nat>)
    requires n == |da| <= |b.dp| && Digits(da) && Holds(a, da, 0)
    modifies b`dp
    ensures Written(b.dp, old(b.dp), n) && Value(b.dp[..n]) == Value(da) / 2
  {
    var r: nat := 0;
    DividedStart(da, b.dp, 2);
    var x: nat := n;
    while x > 0
      invariant x <= n <= |a.dp| && |b.dp| == |old(b.dp)| && Divided(da, b.dp, x, 2, r)
      invariant forall j :: 0 <= j < x ==> a.dp[j] == da[j]
      invariant forall j :: n <= j < |b.dp| ==> b.dp[j] == old(b.dp[j])
    {
      x := x - 1;
      assert Pow2(1) == 2;
      UnshiftColumn(a.dp[x], 1, r);
      var rr := a.dp[x] % 2;
      var t: nat := a.dp[x] / 2 + r * Pow2(DIGIT_BIT - 1);
      DividedStep(da, b.dp, x, 2, r, t, rr);
      b.dp := b.dp[x := t];
      r := rr;
    }
    DividedDone(da, b.dp, 2, r);
  }

  /** mp_div_2: halves the magnitude, rounding down. */
  method Div2(a: MpInt, b: MpInt)
    requires a.Valid() && b.Valid()
    modifies b
    ensures b.Trim() && b.Mag() == old(a.Mag()) / 2 && b.used <= old(a.used)
    ensures b.used > 0 ==> b.sign == old(a.sign)
    ensures old(b.ClearAbove()) ==> b.ClearAbove()
  {
    ghost var da := a.dp[..a.used];
    var n, s := a.used, a.sign;
    Grow(b, n);
    var oldused := b.used;
    HalveDigits(a, b, n, da);
    b.sign := s;
    FinishDigits(b, n, oldused);
  }

  /** The bits a count names: a count of zero or less names none. */
  function Count(b: int): nat { if b <= 0 then 0 else b }

  lemma {:induction false} UnshiftSplit(v: nat, b: nat, k: nat, d: nat)
    requires k == b / DIGIT_BIT && d == b % DIGIT_BIT
    ensures v / Power(k) / Pow2(d) == v / Pow2(b)
  {
    var p, e, z := Power(k), Pow2(d), Pow2(b);
    assert p * e == z by { BitSplit(b, k, d); }
    DivDiv(v, p, e);
  }

  /** The two shifts of mp_div_2d, in place. */
  method ShiftRight(c: MpInt, b: nat)
    requires c.Valid()
    modifies c
    ensures c.Valid() && c.Mag() == old(c.Mag()) / Pow2(b) && c.used <= old(c.used)
    ensures c.used > 0 ==> c.sign == old(c.sign)
    ensures old(c.ClearAbove()) ==> c.ClearAbove()
  {
    hide Pow2;
    ghost var v := c.Mag();
    var k, d := b / DIGIT_BIT, b % DIGIT_BIT;
    BitCounts(b, k, d);
    UnshiftSplit(v, b, k, d);
    if b >= DIGIT_BIT {
      Rshd(c, k);
    }
    assert c.Mag() == v / Power(k);
    if d != 0 {
      c.dp := ShiftDown(c.dp, c.used, d);
    }
  }

  /** mp_mod_2d: the remainder keeps the sign of a. */
  method Mod2d(a: MpInt, b: int, c: MpInt)
    requires a.Trim() && c.Valid()
    modifies c
    ensures c.Trim() && c.Mag() == old(a.Mag()) % Pow2(Count(b)) && c.used <= old(a.used)
    ensures c.used > 0 ==> c.sign == old(a.sign)
    ensures old(c.ClearAbove()) ==> c.ClearAbove()
  {
    ghost var v := a.Mag();
    if b <= 0 {
      Zero(c);
      return;
    }
    if b >= a.used * DIGIT_BIT {
      BelowPower(a.dp[..a.used], b);
      Copy(a, c);
      return;
    }
    Copy(a, c);
    ModCount(b, c.used);
    MaskDigits(c, b);
    Clamp(c);
  }

  lemma {:induction false} BelowPower(d: seq<nat>, b: nat)
    requires Digits(d) && b >= |d| * DIGIT_BIT
    ensures Value(d) % Pow2(b) == Value(d)
  {
    ValueBound(d);
    PowerIsPow2(|d|);
    Pow2Monotone(|d| * DIGIT_BIT, b);
    DivModUnique(Value(d), Pow2(b), 0, Value(d));
  }

  lemma ModCount(b: nat, n: nat)
    requires b < n * DIGIT_BIT
    ensures 0 <= b / DIGIT_BIT < n && 0 <= b % DIGIT_BIT < DIGIT_BIT
  {
    QuotientBetween(b, DIGIT_BIT, 0, n);
  }

  /** The masking steps of mp_mod_2d: clear the digits above the cut, then the
      bits above the cut in its own digit. */
  method MaskDigits(c: MpInt, b: nat)
    requires c.Valid() && b / DIGIT_BIT < c.used
    modifies c`dp
    ensures c.Valid() && c.Mag() == old(c.Mag()) % Pow2(b)
    ensures old(c.ClearAbove()) ==> c.ClearAbove()
  {
    hide Pow2;
    ghost var was := c.dp;
    var k, d := b / DIGIT_BIT, b % DIGIT_BIT;
    BitCounts(b, k, d);
    c.dp := ClearDigits(c.dp, if d == 0 then k else k + 1, c.used);
    c.dp := c.dp[k := c.dp[k] % Pow2(d)];
    MaskedValue(was[..c.used], c.dp[..c.used], k, d);
    BitSplit(b, k, d);
  }

  lemma {:induction false} MaskedValue(s: seq<nat>, t: seq<nat>, k: nat, d: nat)
    requires k < |s| == |t| && Digits(s) && d < DIGIT_BIT
    requires (forall j :: 0 <= j < k ==> t[j] == s[j]) && (forall j :: k < j < |s| ==> t[j] == 0)
    requires t[k] == s[k] % Pow2(d)
    ensures Digits(t) && 0 < Pow2(d) * Power(k) && Value(t) == Value(s) % (Pow2(d) * Power(k))
  {
    hide Pow2;
    var p, e := Pow2(d), Power(k);
    var low, high := Value(s[..k]), Value(s[k + 1..]);
    MaskedParts(s, t, k);
    ValueBound(s[..k]);
    DigitSplit(d);
    MaskArith(low, s[k], high, p, Pow2(DIGIT_BIT - d), e);
    assert Digits(t) by {
      Pow2Monotone(d, DIGIT_BIT);
    }
  }

  lemma {:induction false} MaskedParts(s: seq<nat>, t: seq<nat>, k: nat)
    requires k < |s| == |t|
    requires (forall j :: 0 <= j < k ==> t[j] == s[j]) && (forall j :: k < j < |s| ==> t[j] == 0)
    ensures Value(s) == Value(s[..k]) + s[k] * Power(k) + Value(s[k + 1..]) * (BASE * Power(k))
    ensures Value(t) == Value(s[..k]) + t[k] * Power(k)
  {
    ValueSplit(s, k + 1);
    ValueStep(s, k);
    ValueDropZeros(t, k + 1);
    ValueStep(t, k);
    assert t[..k] == s[..k];
  }

  lemma MaskArith(low: nat, x: nat, high: nat, p: nat, s: nat, e: nat)
    requires 0 < p && low < e
    ensures 0 < p * e && (low + x * e + high * (s * p * e)) % (p * e) == low + x % p * e
  {
    var q, m := x / p, x % p;
    var pe := p * e;
    DivMod(x, p);
    MulPositive(p, e);
    MulMonotone(m + 1, p, e);
    MulDistrib(m, 1, e);
    MulNonneg(m, e);
    MulDistrib(q * p, m, e);
    MulAssoc(q, p, e);
    MulAssoc(s, p, e);
    MulAssoc(high, s, pe);
    MulDistrib(q, high * s, pe);
    DivModUnique(low + x * e + high * (s * p * e), pe, q + high * s, low + m * e);
  }

  /** mp_div_2d: quotient into c and, if wanted, remainder into d. Both keep the
      sign of a, so rounding is towards zero. */
  method Div2d(a: MpInt, b: int, c: MpInt, d: MpInt?)
    requires a.Trim() && c.Valid() && d != c && (d != null ==> d.Valid())
    modifies c, d
    ensures c.Trim() && c.Mag() == old(a.Mag()) / Pow2(Count(b)) && c.used <= old(a.used)
    ensures c.used > 0 ==> c.sign == old(a.sign)
    ensures d != null ==> d.Trim() && d.Mag() == old(a.Mag()) % Pow2(Count(b))
    ensures d != null && d.used > 0 ==> d.sign == old(a.sign)
    ensures old(c.ClearAbove()) ==> c.ClearAbove()
  {
    hide Value;
    if b <= 0 {
      Copy(a, c);
      if d != null { Zero(d); }
      return;
    }
    var t := new MpInt.Init();
    if d != null { Mod2d(a, b, t); }
    Copy(a, c);
    ShiftRight(c, b);
    Clamp(c);
    if d != null { Exch(t, d); }
  }
}
