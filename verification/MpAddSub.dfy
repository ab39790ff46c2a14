/** Addition and subtraction, on magnitudes and with signs. The destination may
    be either operand. */
module MpAddSub {
  import opened Arith
  import opened MpDigits
  import opened MpInts

  function Max(x: nat, y: nat): nat { if x > y then x else y }

  /** One column of an addition: digit r and carry out u' from x, y and carry u. */
  lemma AddColumn(p: nat, r: nat, u': nat, x: nat, y: nat, u: nat)
    requires r + u' * BASE == x + y + u
    ensures r * p + u' * (BASE * p) == x * p + y * p + u * p
  {
    MulDistrib(x + y, u, p);
    MulDistrib(x, y, p);
    MulDistrib(r, u' * BASE, p);
    MulAssoc(u', BASE, p);
  }

  /** Digit j of a number with n digits in use; zero above. */
  function DigitAt(d: seq<nat>, j: nat): nat {
    if j < |d| then d[j] else 0
  }

  /** The value of the lowest i digits, reading zeros above the top. */
  function Low(d: seq<nat>, i: nat): nat {
    if i <= |d| then Value(d[..i]) else Value(d)
  }

  lemma {:induction false} LowStep(d: seq<nat>, i: nat)
    ensures Low(d, i + 1) == Low(d, i) + DigitAt(d, i) * Power(i)
  {
    if i < |d| {
      ValueStep(d, i);
    } else {
      assert d[..|d|] == d;
    }
  }

  /** The operand still holds digits d from position i on. */
  ghost predicate Holds(a: MpInt, d: seq<nat>, i: nat)
    reads a
  {
    |d| <= |a.dp| && forall j :: i <= j < |d| ==> a.dp[j] == d[j]
  }

  /** Digits below i are proper, digits from i on are still those of `was`. */
  ghost predicate Written(dp: seq<nat>, was: seq<nat>, i: nat) {
    && |dp| == |was| && i <= |dp|
    && (forall j :: 0 <= j < i ==> dp[j] < BASE)
    && (forall j :: i <= j < |dp| ==> dp[j] == was[j])
  }

  /** The columns both operands have. */
  method AddLow(a: MpInt, b: MpInt, c: MpInt, min: nat, ghost da: seq<nat>, ghost db: seq<nat>) returns (u: nat)
    requires min <= |da| && min <= |db| && min <= |c.dp| && Digits(da) && Digits(db)
    requires Holds(a, da, 0) && Holds(b, db, 0)
    modifies c`dp
    ensures Holds(a, da, min) && Holds(b, db, min) && Written(c.dp, old(c.dp), min)
    ensures u <= 1 && Value(c.dp[..min]) + u * Power(min) == Low(da, min) + Low(db, min)
  {
    u := 0;
    for i := 0 to min
      invariant Holds(a, da, i) && Holds(b, db, i) && Written(c.dp, old(c.dp), i)
      invariant u <= 1 && Value(c.dp[..i]) + u * Power(i) == Low(da, i) + Low(db, i)
    {
      var t := a.dp[i] + b.dp[i] + u;
      assert t < DIGIT_RANGE;
      AddInto(da, db, c.dp, i, u, t);
      c.dp := c.dp[i := t % BASE];
      u := t / BASE;
    }
  }

  /** The columns only the longer operand x has. */
  method AddHigh(x: MpInt, c: MpInt, min: nat, max: nat, u0: nat, ghost da: seq<nat>, ghost db: seq<nat>,
                 ghost was: seq<nat>)
    returns (u: nat)
    requires min == Min(|da|, |db|) && max == Max(|da|, |db|) && max <= |c.dp| && Digits(da) && Digits(db)
    requires Holds(x, if |da| > |db| then da else db, min) && Written(c.dp, was, min)
    requires u0 <= 1 && Value(c.dp[..min]) + u0 * Power(min) == Low(da, min) + Low(db, min)
    modifies c`dp
    ensures Written(c.dp, was, max)
    ensures u <= 1 && Value(c.dp[..max]) + u * Power(max) == Low(da, max) + Low(db, max)
  {
    hide Value, Pow2;
    u := u0;
    for i := min to max
      invariant Holds(x, if |da| > |db| then da else db, i) && Written(c.dp, was, i)
      invariant u <= 1 && Value(c.dp[..i]) + u * Power(i) == Low(da, i) + Low(db, i)
    {
      var t := x.dp[i] + u;
      AddInto(da, db, c.dp, i, u, t);
      c.dp := c.dp[i := t % BASE];
      u := t / BASE;
    }
  }

  /** All columns of the sum, and the last carry. */
  method AddDigits(a: MpInt, b: MpInt, c: MpInt, x: MpInt, min: nat, max: nat, ghost da: seq<nat>, ghost db: seq<nat>)
    requires min == Min(|da|, |db|) && max == Max(|da|, |db|) && max < |c.dp| && Digits(da) && Digits(db)
    requires Holds(a, da, 0) && Holds(b, db, 0) && x == if |da| > |db| then a else b
    modifies c`dp
    ensures Written(c.dp, old(c.dp), max + 1) && Value(c.dp[..max + 1]) == Value(da) + Value(db)
  {
    BaseIsLarge();
    var u := AddLow(a, b, c, min, da, db);
    u := AddHigh(x, c, min, max, u, da, db, old(c.dp));
    FinishAdd(da, db, c.dp, max, u);
    c.dp := c.dp[max := u];
  }

  /** s_mp_add: c = |a| + |b|. */
  method SMpAdd(a: MpInt, b: MpInt, c: MpInt)
    requires a.Valid() && b.Valid() && c.Valid()
    modifies c
    ensures c.Trim() && c.Mag() == old(a.Mag()) + old(b.Mag())
    ensures c.used > 0 ==> c.sign == old(c.sign)
    ensures c.used <= Max(old(a.used), old(b.used)) + 1 && |old(c.dp)| <= |c.dp|
    ensures old(c.ClearAbove()) ==> c.ClearAbove()
  {
    hide Value, Pow2;
    var min, max := Min(a.used, b.used), Max(a.used, b.used);
    var x := if a.used > b.used then a else b;
    ghost var da, db := a.dp[..a.used], b.dp[..b.used];
    Grow(c, max + 1);
    ghost var grown := c.dp;
    var olduse := c.used;
    AddDigits(a, b, c, x, min, max, da, db);
    FinishDigits(c, max + 1, olduse);
  }

  /** Zero what the old value had above the new digits, then trim. */
  method FinishDigits(c: MpInt, n: nat, olduse: nat)
    requires MP_PREC <= |c.dp| && n <= |c.dp| && olduse <= |c.dp|
    requires forall j :: 0 <= j < n ==> c.dp[j] < BASE
    modifies c
    ensures c.Trim() && c.used <= n && c.Mag() == Value(old(c.dp[..n])) && |c.dp| == |old(c.dp)|
    ensures c.used > 0 ==> c.sign == old(c.sign)
    ensures (forall j :: n <= j < |old(c.dp)| && olduse <= j ==> old(c.dp[j]) == 0) ==> c.ClearAbove()
  {
    ghost var d := c.dp;
    c.used := n;
    c.dp := ClearDigits(c.dp, n, olduse);
    assert c.dp[..n] == d[..n];
    Clamp(c);
  }

  /** Writing column i extends the running sum by one column. */
  lemma {:induction false} AddInto(da: seq<nat>, db: seq<nat>, dc: seq<nat>, i: nat, u: nat, t: nat)
    requires i < |dc| && t == DigitAt(da, i) + DigitAt(db, i) + u && u <= 1
    requires DigitAt(da, i) < BASE && DigitAt(db, i) < BASE
    requires Value(dc[..i]) + u * Power(i) == Low(da, i) + Low(db, i)
    ensures 0 <= t % BASE < BASE && 0 <= t / BASE <= 1
    ensures Value(dc[i := t % BASE][..i + 1]) + t / BASE * Power(i + 1) == Low(da, i + 1) + Low(db, i + 1)
  {
    var r, u' := t % BASE, t / BASE;
    QuotientBetween(t, BASE, 0, 2);
    DivMod(t, BASE);
    AddColumn(Power(i), r, u', DigitAt(da, i), DigitAt(db, i), u);
    LowStep(da, i);
    LowStep(db, i);
    var dc' := dc[i := r];
    ValueStep(dc', i);
    assert dc'[..i] == dc[..i];
  }

  lemma {:induction false} FinishAdd(da: seq<nat>, db: seq<nat>, dc: seq<nat>, i: nat, u: nat)
    requires i < |dc| && |da| <= i && |db| <= i
    requires Value(dc[..i]) + u * Power(i) == Low(da, i) + Low(db, i)
    ensures Value(dc[i := u][..i + 1]) == Value(da) + Value(db)
  {
    var dc' := dc[i := u];
    ValueStep(dc', i);
    assert dc'[..i] == dc[..i];
    LowAll(da, i);
    LowAll(db, i);
  }

  /** Zero the digits from lo up to hi: the clearing loop that ends most routines. */
  method ClearDigits(dp: seq<nat>, lo: nat, hi: nat) returns (r: seq<nat>)
    requires hi <= |dp|
    ensures |r| == |dp|
    ensures forall j :: 0 <= j < |dp| ==> r[j] == if lo <= j < hi then 0 else dp[j]
  {
    r := dp;
    var i := lo;
    while i < hi
      invariant lo <= i && |r| == |dp|
      invariant forall j :: 0 <= j < |dp| ==> r[j] == if lo <= j < i && j < hi then 0 else dp[j]
    {
      r := r[i := 0];
      i := i + 1;
    }
  }

  // ------------------------------------------------------------- subtraction

  /** The difference of two digits and a borrow as an mp_digit holds it. */
  function Wrapped(x: nat, y: nat, u: nat): nat {
    BaseIsLarge();
    (x - y - u) % DIGIT_RANGE
  }

  /** One column of a subtraction: the masked word is the digit and its top bit
      the borrow. */
  lemma SubColumn(x: nat, y: nat, u: nat)
    requires x < BASE && y < BASE && u <= 1
    ensures var w := Wrapped(x, y, u);
      0 <= w / (8 * BASE) <= 1 && 0 <= w % BASE < BASE && w % BASE == x - y - u + w / (8 * BASE) * BASE
  {
    hide Pow2;
    var t := x - y - u;
    if t >= 0 {
      DivModUnique(t, DIGIT_RANGE, 0, t);
      DivModUnique(t, 8 * BASE, 0, t);
      DivModUnique(t, BASE, 0, t);
    } else {
      DivModUnique(t, DIGIT_RANGE, -1, t + DIGIT_RANGE);
      DivModUnique(t + DIGIT_RANGE, 8 * BASE, 1, t + 8 * BASE);
      DivModUnique(t + DIGIT_RANGE, BASE, 15, t + BASE);
    }
  }

  /** Writing column i extends the running difference by one column. */
  lemma {:induction false} SubInto(da: seq<nat>, db: seq<nat>, dc: seq<nat>, i: nat, u: nat, w: nat)
    requires i < |dc| && DigitAt(da, i) < BASE && DigitAt(db, i) < BASE && u <= 1
    requires w == Wrapped(DigitAt(da, i), DigitAt(db, i), u)
    requires Value(dc[..i]) - u * Power(i) == Low(da, i) - Low(db, i)
    ensures 0 <= w / (8 * BASE) <= 1 && 0 <= w % BASE < BASE
    ensures Value(dc[i := w % BASE][..i + 1]) - w / (8 * BASE) * Power(i + 1) == Low(da, i + 1) - Low(db, i + 1)
  {
    SubColumn(DigitAt(da, i), DigitAt(db, i), u);
    var r, u' := w % BASE, w / (8 * BASE);
    AddColumn(Power(i), DigitAt(da, i), u', r, DigitAt(db, i), u);
    LowStep(da, i);
    LowStep(db, i);
    var dc' := dc[i := r];
    ValueStep(dc', i);
    assert dc'[..i] == dc[..i];
  }

  /** The columns both operands have. */
  method SubLow(a: MpInt, b: MpInt, c: MpInt, ghost da: seq<nat>, ghost db: seq<nat>, min: nat) returns (u: nat)
    requires min <= |da| && min <= |db| && min <= |c.dp| && Digits(da) && Digits(db)
    requires Holds(a, da, 0) && Holds(b, db, 0)
    modifies c`dp
    ensures Holds(a, da, min) && Written(c.dp, old(c.dp), min)
    ensures u <= 1 && Value(c.dp[..min]) - u * Power(min) == Low(da, min) - Low(db, min)
  {
    hide Pow2, Power;
    BaseIsLarge();
    u := 0;
    for i := 0 to min
      invariant Holds(a, da, i) && Holds(b, db, i) && Written(c.dp, old(c.dp), i)
      invariant u <= 1 && Value(c.dp[..i]) - u * Power(i) == Low(da, i) - Low(db, i)
    {
      var w := (a.dp[i] - b.dp[i] - u) % DIGIT_RANGE;
      SubInto(da, db, c.dp, i, u, w);
      c.dp := c.dp[i := w % BASE];
      u := w / (8 * BASE);
    }
  }

  /** The columns only the minuend has. */
  method SubHigh(a: MpInt, c: MpInt, min: nat, max: nat, u0: nat, ghost da: seq<nat>, ghost db: seq<nat>,
                 ghost was: seq<nat>)
    returns (u: nat)
    requires min == |db| <= |da| == max <= |c.dp| && Digits(da)
    requires Holds(a, da, min) && Written(c.dp, was, min)
    requires u0 <= 1 && Value(c.dp[..min]) - u0 * Power(min) == Low(da, min) - Low(db, min)
    modifies c`dp
    ensures Written(c.dp, was, max)
    ensures u <= 1 && Value(c.dp[..max]) - u * Power(max) == Low(da, max) - Low(db, max)
  {
    hide Value;
    BaseIsLarge();
    u := u0;
    for i := min to max
      invariant Holds(a, da, i) && Written(c.dp, was, i)
      invariant u <= 1 && Value(c.dp[..i]) - u * Power(i) == Low(da, i) - Low(db, i)
    {
      var w := (a.dp[i] - u) % DIGIT_RANGE;
      SubInto(da, db, c.dp, i, u, w);
      c.dp := c.dp[i := w % BASE];
      u := w / (8 * BASE);
    }
  }

  method SubDigits(a: MpInt, b: MpInt, c: MpInt, min: nat, max: nat, ghost da: seq<nat>, ghost db: seq<nat>)
    requires min == |db| <= |da| == max <= |c.dp| && Digits(da) && Digits(db)
    requires Holds(a, da, 0) && Holds(b, db, 0)
    modifies c`dp
    ensures Written(c.dp, old(c.dp), max) && Value(c.dp[..max]) == Difference(Value(da), Value(db), max)
  {
    var u := SubLow(a, b, c, da, db, min);
    u := SubHigh(a, c, min, max, u, da, db, old(c.dp));
    FinishSub(da, db, c.dp[..max], u);
  }

  /** What n digits hold of x - y: if y is the larger, a borrow is lost at the top. */
  function Difference(x: nat, y: nat, n: nat): int {
    if y <= x then x - y else x - y + Power(n)
  }

  lemma {:induction false} FinishSub(da: seq<nat>, db: seq<nat>, dc: seq<nat>, u: nat)
    requires |db| <= |da| == |dc| && Digits(da) && Digits(db) && Digits(dc) && u <= 1
    requires Value(dc) - u * Power(|dc|) == Low(da, |dc|) - Low(db, |dc|)
    ensures Value(dc) == Difference(Value(da), Value(db), |dc|)
  {
    LowAll(da, |dc|);
    LowAll(db, |dc|);
    ValueBound(da);
    ValueBound(db);
    ValueBound(dc);
    assert u == 0 || u == 1;
  }

  lemma {:induction false} LowAll(d: seq<nat>, i: nat)
    requires |d| <= i
    ensures Low(d, i) == Value(d)
  {
    assert d[..|d|] == d;
  }

  /** s_mp_sub: c = |a| - |b|, meant for |a| >= |b|. */
  method SMpSub(a: MpInt, b: MpInt, c: MpInt)
    requires a.Valid() && b.Valid() && c.Valid() && b.used <= a.used
    modifies c
    ensures c.Trim() && c.Mag() == Difference(old(a.Mag()), old(b.Mag()), old(a.used))
    ensures c.used > 0 ==> c.sign == old(c.sign)
    ensures c.used <= old(a.used) && |old(c.dp)| <= |c.dp|
    ensures old(c.ClearAbove()) ==> c.ClearAbove()
  {
    hide Pow2;
    var min, max := b.used, a.used;
    ghost var da, db := a.dp[..a.used], b.dp[..b.used];
    Grow(c, max);
    ghost var grown := c.dp;
    var olduse := c.used;
    SubDigits(a, b, c, min, max, da, db);
    FinishDigits(c, max, olduse);
  }

  // ------------------------------------------------------------------- signs

  /** mp_cmp_mag orders the two magnitudes correctly. Trimmed numbers always are. */
  ghost predicate Ordered(a: MpInt, b: MpInt)
    reads a, b
  {
    && a.Valid() && b.Valid()
    && (a.used > b.used ==> a.Mag() >= b.Mag())
    && (a.used < b.used ==> a.Mag() <= b.Mag())
  }

  lemma TrimmedOrdered(a: MpInt, b: MpInt)
    requires a.Trim() && b.Trim()
    ensures Ordered(a, b)
  {
    if a.used > b.used { MoreDigits(a.dp[..a.used], b.dp[..b.used]); }
    if a.used < b.used { MoreDigits(b.dp[..b.used], a.dp[..a.used]); }
  }

  /** How far a signed difference is off when mp_cmp_mag misjudges an untrimmed
      number: the lost borrow of the longer one, with the sign taken from it. */
  ghost function Slip(a: MpInt, b: MpInt): (k: int)
    reads a, b
    requires a.Valid() && b.Valid()
    ensures Ordered(a, b) <==> k == 0
  {
    if a.used < b.used && a.Mag() > b.Mag() then 0 - Power(b.used)
    else if a.used > b.used && a.Mag() < b.Mag() then Power(a.used)
    else 0
  }

  /** c = ±(|a| - |b|), with sign s if |a| is taken to be not the smaller. */
  method SignedDifference(a: MpInt, b: MpInt, c: MpInt, s: Sign)
    requires a.Valid() && b.Valid() && c.Valid()
    modifies c
    ensures c.Trim()
    ensures c.V() == (if s == NEG then 0 - 1 else 1) * (old(a.Mag()) - old(b.Mag()) + old(Slip(a, b)))
    ensures old(c.ClearAbove()) ==> c.ClearAbove()
    ensures c.used <= Max(old(a.used), old(b.used)) && |old(c.dp)| <= |c.dp|
  {
    hide Pow2, Power, Ordered;
    var o := CmpMag(a, b);
    if o == LT {
      c.sign := if s == ZPOS then NEG else ZPOS;
      SMpSub(b, a, c);
    } else {
      c.sign := s;
      SMpSub(a, b, c);
    }
  }

  /** mp_add. For trimmed numbers, and for numbers of the same sign, it is exact. */
  method Add(a: MpInt, b: MpInt, c: MpInt)
    requires a.Valid() && b.Valid() && c.Valid()
    modifies c
    ensures c.Trim()
    ensures old(a.sign == b.sign || Ordered(a, b)) ==> c.V() == old(a.V()) + old(b.V())
    ensures old(a.sign != b.sign) ==>
      c.V() == old(a.V()) + old(b.V()) + if old(a.sign) == NEG then 0 - old(Slip(a, b)) else old(Slip(a, b))
    ensures old(c.ClearAbove()) ==> c.ClearAbove()
    ensures c.used <= Max(old(a.used), old(b.used)) + 1 && |old(c.dp)| <= |c.dp|
  {
    var sa, sb := a.sign, b.sign;
    if sa == sb {
      c.sign := sa;
      SMpAdd(a, b, c);
    } else {
      SignedDifference(a, b, c, sa);
    }
  }

  /** mp_sub. For trimmed numbers, and for numbers of opposite signs, it is exact. */
  method Sub(a: MpInt, b: MpInt, c: MpInt)
    requires a.Valid() && b.Valid() && c.Valid()
    modifies c
    ensures c.Trim()
    ensures old(a.sign != b.sign || Ordered(a, b)) ==> c.V() == old(a.V()) - old(b.V())
    ensures old(a.sign == b.sign) ==>
      c.V() == old(a.V()) - old(b.V()) + if old(a.sign) == NEG then 0 - old(Slip(a, b)) else old(Slip(a, b))
    ensures old(c.ClearAbove()) ==> c.ClearAbove()
    ensures c.used <= Max(old(a.used), old(b.used)) + 1 && |old(c.dp)| <= |c.dp|
  {
    var sa, sb := a.sign, b.sign;
    if sa != sb {
      c.sign := sa;
      SMpAdd(a, b, c);
    } else {
      SignedDifference(a, b, c, sa);
    }
  }
}
