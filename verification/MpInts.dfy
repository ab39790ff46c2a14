/** Multi-precision integers and their basic manipulation: storage, copying,
    comparison and whole-digit shifts. A caller may pass the same integer as
    source and destination wherever the source allows it. Running out of memory
    is not modelled. */
module MpInts {
  import opened Arith
  import opened MpDigits

  datatype Sign = ZPOS | NEG

  datatype Ordering = LT | EQ | GT

  const MP_PREC: nat := 32

  class MpInt {
    var sign: Sign
    var used: nat
    /** The allocated digits; alloc is their number. */
    var dp: seq<nat>

    /** The digits in use are digits. */
    ghost predicate Valid()
      reads this
    {
      && used <= |dp| && MP_PREC <= |dp|
      && forall i :: 0 <= i < used ==> dp[i] < BASE
    }

    /** Trimmed: no leading zero digit, and zero is positive. */
    ghost predicate Trim()
      reads this
    {
      && Valid()
      && (used == 0 ==> sign == ZPOS)
      && (used > 0 ==> dp[used - 1] != 0)
    }

    /** The digits above those in use are zero. Most routines keep this; the
        comba multiplier does not. */
    ghost predicate ClearAbove()
      reads this
    {
      forall i :: used <= i < |dp| ==> dp[i] == 0
    }

    ghost function Mag(): nat
      reads this
      requires used <= |dp|
    {
      Value(dp[..used])
    }

    ghost function V(): int
      reads this
      requires used <= |dp|
    {
      if sign == NEG then 0 - Mag() else Mag()
    }

    /** mp_init */
    constructor Init()
      ensures Trim() && ClearAbove() && V() == 0 && used == 0 && |dp| == MP_PREC
    {
      sign, used, dp := ZPOS, 0, seq(MP_PREC, i => 0);
    }

    /** mp_init_size: pads so that there are always extra digits. */
    constructor InitSize(size: nat)
      ensures Trim() && ClearAbove() && V() == 0 && used == 0 && |dp| >= size + MP_PREC
    {
      sign, used, dp := ZPOS, 0, seq(size + MP_PREC * 2 - size % MP_PREC, i => 0);
    }
  }

  /** mp_grow */
  method Grow(a: MpInt, size: nat)
    requires a.Valid()
    modifies a`dp
    ensures a.Valid() && size <= |a.dp| && |old(a.dp)| <= |a.dp|
    ensures |old(a.dp)| < size ==> size + MP_PREC < |a.dp|
    ensures a.dp[..|old(a.dp)|] == old(a.dp) && forall i :: |old(a.dp)| <= i < |a.dp| ==> a.dp[i] == 0
    ensures a.Mag() == old(a.Mag())
    ensures old(a.ClearAbove()) ==> a.ClearAbove()
    ensures old(a.Trim()) ==> a.Trim()
  {
    if |a.dp| < size {
      var alloc := size + MP_PREC * 2 - size % MP_PREC;
      a.dp := a.dp + seq(alloc - |a.dp|, i => 0);
    }
    assert a.dp[..a.used] == old(a.dp[..a.used]);
  }

  /** mp_clamp */
  method Clamp(a: MpInt)
    requires a.Valid()
    modifies a`used, a`sign
    ensures a.Trim() && a.Mag() == old(a.Mag()) && a.V() == old(a.V()) && a.used <= old(a.used)
    ensures a.used > 0 ==> a.sign == old(a.sign)
    ensures old(a.ClearAbove()) ==> a.ClearAbove()
  {
    ghost var n := a.used;
    while a.used > 0 && a.dp[a.used - 1] == 0
      invariant a.used <= n <= |a.dp| && a.sign == old(a.sign)
      invariant forall i :: a.used <= i < n ==> a.dp[i] == 0
      decreases a.used
    {
      a.used := a.used - 1;
    }
    ValueDropZeros(a.dp[..n], a.used);
    assert a.dp[..n][..a.used] == a.dp[..a.used];
    if a.used == 0 { a.sign := ZPOS; }
  }

  /** mp_zero */
  method Zero(a: MpInt)
    requires MP_PREC <= |a.dp|
    modifies a
    ensures a.Trim() && a.ClearAbove() && a.V() == 0 && a.used == 0 && |a.dp| == |old(a.dp)|
  {
    a.sign, a.used := ZPOS, 0;
    for n := 0 to |a.dp|
      invariant a.sign == ZPOS && a.used == 0 && |a.dp| == |old(a.dp)|
      invariant forall i :: 0 <= i < n ==> a.dp[i] == 0
    {
      a.dp := a.dp[n := 0];
    }
  }

  /** mp_set */
  method Set(a: MpInt, b: nat)
    requires MP_PREC <= |a.dp|
    modifies a
    ensures a.Trim() && a.ClearAbove() && a.V() == b % BASE
  {
    Zero(a);
    a.dp := a.dp[0 := b % BASE];
    a.used := if a.dp[0] != 0 then 1 else 0;
    assert a.used == 1 ==> a.dp[..1][..0] == [];
    assert Power(0) == 1;
  }

  /** The two loops of mp_copy: n digits of src, then zeros up to the old length. */
  method CopyDigits(src: seq<nat>, n: nat, dst: seq<nat>, olduse: nat) returns (r: seq<nat>)
    requires n <= |src| && n <= |dst| && olduse <= |dst|
    ensures |r| == |dst|
    ensures forall i :: 0 <= i < |dst| ==> r[i] == if i < n then src[i] else if i < olduse then 0 else dst[i]
  {
    r := dst;
    var k := 0;
    while k < n
      invariant k <= n && |r| == |dst|
      invariant forall i :: 0 <= i < |dst| ==> r[i] == if i < k then src[i] else dst[i]
    {
      r := r[k := src[k]];
      k := k + 1;
    }
    while k < olduse
      invariant n <= k && |r| == |dst|
      invariant forall i :: 0 <= i < |dst| ==>
        r[i] == if i < n then src[i] else if i < k && i < olduse then 0 else dst[i]
    {
      r := r[k := 0];
      k := k + 1;
    }
  }

  /** mp_copy */
  method Copy(a: MpInt, b: MpInt)
    requires a.Valid() && b.Valid()
    modifies b
    ensures b.Valid() && b.V() == old(a.V()) && b.Mag() == old(a.Mag()) && b.used == old(a.used)
    ensures b.sign == old(a.sign)
    ensures b.dp[..b.used] == old(a.dp[..a.used])
    ensures old(a.Trim()) ==> b.Trim()
    ensures old(b.ClearAbove()) ==> b.ClearAbove()
  {
    if a == b { return; }
    Grow(b, a.used);
    b.dp := CopyDigits(a.dp, a.used, b.dp, b.used);
    b.used, b.sign := a.used, a.sign;
    assert b.dp[..b.used] == a.dp[..a.used];
  }

  /** mp_init_copy */
  method InitCopy(a: MpInt) returns (b: MpInt)
    requires a.Valid()
    ensures fresh(b) && b.Valid() && b.ClearAbove() && b.Mag() == a.Mag() && b.used == a.used && b.sign == a.sign
    ensures a.Trim() ==> b.Trim()
  {
    b := new MpInt.Init();
    Copy(a, b);
  }

  /** mp_exch */
  method Exch(a: MpInt, b: MpInt)
    modifies a, b
    ensures a.sign == old(b.sign) && a.used == old(b.used) && a.dp == old(b.dp)
    ensures b.sign == old(a.sign) && b.used == old(a.used) && b.dp == old(a.dp)
  {
    a.sign, b.sign := b.sign, a.sign;
    a.used, b.used := b.used, a.used;
    a.dp, b.dp := b.dp, a.dp;
  }

  // -------------------------------------------------------------- comparison

  function Compare(x: int, y: int): Ordering {
    if x < y then LT else if x == y then EQ else GT
  }

  /** mp_cmp_mag looks at the digit counts first, so it compares magnitudes of
      trimmed numbers, and of untrimmed ones whose counts agree. */
  method CmpMag(a: MpInt, b: MpInt) returns (r: Ordering)
    requires a.Valid() && b.Valid()
    ensures a.used > b.used ==> r == GT
    ensures a.used < b.used ==> r == LT
    ensures a.used == b.used ==> r == Compare(a.Mag(), b.Mag())
    ensures a.Trim() && b.Trim() ==> r == Compare(a.Mag(), b.Mag())
  {
    if a.used > b.used {
      if a.Trim() { MoreDigits(a.dp[..a.used], b.dp[..b.used]); }
      return GT;
    }
    if a.used < b.used {
      if b.Trim() { MoreDigits(b.dp[..b.used], a.dp[..a.used]); }
      return LT;
    }
    var n := a.used;
    while n > 0
      invariant 0 <= n <= a.used == b.used
      invariant forall i :: n <= i < a.used ==> a.dp[i] == b.dp[i]
    {
      if a.dp[n - 1] != b.dp[n - 1] {
        TopDifference(a.dp[..a.used], b.dp[..b.used], n);
        return if a.dp[n - 1] > b.dp[n - 1] then GT else LT;
      }
      n := n - 1;
    }
    assert a.dp[..a.used] == b.dp[..b.used];
    return EQ;
  }

  lemma {:induction false} MoreDigits(s: seq<nat>, t: seq<nat>)
    requires |s| > |t| && s[|s| - 1] != 0 && Digits(t)
    ensures Value(s) > Value(t)
  {
    ValueTop(s);
    ValueBound(t);
    PowerMonotone(|t|, |s| - 1);
  }

  lemma {:induction false} TopDifference(s: seq<nat>, t: seq<nat>, n: nat)
    requires |s| == |t| && 0 < n <= |s| && Digits(s) && Digits(t) && s[n - 1] != t[n - 1]
    requires forall i :: n <= i < |s| ==> s[i] == t[i]
    ensures s[n - 1] < t[n - 1] ==> Value(s) < Value(t)
    ensures s[n - 1] > t[n - 1] ==> Value(s) > Value(t)
  {
    ValueSplit(s, n);
    ValueSplit(t, n);
    assert s[n..] == t[n..];
    if s[n - 1] < t[n - 1] { ValueCompareTop(s[..n], t[..n]); } else { ValueCompareTop(t[..n], s[..n]); }
  }

  /** mp_cmp */
  method Cmp(a: MpInt, b: MpInt) returns (r: Ordering)
    requires a.Trim() && b.Trim()
    ensures r == Compare(a.V(), b.V())
  {
    if a.sign != b.sign {
      TrimmedNegative(a);
      TrimmedNegative(b);
      return if a.sign == NEG then LT else GT;
    }
    if a.sign == NEG {
      r := CmpMag(b, a);
    } else {
      r := CmpMag(a, b);
    }
  }

  /** A trimmed negative number is below zero. */
  lemma TrimmedNegative(a: MpInt)
    requires a.Trim()
    ensures a.sign == NEG <==> a.V() < 0
    ensures a.used == 0 <==> a.V() == 0
  {
    if a.used > 0 { ValueTop(a.dp[..a.used]); }
  }

  /** A trimmed number has no more digits than its value needs. */
  lemma {:induction false} UsedBound(x: MpInt, m: nat)
    requires x.Trim() && x.Mag() < Power(m)
    ensures x.used <= m
  {
    if x.used > m {
      ValueTop(x.dp[..x.used]);
      PowerMonotone(m, x.used - 1);
    }
  }

  /** The larger of two trimmed numbers has at least as many digits. */
  lemma {:induction false} DigitsOrdered(x: MpInt, y: MpInt)
    requires x.Trim() && y.Trim() && y.Mag() <= x.Mag()
    ensures y.used <= x.used
  {
    if x.used < y.used { MoreDigits(y.dp[..y.used], x.dp[..x.used]); }
  }

  lemma SeveralDigits(a: MpInt)
    requires a.Trim() && a.used > 1
    ensures a.Mag() >= BASE
  {
    ValueTop(a.dp[..a.used]);
    PowerMonotone(1, a.used - 1);
    assert Power(1) == BASE * Power(0) && Power(0) == 1;
  }

  lemma OneDigit(a: MpInt)
    requires a.Valid() && a.used == 1
    ensures a.Mag() == a.dp[0]
  {
    var s := a.dp[..1];
    assert Value(s) == Value(s[..0]) + s[0] * Power(0) && s[..0] == [];
    assert Power(0) == 1;
  }

  /** mp_cmp_d reads digit 0 even of a zero, so it is right exactly when that
      digit is clear. */
  method CmpD(a: MpInt, b: nat) returns (r: Ordering)
    requires a.Trim() && b < BASE
    ensures r == Compare(a.V(), b) <==> a.used > 0 || a.dp[0] == 0 || b > a.dp[0]
    ensures b == 0 ==> (r == LT <==> a.V() < 0)
  {
    hide Value, Power, Pow2;
    TrimmedNegative(a);
    if a.sign == NEG { return LT; }
    if a.used > 1 {
      SeveralDigits(a);
      return GT;
    }
    if a.used == 1 { OneDigit(a); }
    r := if a.dp[0] > b then GT else if a.dp[0] < b then LT else EQ;
  }

  // -------------------------------------------------- shifts by whole digits

  /** mp_lshd: multiplies by BASE^b. A shifted zero keeps leading zero digits. */
  method Lshd(a: MpInt, b: nat)
    requires a.Valid()
    modifies a`used, a`dp
    ensures a.Valid() && a.Mag() == old(a.Mag()) * Power(b) && a.used == old(a.used) + b && |old(a.dp)| <= |a.dp|
    ensures a.dp[..a.used] == seq(b, i => 0) + old(a.dp[..a.used])
    ensures old(a.Trim()) && old(a.used) > 0 ==> a.Trim()
    ensures old(a.ClearAbove()) ==> a.ClearAbove()
  {
    hide Pow2;
    if b == 0 {
      assert Power(0) == 1;
      assert seq<nat>(0, i => 0) + a.dp[..a.used] == a.dp[..a.used];
      return;
    }
    ghost var d := a.dp[..a.used];
    Grow(a, a.used + b);
    assert a.dp[..a.used] == d;
    var shifted := SlideUp(a.dp, a.used, b);
    a.used := a.used + b;
    a.dp := shifted;
    var zeros := seq<nat>(b, i => 0);
    assert a.dp[..a.used] == zeros + d;
    ValueZeros(zeros);
    ValueConcat(zeros, d);
  }

  /** The copy-upwards loop of mp_lshd, then zeros below. */
  method SlideUp(dp: seq<nat>, used: nat, b: nat) returns (r: seq<nat>)
    requires used + b <= |dp|
    ensures |r| == |dp|
    ensures forall i :: 0 <= i < b ==> r[i] == 0
    ensures forall i :: b <= i < used + b ==> r[i] == dp[i - b]
    ensures forall i :: used + b <= i < |dp| ==> r[i] == dp[i]
  {
    r := dp;
    var x := used + b - 1;
    while x >= b
      invariant b - 1 <= x < used + b && |r| == |dp|
      invariant forall i :: x < i < used + b ==> r[i] == dp[i - b]
      invariant forall i :: 0 <= i <= x || used + b <= i < |dp| ==> r[i] == dp[i]
    {
      r := r[x := r[x - b]];
      x := x - 1;
    }
    x := 0;
    while x < b
      invariant x <= b && |r| == |dp|
      invariant forall i :: 0 <= i < x ==> r[i] == 0
      invariant forall i :: b <= i < used + b ==> r[i] == dp[i - b]
      invariant forall i :: used + b <= i < |dp| ==> r[i] == dp[i]
    {
      r := r[x := 0];
      x := x + 1;
    }
  }

  /** The copy-downwards loop of mp_rshd, then zeros above. */
  method SlideDown(dp: seq<nat>, used: nat, b: nat) returns (r: seq<nat>)
    requires b <= used <= |dp|
    ensures |r| == |dp|
    ensures forall i :: 0 <= i < used - b ==> r[i] == dp[i + b]
    ensures forall i :: used - b <= i < used ==> r[i] == 0
    ensures forall i :: used <= i < |dp| ==> r[i] == dp[i]
  {
    r := dp;
    var x := 0;
    while x < used - b
      invariant x <= used - b && |r| == |dp|
      invariant forall i :: 0 <= i < x ==> r[i] == dp[i + b]
      invariant forall i :: x <= i < |dp| ==> r[i] == dp[i]
    {
      r := r[x := r[x + b]];
      x := x + 1;
    }
    while x < used
      invariant used - b <= x <= used && |r| == |dp|
      invariant forall i :: 0 <= i < used - b ==> r[i] == dp[i + b]
      invariant forall i :: used - b <= i < x ==> r[i] == 0
      invariant forall i :: used <= i < |dp| ==> r[i] == dp[i]
    {
      r := r[x := 0];
      x := x + 1;
    }
  }

  /** mp_rshd: divides by BASE^b, rounding the magnitude down. */
  method Rshd(a: MpInt, b: nat)
    requires a.Valid()
    modifies a
    ensures a.Valid() && a.Mag() == old(a.Mag()) / Power(b) && |a.dp| == |old(a.dp)|
    ensures old(a.Trim()) ==> a.Trim()
    ensures a.used == if old(a.used) <= b && b > 0 then 0 else old(a.used) - b
    ensures a.used > 0 ==> a.sign == old(a.sign) && a.dp[..a.used] == old(a.dp[b..a.used])
    ensures old(a.ClearAbove()) ==> a.ClearAbove()
  {
    hide Pow2, Value;
    ghost var d := a.dp[..a.used];
    RshdValue(d, b);
    if b == 0 {
      assert Power(0) == 1;
      assert a.dp[0..a.used] == a.dp[..a.used];
      return;
    }
    if a.used <= b {
      Zero(a);
      return;
    }
    a.dp := SlideDown(a.dp, a.used, b);
    a.used := a.used - b;
    assert a.dp[..a.used] == d[b..];
  }

  lemma {:induction false} RshdValue(d: seq<nat>, b: nat)
    requires Digits(d)
    ensures |d| <= b ==> Value(d) / Power(b) == 0
    ensures b <= |d| ==> Value(d) / Power(b) == Value(d[b..])
  {
    if b <= |d| {
      ValueSplit(d, b);
      ValueBound(d[..b]);
      DivModUnique(Value(d), Power(b), Value(d[b..]), Value(d[..b]));
      if |d| == b { assert d[b..] == []; }
    } else {
      ValueBound(d);
      PowerMonotone(|d|, b);
      DivModUnique(Value(d), Power(b), 0, Value(d));
    }
  }

  /** mp_count_bits */
  method CountBits(a: MpInt) returns (r: nat)
    requires a.Trim()
    ensures a.used == 0 ==> r == 0
    ensures a.used > 0 ==> (a.used - 1) * DIGIT_BIT < r <= a.used * DIGIT_BIT
    ensures r > 0 ==> Pow2(r - 1) <= a.Mag() < Pow2(r)
  {
    if a.used == 0 { return 0; }
    var k := DigitBits(a.dp[a.used - 1]);
    TopBits(a.dp[..a.used], k);
    MulDistrib(a.used - 1, 1, DIGIT_BIT);
    r := (a.used - 1) * DIGIT_BIT + k;
  }

  /** The shift loop of mp_count_bits. */
  method DigitBits(top: nat) returns (k: nat)
    requires 0 < top < BASE
    ensures 0 < k <= DIGIT_BIT && Pow2(k - 1) <= top < Pow2(k)
  {
    var q := top;
    k := 0;
    while q > 0
      invariant Shifted(top, q, k)
      invariant q == 0 ==> k > 0 && Pow2(k - 1) <= top
      decreases q
    {
      BitStep(q, k, top);
      k := k + 1;
      q := q / 2;
    }
    BitCount(k, top);
  }

  /** q is what is left of top after k single-bit shifts. */
  ghost predicate Shifted(top: nat, q: nat, k: nat) {
    q * Pow2(k) <= top < (q + 1) * Pow2(k)
  }

  lemma BitCount(k: nat, top: nat)
    requires k > 0 && Pow2(k - 1) <= top < BASE && Shifted(top, 0, k)
    ensures k <= DIGIT_BIT && top < Pow2(k)
  {
    if k > DIGIT_BIT { Pow2Monotone(DIGIT_BIT, k - 1); }
  }

  lemma BitStep(q: nat, k: nat, top: nat)
    requires q > 0 && Shifted(top, q, k)
    ensures Shifted(top, q / 2, k + 1)
    ensures q / 2 == 0 ==> Pow2(k) <= top
  {
    var p := Pow2(k);
    MulMonotone(1, q, p);
    var h := q / 2;
    MulAssoc(h, 2, p);
    MulAssoc(h + 1, 2, p);
    MulMonotone(2 * h, q, p);
    MulMonotone(q + 1, 2 * (h + 1), p);
  }

  lemma {:induction false} TopBits(d: seq<nat>, k: nat)
    requires |d| > 0 && Digits(d) && k > 0 && Pow2(k - 1) <= d[|d| - 1] < Pow2(k)
    ensures Pow2((|d| - 1) * DIGIT_BIT + k - 1) <= Value(d) < Pow2((|d| - 1) * DIGIT_BIT + k)
  {
    var n := |d| - 1;
    MulNonneg(n, DIGIT_BIT);
    var e: nat, p := n * DIGIT_BIT, Power(n);
    assert p == Pow2(e) by { PowerIsPow2(n); }
    ValueBound(d[..n]);
    Pow2Add(k - 1, e);
    Pow2Add(k, e);
    MulMonotone(Pow2(k - 1), d[n], p);
    MulMonotone(d[n] + 1, Pow2(k), p);
    MulDistrib(d[n], 1, p);
  }
}
