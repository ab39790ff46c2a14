/** Reduction modulo numbers of the form 2^p - d, and which numbers mp_exptmod takes to
    be of that form. */
module MpReduce2k {
  import opened Arith
  import opened MpDigits
  import opened MpInts
  import opened MpAddSub
  import opened MpScale
  import opened MpShift
  import opened MpMul
  import opened MpMontgomery

  // -------------------------------------------------------------------- one pass

  /** a = a mod 2^p + (a / 2^p) * d takes a multiple of n = 2^p - d away. */
  lemma FoldKeeps(a: nat, t: nat, d: nat, n: nat, b: int)
    requires 0 < t && n == t - d && n > 0 && b == a % t + a / t * d
    ensures 0 <= b <= a && b % n == a % n
  {
    var q, r := a / t, a % t;
    DivMod(a, t);
    QuotientMonotone(0, a, t);
    MulNonneg(q, d);
    MulNonneg(q, n);
    MulDistribLeft(q, n, d);
    ModAddMultiple(b, q, n);
  }

  /** After the fold, stop below n or take n away and start again. */
  method Settle(a: MpInt, n: MpInt, ghost x: nat) returns (more: bool)
    requires a.Trim() && n.Trim() && a != n && a.sign == ZPOS && n.sign == ZPOS && n.Mag() > 0
    requires a.Mag() % n.Mag() == x % n.Mag()
    modifies a
    ensures a.Trim() && a.sign == ZPOS && a.Mag() % n.Mag() == x % n.Mag() && a.Mag() <= old(a.Mag())
    ensures more ==> a.Mag() < old(a.Mag())
    ensures !more ==> a.Mag() < n.Mag()
  {
    ghost var v, m := a.Mag(), n.Mag();
    var o := CmpMag(a, n);
    more := o != LT;
    if more {
      SMpSub(a, n, a);
      ModAddMultiple(v - m, 1, m);
    }
  }

  /** 2^p for the p bits of the modulus, split as n + d. */
  ghost predicate Complement(n: nat, p: nat, d: nat) {
    0 < n && n + d == Pow2(p)
  }

  // ------------------------------------------------------------- mp_reduce_2k_l

  /** One pass, with a factor of any length. */
  method FoldLong(a: MpInt, d: MpInt, q: MpInt, p: nat, ghost n: nat)
    requires a.Trim() && d.Trim() && q.Trim() && a !in {d, q} && d != q && a.sign == ZPOS && d.sign == ZPOS
    requires Complement(n, p, d.Mag())
    modifies a, q
    ensures a.Trim() && q.Trim() && a.sign == ZPOS && a.Mag() % n == old(a.Mag()) % n && a.Mag() <= old(a.Mag())
  {
    hide Value, Pow2;
    ghost var v, t := a.Mag(), Pow2(p);
    Div2d(a, p, q, a);
    TrimmedNegative(q);
    TrimmedNegative(a);
    ghost var k: nat := q.Mag();
    MulNatural(q, d, q, k, d.Mag());
    SMpAdd(a, q, a);
    FoldKeeps(v, t, d.Mag(), n, a.Mag());
  }

  /** mp_reduce_2k_l: a mod n, for n = 2^p - d with p bits. */
  method Reduce2kL(a: MpInt, n: MpInt, d: MpInt)
    requires a.Trim() && n.Trim() && d.Trim() && a !in {n, d} && a.sign == ZPOS && n.sign == ZPOS && d.sign == ZPOS
    requires n.Mag() > 0 && Pair(n.Mag(), d.Mag())
    modifies a
    ensures a.Trim() && a.V() == old(a.V()) % n.V()
  {
    hide Value, Pow2;
    ghost var x, m := a.Mag(), n.Mag();
    var q := new MpInt.Init();
    var p := CountBits(n);
    TrimmedNegative(n);
    assert Bits(m, p);
    var more := true;
    while more
      invariant a.Trim() && q.Trim() && a.sign == ZPOS && a.Mag() % m == x % m && (!more ==> a.Mag() < m)
      decreases a.Mag(), more
    {
      FoldLong(a, d, q, p, m);
      more := Settle(a, n, x);
    }
    DivModUnique(a.Mag(), m, 0, a.Mag());
  }

  /** n has p bits. */
  ghost predicate Bits(n: nat, p: nat) {
    p > 0 && Pow2(p - 1) <= n < Pow2(p)
  }

  /** d is what n lacks to the next power of two. */
  ghost predicate Pair(n: nat, d: nat) {
    forall p: nat :: Bits(n, p) ==> Complement(n, p, d)
  }

  lemma {:induction false} BitsUnique(n: nat, p: nat, q: nat)
    requires Bits(n, p) && Bits(n, q)
    ensures p == q
  {
    if p < q { Pow2Monotone(p, q - 1); }
    if q < p { Pow2Monotone(q, p - 1); }
  }

  /** The power of two just above a. */
  method PowerAbove(a: MpInt) returns (tmp: MpInt, p: nat)
    requires a.Trim() && a.sign == ZPOS && a.Mag() > 0
    ensures fresh(tmp) && tmp.Trim() && tmp.sign == ZPOS && tmp.Mag() == Pow2(p) > a.Mag() && Bits(a.Mag(), p)
    ensures a.used <= tmp.used
  {
    hide Value, Pow2;
    tmp := new MpInt.Init();
    p := CountBits(a);
    TrimmedNegative(a);
    TwoExpt(tmp, p);
    TrimmedNegative(tmp);
    DigitsOrdered(tmp, a);
  }

  /** mp_reduce_2k_setup_l: d = 2^p - a */
  method Setup2kL(a: MpInt, d: MpInt)
    requires a.Trim() && d.Valid() && a != d && a.sign == ZPOS && a.Mag() > 0 && d.sign == ZPOS
    modifies d
    ensures d.Trim() && d.V() > 0 && Pair(a.Mag(), d.Mag())
  {
    hide Value, Pow2, Bits;
    var tmp, p := PowerAbove(a);
    SMpSub(tmp, a, d);
    TrimmedNegative(d);
    PairFrom(a.Mag(), p, d.Mag());
  }

  lemma PairFrom(n: nat, p: nat, d: nat)
    requires Bits(n, p) && Complement(n, p, d)
    ensures Pair(n, d)
  {
    forall q: nat | Bits(n, q) ensures Complement(n, q, d) { BitsUnique(n, p, q); }
  }

  // --------------------------------------------------------------- mp_reduce_2k

  /** n lacks exactly BASE to the next power of two, which is one too many for a digit. */
  ghost predicate Lacking(n: nat) {
    forall p: nat :: Bits(n, p) ==> Pow2(p) - n == BASE
  }

  /** One pass, with a factor of one digit. */
  method FoldDigit(a: MpInt, d: nat, q: MpInt, p: nat)
    requires a.Trim() && q.Trim() && a != q && a.sign == ZPOS && d < BASE
    modifies a, q
    ensures a.Trim() && q.Trim() && a.sign == ZPOS && a.Mag() == Folded(old(a.Mag()), Pow2(p), d)
  {
    hide Value, Pow2;
    ghost var v, t := a.Mag(), Pow2(p);
    Div2d(a, p, q, a);
    TrimmedNegative(q);
    TrimmedNegative(a);
    if d != 1 { MulD(q, d, q); }
    SMpAdd(a, q, a);
  }

  ghost function Folded(a: nat, t: nat, d: nat): int
    requires t > 0
  {
    a % t + a / t * d
  }

  /** What is left of x: all of it, or what the first pass keeps when the factor is cut
      to 0. */
  ghost function Kept(x: nat, n: nat, p: nat, d: nat): int {
    if Complement(n, p, d) then x else x % Pow2(p)
  }

  /** A pass keeps what is kept, and does not make a larger. */
  lemma FoldKeepsKept(a: nat, x: nat, n: nat, p: nat, d: nat)
    requires 0 < n < Pow2(p) && (Complement(n, p, d) || d == 0)
    requires a == x || Midway(a, x, n, p, d)
    ensures 0 <= Folded(a, Pow2(p), d) <= a && Folded(a, Pow2(p), d) % n == Kept(x, n, p, d) % n
    ensures forall b: nat :: b <= Folded(a, Pow2(p), d) && b % n == Kept(x, n, p, d) % n ==> Midway(b, x, n, p, d)
  {
    var t := Pow2(p);
    if Complement(n, p, d) {
      FoldKeeps(a, t, d, n, Folded(a, t, d));
    } else {
      DivMod(a, t);
      QuotientMonotone(0, a, t);
      MulMonotone(0, a / t, t);
      if a < t { DivModUnique(a, t, 0, a); }
    }
  }

  /** mp_reduce_2k. With the right factor it gives a mod n. When the factor is BASE and has
      been cut to the digit 0, the multiples of 2^p are simply dropped. */
  method Reduce2k(a: MpInt, n: MpInt, d: nat)
    requires a.Trim() && n.Trim() && a != n && a.sign == ZPOS && n.sign == ZPOS && d < BASE
    requires n.Mag() > 0 && (Pair(n.Mag(), d) || (d == 0 && Lacking(n.Mag())))
    modifies a
    ensures a.Trim() && 0 <= a.V() < n.V() && (Pair(n.Mag(), d) ==> a.V() == old(a.V()) % n.V())
    ensures !Pair(n.Mag(), d) ==> a.V() == old(a.V()) % (n.V() + BASE) % n.V()
  {
    hide Value, Pow2, Folded, Kept, Pair, Lacking, Complement, Bits, Midway;
    ghost var x, m := a.Mag(), n.Mag();
    var q := new MpInt.Init();
    var p := CountBits(n);
    TrimmedNegative(n);
    BitsFrom(m, p);
    FactorKind(m, p, d);
    ghost var kept: nat := Kept(x, m, p, d);
    var more := true;
    while more
      invariant a.Trim() && q.Trim() && a.sign == ZPOS && (!more ==> a.Mag() < m)
      invariant more ==> a.Mag() == x || Midway(a.Mag(), x, m, p, d)
      invariant !more ==> a.Mag() % m == kept % m
      decreases a.Mag(), more
    {
      FoldKeepsKept(a.Mag(), x, m, p, d);
      FoldDigit(a, d, q, p);
      more := Settle(a, n, kept);
    }
    DivModUnique(a.Mag(), m, 0, a.Mag());
    KeptResidue(x, m, p, d);
  }

  lemma BitsFrom(n: nat, p: nat)
    requires p > 0 && Pow2(p - 1) <= n < Pow2(p)
    ensures Bits(n, p)
  {
  }

  ghost predicate Midway(a: nat, x: nat, n: nat, p: nat, d: nat)
    requires n > 0
  {
    (a < Pow2(p) && a % n == Kept(x, n, p, d) % n) || (Complement(n, p, d) && a % n == x % n)
  }

  lemma FactorKind(n: nat, p: nat, d: nat)
    requires Bits(n, p) && (Pair(n, d) || (d == 0 && Lacking(n)))
    ensures 0 < n < Pow2(p) && (Pair(n, d) <==> Complement(n, p, d)) && (!Pair(n, d) ==> Pow2(p) == n + BASE)
    ensures forall x: nat :: 0 <= Kept(x, n, p, d)
  {
    if Complement(n, p, d) { PairFrom(n, p, d); }
    forall x: nat ensures 0 <= Kept(x, n, p, d) { DivMod(x, Pow2(p)); }
  }

  lemma KeptResidue(x: nat, n: nat, p: nat, d: nat)
    requires n > 0
    ensures Complement(n, p, d) ==> Kept(x, n, p, d) == x
    ensures !Complement(n, p, d) ==> Kept(x, n, p, d) == x % Pow2(p)
  {
  }

  /** mp_reduce_2k_setup: digit 0 of 2^p - a, all that is kept of it. */
  method Setup2k(a: MpInt) returns (d: nat)
    requires a.Trim() && a.sign == ZPOS && a.Mag() > 0
    ensures d < BASE && forall p: nat :: Bits(a.Mag(), p) ==> d == (Pow2(p) - a.Mag()) % BASE
  {
    hide Value, Pow2, Bits;
    ghost var n := a.Mag();
    var tmp, p := PowerAbove(a);
    SMpSub(tmp, a, tmp);
    TrimmedNegative(tmp);
    d := tmp.dp[0];
    FirstDigit(tmp);
    forall q: nat | Bits(n, q) ensures d == (Pow2(q) - n) % BASE { BitsUnique(n, p, q); }
  }

  lemma {:induction false} FirstDigit(a: MpInt)
    requires a.Trim() && a.used > 0
    ensures a.dp[0] < BASE && a.dp[0] == a.Mag() % BASE
  {
    ValueLow(a.dp[..a.used]);
    DivModUnique(a.Mag(), BASE, Value(a.dp[..a.used][1..]), a.dp[0]);
  }

  /** The digit is the right factor exactly when nothing was lost. */
  lemma SetupExact(n: nat, p: nat, d: nat)
    requires Bits(n, p) && d == (Pow2(p) - n) % BASE
    ensures Pair(n, d) <==> Pow2(p) - n < BASE
  {
    BaseIsLarge();
    if Pow2(p) - n < BASE {
      DivModUnique(Pow2(p) - n, BASE, 0, Pow2(p) - n);
      PairFrom(n, p, d);
    }
    DivMod(Pow2(p) - n, BASE);
  }

  // ----------------------------------------------------------- which moduli qualify

  /** How many digits are MP_MASK. */
  function MaskCount(s: seq<nat>): nat {
    if s == [] then 0 else MaskCount(s[..|s| - 1]) + if s[|s| - 1] == BASE - 1 then 1 else 0
  }

  /** mp_reduce_is_2k_l: one digit, or at least half of the digits full of ones. */
  method Is2kL(a: MpInt) returns (r: bool)
    requires a.Valid()
    ensures r == (a.used == 1 || (a.used > 1 && MaskCount(a.dp[..a.used]) >= a.used / 2))
  {
    if a.used == 0 { return false; }
    if a.used == 1 { return true; }
    var iy, ix := 0, 0;
    while ix < a.used
      invariant 0 <= ix <= a.used && iy == MaskCount(a.dp[..ix])
    {
      assert a.dp[..ix + 1][..ix] == a.dp[..ix];
      if a.dp[ix] == BASE - 1 { iy := iy + 1; }
      ix := ix + 1;
    }
    r := iy >= a.used / 2;
  }

  /** mp_dr_is_modulus: two digits or more, all but the lowest full of ones. */
  method DrIsModulus(a: MpInt) returns (r: bool)
    requires a.Valid()
    ensures r == (a.used >= 2 && forall i :: 1 <= i < a.used ==> a.dp[i] == BASE - 1)
  {
    if a.used < 2 { return false; }
    var ix := 1;
    while ix < a.used
      invariant 1 <= ix <= a.used && forall i :: 1 <= i < ix ==> a.dp[i] == BASE - 1
    {
      if a.dp[ix] != BASE - 1 { return false; }
      ix := ix + 1;
    }
    r := true;
  }

  /** Bit t of a number is a bit of digit t / DIGIT_BIT. */
  lemma {:induction false} BitOfDigits(s: seq<nat>, t: nat, k: nat, d: nat)
    requires k == t / DIGIT_BIT && d == t % DIGIT_BIT && k < |s| && Digits(s)
    ensures Value(s) / Pow2(t) % 2 == s[k] / Pow2(d) % 2
  {
    UnshiftSplit(Value(s), t, k, d);
    RshdValue(s, k);
    ValueLow(s[k..]);
    var h, x := Value(s[k..][1..]), s[k];
    var e, f := Pow2(d), Pow2(DIGIT_BIT - d - 1);
    assert BASE == 2 * f * e by { Pow2Add(DIGIT_BIT - d, d); }
    LowBitsKept(x, h, e, f);
  }

  lemma LowBitsKept(x: nat, h: nat, e: nat, f: nat)
    requires e > 0
    ensures (x + h * (2 * f * e)) / e % 2 == x / e % 2
  {
    var q, r := x / e, x % e;
    DivMod(x, e);
    MulAssoc(h, 2 * f, e);
    MulDistrib(q, h * (2 * f), e);
    DivModUnique(x + h * (2 * f * e), e, q + h * (2 * f), r);
    MulAssoc(h, f, 2);
    assert h * (2 * f) == h * f * 2;
    ModAddMultiple(q, h * f, 2);
  }

  /** The lowest t bits are all ones. */
  ghost predicate Ones(h: nat, t: nat) { h % Pow2(t) == Pow2(t) - 1 }

  lemma {:induction false} OnesStep(h: nat, t: nat)
    requires Ones(h, t)
    ensures Ones(h, t + 1) <==> h / Pow2(t) % 2 == 1
  {
    var p := Pow2(t);
    var q, r := h / p, h % p;
    DivMod(h, p);
    DivMod(q, 2);
    QuotientMonotone(0, h, p);
    MulDistrib(q / 2 * 2, q % 2, p);
    MulAssoc(q / 2, 2, p);
    assert h == q / 2 * (2 * p) + (q % 2 * p + r);
    assert q % 2 == 0 || q % 2 == 1;
    DivModUnique(h, 2 * p, q / 2, q % 2 * p + r);
  }

  lemma {:induction false} OnesBelow(h: nat, t: nat, m: nat)
    requires h == Pow2(m) - 1 && t <= m
    ensures Ones(h, t)
  {
    var p, q := Pow2(t), Pow2(m - t);
    Pow2Add(m - t, t);
    MulDistrib(q - 1, 1, p);
    DivModUnique(h, p, q - 1, p - 1);
  }

  /** The bit loop of mp_reduce_is_2k: are the lowest m bits of the digits s all ones? */
  method AllOnes(a: MpInt, s: seq<nat>, m: nat) returns (r: bool)
    requires a.Valid() && a.used > 1 && s == a.dp[1..a.used] && m <= |s| * DIGIT_BIT
    ensures r == (Value(s) % Pow2(m) == Pow2(m) - 1)
  {
    hide Value, Pow2;
    var t, iw, iz: nat := 0, 1, 1;
    StartOnes(Value(s));
    while t < m
      invariant 0 <= t <= m && iw == 1 + t / DIGIT_BIT && iz == Pow2(t % DIGIT_BIT) && Ones(Value(s), t)
    {
      NextBitPlace(t, |s|);
      BitOfDigits(s, t, t / DIGIT_BIT, t % DIGIT_BIT);
      OnesStep(Value(s), t);
      if a.dp[iw] / iz % 2 == 0 {
        BrokenOnes(Value(s), t, m);
        return false;
      }
      iz := 2 * iz;
      if iz > BASE - 1 { iw, iz := iw + 1, 1; }
      t := t + 1;
    }
    r := true;
  }

  lemma {:induction false} StartOnes(h: nat)
    ensures Ones(h, 0) && Pow2(0 % DIGIT_BIT) == 1 && 0 / DIGIT_BIT == 0
  {
    assert Pow2(0) == 1;
    DivModUnique(h, 1, h, 0);
    DivModUnique(0, DIGIT_BIT, 0, 0);
  }

  /** Where the mask for bit t + 1 is. */
  lemma {:induction false} NextBitPlace(t: nat, n: nat)
    requires t < n * DIGIT_BIT
    ensures 0 <= t / DIGIT_BIT < n && 0 <= t % DIGIT_BIT < DIGIT_BIT && Pow2(t % DIGIT_BIT) > 0
    ensures 2 * Pow2(t % DIGIT_BIT) > BASE - 1 ==>
      (t + 1) / DIGIT_BIT == t / DIGIT_BIT + 1 && (t + 1) % DIGIT_BIT == 0 && Pow2((t + 1) % DIGIT_BIT) == 1
    ensures 2 * Pow2(t % DIGIT_BIT) <= BASE - 1 ==>
      (t + 1) / DIGIT_BIT == t / DIGIT_BIT && (t + 1) % DIGIT_BIT == t % DIGIT_BIT + 1
      && Pow2((t + 1) % DIGIT_BIT) == 2 * Pow2(t % DIGIT_BIT)
  {
    hide Pow2;
    var k, d := t / DIGIT_BIT, t % DIGIT_BIT;
    DivMod(t, DIGIT_BIT);
    QuotientBetween(t, DIGIT_BIT, 0, n);
    Pow2Next(d);
    if d + 1 == DIGIT_BIT {
      MulDistrib(k, 1, DIGIT_BIT);
      DivModUnique(t + 1, DIGIT_BIT, k + 1, 0);
    } else {
      Pow2Monotone(d + 1, DIGIT_BIT - 1);
      Pow2Next(DIGIT_BIT - 1);
      DivModUnique(t + 1, DIGIT_BIT, k, d + 1);
    }
  }

  lemma Pow2Next(d: nat)
    ensures Pow2(d + 1) == 2 * Pow2(d) && Pow2(d) > 0 && Pow2(0) == 1
  {
  }

  /** A zero bit below m stays. */
  lemma {:induction false} BrokenOnes(h: nat, t: nat, m: nat)
    requires t < m && !Ones(h, t + 1)
    ensures !Ones(h, m)
  {
    if Ones(h, m) {
      var p, q := Pow2(m), h / Pow2(m);
      DivMod(h, p);
      OnesBelow(p - 1, t + 1, m);
      Pow2Add(m - (t + 1), t + 1);
      MulAssoc(q, Pow2(m - (t + 1)), Pow2(t + 1));
      ModAddMultiple(p - 1, q * Pow2(m - (t + 1)), Pow2(t + 1));
    }
  }

  /** mp_reduce_is_2k: yes exactly for one digit, or when 2^p - a is at most BASE. */
  method Is2k(a: MpInt) returns (r: bool)
    requires a.Trim()
    ensures a.used == 0 ==> !r
    ensures a.used == 1 ==> r
    ensures a.used > 1 ==> forall p: nat :: Bits(a.Mag(), p) ==> (r <==> Pow2(p) - a.Mag() <= BASE)
  {
    hide Value, Pow2, Bits;
    if a.used == 0 { return false; }
    if a.used == 1 { return true; }
    var iy := CountBits(a);
    HighPartBits(a, iy);
    r := AllOnes(a, a.dp[1..a.used], iy - DIGIT_BIT);
    forall p: nat | Bits(a.Mag(), p) ensures r <==> Pow2(p) - a.Mag() <= BASE { BitsUnique(a.Mag(), iy, p); }
  }

  lemma {:induction false} HighPartBits(a: MpInt, p: nat)
    requires a.Trim() && a.used > 1 && p > 0 && Pow2(p - 1) <= a.Mag() < Pow2(p) && p <= a.used * DIGIT_BIT
    requires (a.used - 1) * DIGIT_BIT < p
    ensures Bits(a.Mag(), p) && 0 <= p - DIGIT_BIT <= |a.dp[1..a.used]| * DIGIT_BIT
    ensures Ones(Value(a.dp[1..a.used]), p - DIGIT_BIT) <==> Pow2(p) - a.Mag() <= BASE
  {
    hide Pow2;
    var s, m := a.dp[..a.used], p - DIGIT_BIT;
    MulDistrib(a.used - 1, 1, DIGIT_BIT);
    MulMonotone(1, a.used - 1, DIGIT_BIT);
    assert a.dp[1..a.used] == s[1..];
    ValueLow(s);
    Pow2Add(m, DIGIT_BIT);
    HighArith(s[0], Value(s[1..]), Pow2(m), a.Mag());
  }

  lemma HighArith(low: nat, h: nat, e: nat, n: nat)
    requires low < BASE && n == low + h * BASE && n < e * BASE && e > 0
    ensures h < e && h % e == h && (h == e - 1 <==> e * BASE - n <= BASE)
  {
    if h >= e { MulMonotone(e, h, BASE); }
    DivModUnique(h, e, 0, h);
    MulDistrib(e - h, h, BASE);
    if e - h >= 2 { MulMonotone(2, e - h, BASE); }
  }
}
