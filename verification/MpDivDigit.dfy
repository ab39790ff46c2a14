/** Division by a single digit: by powers of two, by three, and in general. */
module MpDivDigit {
  import opened Arith
  import opened MpDigits
  import opened MpInts
  import opened MpScale
  import opened MpShift

  /** s_is_power_of_two; its first bit test only saves the loop. */
  method IsPowerOfTwo(b: nat) returns (found: bool, p: nat)
    requires b < BASE
    ensures found ==> p < DIGIT_BIT && b == Pow2(p)
    ensures !found ==> forall x :: 0 <= x < DIGIT_BIT ==> b != Pow2(x)
  {
    for x := 0 to DIGIT_BIT
      invariant forall j :: 0 <= j < x ==> b != Pow2(j)
    {
      if b == Pow2(x) { return true, x; }
    }
    return false, 0;
  }

  /** One step of the general loop: the word w never exceeds two digits. */
  lemma GeneralColumn(w: nat, x: nat, b: nat)
    requires w < b < BASE && x < BASE
    ensures var z := w * BASE + x;
      0 <= z < WORD_RANGE && 0 <= z / b && 0 <= z - z / b * b < b && (z < b ==> z / b == 0)
  {
    var z := w * BASE + x;
    MulNonneg(w, BASE);
    DivMod(z, b);
    QuotientMonotone(0, z, b);
    MulMonotone(w + 1, BASE, BASE);
    MulDistrib(w, 1, BASE);
    if z < b { DivModUnique(z, b, 0, z); }
  }

  /** The long-division loop of mp_div_d. */
  method DivideDigits(s: seq<nat>, b: nat, q0: seq<nat>) returns (q: seq<nat>, w: nat)
    requires Digits(s) && |s| <= |q0| && 0 < b < BASE
    ensures Divided(s, q, 0, b, w) && |q| == |q0|
    ensures forall j :: |s| <= j < |q| ==> q[j] == q0[j]
  {
    q, w := q0, 0;
    var ix: nat := |s|;
    DividedStart(s, q, b);
    while ix > 0
      invariant ix <= |s| && |q| == |q0| && Divided(s, q, ix, b, w)
      invariant forall j :: |s| <= j < |q| ==> q[j] == q0[j]
    {
      ix := ix - 1;
      GeneralColumn(w, s[ix], b);
      var z: nat := w * BASE + s[ix];
      var t: nat, w': nat := 0, z;
      if z >= b {
        t := z / b;
        w' := z - t * b;
      }
      DividedStep(s, q, ix, b, w, t, w');
      q := q[ix := t];
      w := w';
    }
  }

  /** The reciprocal step of mp_div_3: the estimate never exceeds the quotient. */
  lemma ThirdEstimate(w: nat, x: nat)
    requires w < 3 && x < BASE
    ensures var z := w * BASE + x; var t := z * (BASE / 3) / BASE;
      0 <= z && z * (BASE / 3) < WORD_RANGE && 0 <= t && 3 * t <= z
  {
    MulMonotone(w, 2, BASE);
    MulNonneg(w, BASE);
    var z := w * BASE + x;
    ThirdFits(z, BASE / 3, BASE);
    ThirdBelow(z, BASE / 3, BASE, z * (BASE / 3));
  }

  lemma ThirdFits(z: nat, b: nat, base: nat)
    requires z < 3 * base && 3 * b <= base
    ensures 0 <= z * b < 256 * (base * base)
  {
    MulNonneg(z, b);
    MulMonotone(z, 3 * base, b);
    MulMonotone(b, base, base);
  }

  lemma ThirdBelow(z: nat, b: nat, base: nat, zb: nat)
    requires 0 < base && 3 * b <= base && zb == z * b
    ensures 0 <= zb / base && 3 * (zb / base) <= z
  {
    var t := zb / base;
    QuotientMonotone(0, zb, base);
    DivBounds(zb, base);
    MulMonotone(3 * b, base, z);
    MulAssoc(3, b, z);
    MulAssoc(3, t, base);
    MulDistrib(z, 1, base);
    MulCancelLess(3 * t, z + 1, base);
  }

  /** One digit of mp_div_3: estimate, then count up the rest. */
  method ThirdOf(w: nat, x: nat) returns (t: nat, r: nat)
    requires w < 3 && x < BASE
    ensures r < 3 && t * 3 + r == w * BASE + x
  {
    ThirdEstimate(w, x);
    var z: nat := w * BASE + x;
    t, r := 0, z;
    if z >= 3 {
      t := z * (BASE / 3) / BASE;
      r := z - (t + t + t);
      while r >= 3
        invariant t * 3 + r == z
      {
        t := t + 1;
        r := r - 3;
      }
    }
  }

  /** The digit loop of mp_div_3. */
  method ThirdDigits(s: seq<nat>, q0: seq<nat>) returns (q: seq<nat>, w: nat)
    requires Digits(s) && |s| <= |q0|
    ensures Divided(s, q, 0, 3, w) && |q| == |q0|
    ensures forall j :: |s| <= j < |q| ==> q[j] == q0[j]
  {
    q, w := q0, 0;
    var ix: nat := |s|;
    DividedStart(s, q, 3);
    while ix > 0
      invariant ix <= |s| && |q| == |q0| && Divided(s, q, ix, 3, w)
      invariant forall j :: |s| <= j < |q| ==> q[j] == q0[j]
    {
      ix := ix - 1;
      var t, w' := ThirdOf(w, s[ix]);
      DividedStep(s, q, ix, 3, w, t, w');
      q := q[ix := t];
      w := w';
    }
  }

  /** Build the quotient in a fresh integer and hand it to c. */
  method Deliver(q: MpInt, digits: seq<nat>, n: nat, s: Sign, c: MpInt?)
    requires |digits| == |q.dp| && MP_PREC <= |q.dp| && n <= |q.dp| && q != c
    requires forall j :: 0 <= j < n ==> digits[j] < BASE
    requires forall j :: n <= j < |digits| ==> digits[j] == 0
    modifies q, c
    ensures c != null ==> c.Trim() && c.Mag() == Value(digits[..n]) && c.ClearAbove() && c.used <= n
    ensures c != null && c.used > 0 ==> c.sign == s
  {
    q.used, q.sign, q.dp := n, s, digits;
    if c != null {
      Clamp(q);
      Exch(q, c);
    }
  }

  /** mp_div_3 */
  method Div3(a: MpInt, c: MpInt?) returns (d: nat)
    requires a.Valid()
    modifies c
    ensures d == old(a.Mag()) % 3
    ensures c != null ==> c.Trim() && c.Mag() == old(a.Mag()) / 3 && c.used <= old(a.used)
    ensures c != null && c.used > 0 ==> c.sign == old(a.sign)
    ensures c != null && old(c.ClearAbove()) ==> c.ClearAbove()
  {
    BaseIsLarge();
    var q := new MpInt.InitSize(a.used);
    var digits, w := ThirdDigits(a.dp[..a.used], q.dp);
    DividedDone(a.dp[..a.used], digits, 3, w);
    Deliver(q, digits, a.used, a.sign, c);
    d := w;
  }

  /** mp_div_d: fails exactly for b = 0; otherwise quotient into c (if wanted)
      and remainder d, through whichever of the branches applies. */
  method DivD(a: MpInt, b: nat, c: MpInt?) returns (ok: bool, d: nat)
    requires a.Trim() && b < BASE && (c != null ==> c.Valid())
    modifies c
    ensures ok == (b != 0)
    ensures ok ==> d == old(a.Mag()) % b
    ensures ok && c != null ==> c.Trim() && c.Mag() == old(a.Mag()) / b
    ensures ok && c != null && c.used > 0 ==> c.sign == old(a.sign)
    ensures c != null && old(c.ClearAbove()) ==> c.ClearAbove()
  {
    if b == 0 { return false, 0; }
    if b == 1 || a.used == 0 {
      TrimmedNegative(a);
      DivideSmall(a.Mag(), b);
      if c != null { Copy(a, c); }
      return true, 0;
    }
    var two, ix := IsPowerOfTwo(b);
    if two {
      LowBits(a.dp[..a.used], ix);
      d := a.dp[0] % Pow2(ix);
      if c != null { Div2d(a, ix, c, null); }
      return true, d;
    }
    if b == 3 {
      d := Div3(a, c);
      return true, d;
    }
    d := DivideGeneral(a, b, c);
    return true, d;
  }

  lemma DivideSmall(v: nat, b: nat)
    requires b == 1 || (v == 0 && b > 0)
    ensures v % b == 0 && v / b == v
  {
    DivModUnique(v, b, v, 0);
  }

  /** The branch with no easy answer. */
  method DivideGeneral(a: MpInt, b: nat, c: MpInt?) returns (d: nat)
    requires a.Valid() && 0 < b < BASE
    modifies c
    ensures d == old(a.Mag()) % b
    ensures c != null ==> c.Trim() && c.Mag() == old(a.Mag()) / b && c.ClearAbove()
    ensures c != null && c.used > 0 ==> c.sign == old(a.sign)
  {
    var q := new MpInt.InitSize(a.used);
    var digits, w := DivideDigits(a.dp[..a.used], b, q.dp);
    DividedDone(a.dp[..a.used], digits, b, w);
    Deliver(q, digits, a.used, a.sign, c);
    d := w;
  }

  /** The low bits of a number are the low bits of its first digit. */
  lemma {:induction false} LowBits(s: seq<nat>, p: nat)
    requires |s| > 0 && p <= DIGIT_BIT
    ensures Value(s) % Pow2(p) == s[0] % Pow2(p)
  {
    var e, t := Pow2(p), Pow2(DIGIT_BIT - p);
    ValueLow(s);
    DigitSplit(p);
    var high := Value(s[1..]);
    MulAssoc(high, t, e);
    ModAddMultiple(s[0], high * t, e);
  }
}
