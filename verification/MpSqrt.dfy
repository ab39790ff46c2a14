/** mp_sqrt: integer square root by Newton's iteration. */
module MpSqrt {
  import opened Arith
  import opened MpDigits
  import opened MpInts
  import opened MpShift
  import opened MpDiv
  import opened MpMul

  ghost predicate IsRoot(s: int, n: int) {
    s >= 0 && s * s <= n < (s + 1) * (s + 1)
  }

  lemma {:induction false} RootExists(n: nat) returns (s: nat)
    ensures IsRoot(s, n)
    decreases n
  {
    if n == 0 {
      s := 0;
    } else {
      s := RootExists(n - 1);
      if (s + 1) * (s + 1) == n {
        s := s + 1;
        assert (s + 1) * (s + 1) == s * s + 2 * s + 1;
      }
    }
  }

  /** One step of the iteration. */
  function Newton(n: nat, a: nat): int
    requires a > 0
  {
    (a + n / a) / 2
  }

  /** A bound below which n / a cannot fall. */
  lemma QuotientAtLeast(n: nat, a: nat, q: int)
    requires a > 0 && a * q <= n
    ensures q <= n / a
  {
    DivBounds(n, a);
    MulDistrib(n / a, 1, a);
    MulCancelLess(q, n / a + 1, a);
  }

  lemma Squares(s: int, a: int)
    ensures a * (2 * s - a) == s * s - (s - a) * (s - a) && (s - a) * (s - a) >= 0
  {
    var d := s - a;
    assert a * (2 * s - a) == (s - d) * (s + d);
    assert (s - d) * (s + d) == s * s - d * d;
  }

  /** No step goes below the root. */
  lemma StepAbove(n: nat, a: nat, s: nat)
    requires a > 0 && s * s <= n
    ensures s <= Newton(n, a)
  {
    Squares(s, a);
    QuotientAtLeast(n, a, 2 * s - a);
  }

  /** When n = s^2 + 2s, only a step from s + 1 reaches s. */
  lemma StepStrictlyAbove(n: nat, a: nat, s: nat)
    requires a > 0 && n == s * s + 2 * s && a != s + 1
    ensures s + 1 <= Newton(n, a)
  {
    Squares(s + 1, a);
    assert (s + 1) * (s + 1) == n + 1;
    assert (s + 1 - a) * (s + 1 - a) >= 1 by {
      var d := s + 1 - a;
      if d > 0 { MulPositive(d, d); } else { MulPositive(-d, -d); assert (-d) * -d == d * d; }
    }
    QuotientAtLeast(n, a, 2 * (s + 1) - a);
  }

  /** Above the root the quotient is at most the root. */
  lemma QuotientBelow(n: nat, a: nat, s: nat)
    requires IsRoot(s, n) && a > s
    ensures 0 <= n / a <= s
  {
    MulMonotone(s + 1, a, s + 1);
    QuotientBetween(n, a, 0, s + 1);
  }

  /** At the root the quotient is s or s + 1, except for n = s^2 + 2s. */
  lemma QuotientAtRoot(n: nat, s: nat)
    requires IsRoot(s, n) && s > 0 && n != s * s + 2 * s
    ensures s <= n / s <= s + 1
  {
    assert (s + 1) * (s + 1) == s * s + 2 * s + 1;
    MulDistrib(s, 2, s);
    QuotientBetween(n, s, s, s + 2);
  }

  /** The iterates stay above the root, and strictly above it where stopping one
      step late would overshoot. */
  ghost predicate Approaching(n: nat, a: int, s: nat) {
    IsRoot(s, n) && a >= s && a > 0 && (n == s * s + 2 * s ==> a >= s + 1)
  }

  lemma LoopStep(n: nat, a: nat, s: nat)
    requires Approaching(n, a, s)
    ensures 0 <= n / a && 0 <= Newton(n, a)
    ensures Newton(n, a) > n / a ==> Approaching(n, Newton(n, a), s) && Newton(n, a) < a
    ensures Newton(n, a) <= n / a ==> Newton(n, a) == s
  {
    QuotientMonotone(0, n, a);
    StepAbove(n, a, s);
    if a > s { QuotientBelow(n, a, s); } else { QuotientAtRoot(n, s); }
    if n == s * s + 2 * s && a != s + 1 { StepStrictlyAbove(n, a, s); }
  }

  /** The first guess, n shifted down by half its digits, is never s + 1 when
      n = s^2 + 2s, so the first step does not land on s. */
  lemma FirstGuess(n: nat, p: nat, a: nat, s: nat)
    requires n > 0 && p > 0 && a == n / p && a > 0 && IsRoot(s, n)
    ensures Approaching(n, Newton(n, a), s)
  {
    StepAbove(n, a, s);
    if n == s * s + 2 * s {
      GuessMisses(n, p, a, s);
      StepStrictlyAbove(n, a, s);
    }
  }

  lemma GuessMisses(n: nat, p: nat, a: nat, s: nat)
    requires p > 0 && a == n / p && n == s * s + 2 * s
    ensures a != s + 1
  {
    DivBounds(n, p);
    MulDistrib(s, 2, s);
    if a == s + 1 {
      MulDistrib(a, 1, p);
      if p <= s { MulMonotone(p, s, s + 2); } else { MulMonotone(s + 1, p, s + 1); }
    }
  }

  /** t1 = (t1 + arg / t1) / 2, leaving the quotient in t2. */
  method NewtonStep(arg: MpInt, t1: MpInt, t2: MpInt)
    requires arg.Trim() && t1.Trim() && t2.Trim() && arg !in {t1, t2} && t1 != t2
    requires arg.V() > 0 && t1.V() > 0
    modifies t1, t2
    ensures t1.Trim() && t2.Trim() && t2.V() == arg.V() / old(t1.V())
    ensures t1.V() == Newton(arg.V(), old(t1.V()))
  {
    ghost var n, a := arg.V(), t1.V();
    var ok := Div(arg, t1, t2, null);
    QuotientMonotone(0, n, a);
    Plus(t1, t2, t1);
    TrimmedNegative(t1);
    Div2(t1, t1);
    TrimmedNegative(t1);
  }

  /** mp_sqrt: the largest s with s^2 <= arg, or an error for a negative number. */
  method Sqrt(arg: MpInt, ret: MpInt) returns (ok: bool)
    requires arg.Trim() && ret.Valid()
    modifies ret
    ensures ok == (old(arg.V()) >= 0)
    ensures ok ==> ret.Trim() && IsRoot(ret.V(), old(arg.V()))
  {
    hide Pow2, Power;
    TrimmedNegative(arg);
    if arg.sign == NEG { return false; }
    ok := true;
    if arg.used == 0 {
      Zero(ret);
      return;
    }
    ghost var n := arg.V();
    var t1 := InitCopy(arg);
    var t2 := new MpInt.Init();
    ghost var p := Power(t1.used / 2);
    Rshd(t1, t1.used / 2);
    TrimmedNegative(t1);
    ghost var s := RootExists(n);
    FirstGuess(n, p, t1.V(), s);
    NewtonStep(arg, t1, t2);
    Descend(arg, t1, t2, s);
    Exch(t1, ret);
  }

  /** The loop, which stops exactly at the root. */
  method Descend(arg: MpInt, t1: MpInt, t2: MpInt, ghost s: nat)
    requires arg.Trim() && t1.Trim() && t2.Trim() && arg !in {t1, t2} && t1 != t2
    requires arg.V() > 0 && Approaching(arg.V(), t1.V(), s)
    modifies t1, t2
    ensures t1.Trim() && t1.V() == s
  {
    var more := true;
    while more
      invariant t1.Trim() && t2.Trim()
      invariant if more then Approaching(arg.V(), t1.V(), s) else t1.V() == s
      decreases more, t1.V()
    {
      LoopStep(arg.V(), t1.V(), s);
      NewtonStep(arg, t1, t2);
      TrimmedNegative(t1);
      TrimmedNegative(t2);
      var o := CmpMag(t1, t2);
      more := o == GT;
    }
  }

  /** There is only one such root. */
  lemma {:induction false} RootUnique(s: int, t: int, n: int)
    requires IsRoot(s, n) && IsRoot(t, n)
    ensures s == t
  {
    if s < t { MulMonotone(s + 1, t, s + 1); MulMonotone(s + 1, t, t); }
    if t < s { MulMonotone(t + 1, s, t + 1); MulMonotone(t + 1, s, s); }
  }
}
