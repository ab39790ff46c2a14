/** The arithmetic behind one quotient digit of long division. X is what is left
    of the dividend, Y the divisor, and the digit has weight W = Y * R with R a
    power of the base. The guess is formed from the top digits only. */
module MpEstimate {
  import opened Arith
  import opened MpDigits

  /** The digit under the top one, or zero. */
  function BelowTop(s: seq<nat>): nat {
    if |s| >= 2 then s[|s| - 2] else 0
  }

  /** A number lies between its top two digits and the next such number. */
  lemma {:induction false} TopTwo(s: seq<nat>, i: nat, p: nat)
    requires |s| == i + 1 && i >= 1 && Digits(s) && p == Power(i - 1)
    ensures (s[i] * BASE + s[i - 1]) * p <= Value(s) < (s[i] * BASE + s[i - 1] + 1) * p
  {
    var low := s[..i];
    assert low[..i - 1] == s[..i - 1];
    ValueBound(s[..i - 1]);
    assert Value(s) == Value(low) + s[i] * (BASE * p);
    assert Value(low) == Value(s[..i - 1]) + s[i - 1] * p;
    MulAssoc(s[i], BASE, p);
    MulDistrib(s[i] * BASE, s[i - 1], p);
    MulDistrib(s[i] * BASE + s[i - 1], 1, p);
  }

  /** The same for a number times the base, whose second digit may be missing. */
  lemma {:induction false} TopTwoScaled(s: seq<nat>, n: nat, p: nat)
    requires |s| == n + 1 && Digits(s) && p == Power(n)
    ensures (s[n] * BASE + BelowTop(s)) * p <= Value(s) * BASE < (s[n] * BASE + BelowTop(s) + 1) * p
  {
    var t := [0] + s;
    ValueConcat([0], s);
    assert Value([0]) == 0 by { ValueZeros([0]); }
    assert Power(1) == BASE;
    if n == 0 {
      assert s[..0] == [];
      assert Value(s) == s[0] * 1;
      MulDistrib(s[0] * BASE, 1, p);
    } else {
      TopTwo(t, n + 1, p);
    }
  }

  /** The top three digits of a number times the base. */
  lemma {:induction false} TopThree(s: seq<nat>, i: nat, p: nat, top: nat)
    requires |s| == i + 1 && i >= 1 && Digits(s) && p == Power(i - 1)
    requires top == (s[i] * BASE + s[i - 1]) * BASE + BelowTop(s[..i])
    ensures top * p <= Value(s) * BASE < (top + 1) * p
  {
    var low := s[..i];
    MulNonneg(s[i - 1], BASE);
    var l: nat := s[i - 1] * BASE + BelowTop(low);
    assert Value(s) == Value(low) + s[i] * (BASE * p);
    assert l * p <= Value(low) * BASE < (l + 1) * p by { TopTwoScaled(low, i - 1, p); }
    ThreeArith(s[i], s[i - 1], BelowTop(low), p, l, Value(low), top);
  }

  lemma ThreeArith(x: nat, y: nat, z: nat, p: nat, l: nat, v: nat, top: nat)
    requires l == y * BASE + z && top == (x * BASE + y) * BASE + z
    requires l * p <= v * BASE < (l + 1) * p
    ensures top * p <= (v + x * (BASE * p)) * BASE < (top + 1) * p
  {
    var h := x * BASE * BASE;
    MulDistrib(x * BASE, y, BASE);
    MulDistrib(v, x * (BASE * p), BASE);
    assert x * (BASE * p) * BASE == h * p by {
      MulAssoc(x, BASE, p);
      MulAssoc(x * BASE, p, BASE);
      MulAssoc(x * BASE, BASE, p);
    }
    MulDistrib(h, l, p);
    MulDistrib(h, l + 1, p);
  }

  // -------------------------------------------- bounds on the quotient digit

  /** A guess from the top digits of both numbers is not too small. */
  lemma GuessNotLow(x: nat, y: nat, p: nat, r: nat, yt: nat, two: nat, g: nat)
    requires x < (two + 1) * (p * r) && yt * p <= y && two < (g + 1) * yt
    ensures x < (g + 1) * (y * r)
  {
    MulMonotone(two + 1, (g + 1) * yt, p * r);
    MulAssoc(g + 1, yt, p * r);
    MulAssoc(yt, p, r);
    MulMonotone(yt * p, y, r);
    MulMonotone(yt * p * r, y * r, g + 1);
  }

  /** A guess rejected by the three-digit comparison was too large. */
  lemma RejectedIsHigh(x: nat, y: nat, p: nat, r: nat, d: nat, t: nat, g: nat)
    requires x * BASE < (t + 1) * (p * r) && d * p <= y * BASE && g * d > t
    ensures x < g * (y * r)
  {
    MulMonotone(t + 1, g * d, p * r);
    MulAssoc(g, d, p * r);
    MulAssoc(d, p, r);
    MulMonotone(d * p, y * BASE, r);
    MulMonotone(d * p * r, y * BASE * r, g);
    assert g * (y * BASE * r) == g * (y * r) * BASE by {
      MulAssoc(y, BASE, r);
      MulAssoc(y, r, BASE);
      MulAssoc(g, y * r, BASE);
    }
    MulCancelLess(x, g * (y * r), BASE);
  }

  /** A guess that passes the comparison is at most one too large. */
  lemma AcceptedIsClose(x: nat, y: nat, p: nat, r: nat, d: nat, t: nat, g: nat)
    requires g * d <= t && t * (p * r) <= x * BASE && y * BASE <= (d + 1) * p && g < BASE && p <= y
    requires 0 < p && 0 < r
    ensures g * (y * r) < x + y * r
  {
    hide Pow2;
    var m, w := p * r, y * r;
    assert g * w * BASE <= x * BASE + g * m by {
      MulAssoc(d + 1, p, r);
      MulMonotone(y * BASE, (d + 1) * p, r);
      MulAssoc(y, BASE, r);
      MulAssoc(y, r, BASE);
      MulMonotone(w * BASE, (d + 1) * m, g);
      MulAssoc(g, w, BASE);
      MulAssoc(g, d + 1, m);
      MulDistrib(g * d, g, m);
      MulMonotone(g * d, t, m);
      assert g * (d + 1) == g * d + g;
    }
    assert g * m < w * BASE by {
      MulPositive(p, r);
      MulMonotone(p, y, r);
      MulMonotone(m, w, BASE);
      MulMonotone(g + 1, BASE, m);
      MulDistrib(g, 1, m);
    }
    MulDistrib(x, w, BASE);
    MulCancelLess(g * w, x + w, BASE);
  }

  /** With a zero top digit the comparison may be skipped, but then the guess is
      tiny against a divisor whose top digit is at least a quarter of the base. */
  lemma TinyIsClose(x: nat, y: nat, p: nat, r: nat, yt: nat, lo: nat, g: nat)
    requires g * yt <= lo && lo * (p * r) <= x && y <= (yt + 1) * p && g <= 3 && 4 <= yt && yt * p <= y
    requires 0 < p && 0 < r
    ensures g * (y * r) < x + y * r
  {
    var m, w := p * r, y * r;
    MulPositive(p, r);
    assert g * w <= x + 3 * m by {
      MulMonotone(y, (yt + 1) * p, r);
      MulAssoc(yt + 1, p, r);
      MulMonotone(w, (yt + 1) * m, g);
      MulAssoc(g, yt + 1, m);
      MulDistrib(g * yt, g, m);
      assert g * (yt + 1) == g * yt + g;
      MulMonotone(g * yt, lo, m);
      MulMonotone(g, 3, m);
    }
    assert 4 * m <= w by {
      MulMonotone(4, yt, p);
      MulMonotone(4 * p, y, r);
      MulAssoc(4, p, r);
    }
  }
}
