/** What Miller-Rabin rests on: Euclid's lemma, Fermat's little theorem, and the square
    roots of one modulo a prime. */
module Primes {
  import opened Arith
  import opened Modular
  import opened MpMod

  ghost predicate Prime(p: int) {
    p > 1 && forall d :: 1 < d < p ==> p % d != 0
  }

  // ---------------------------------------------------------------- Euclid's lemma

  /** A common divisor as a combination of the two numbers. */
  lemma {:induction false} Bezout(a: nat, b: nat) returns (g: nat, x: int, y: int)
    requires a > 0
    ensures g > 0 && a % g == 0 && b % g == 0 && x * a + y * b == g
    decreases b
  {
    if b == 0 {
      g, x, y := a, 1, 0;
      DivModUnique(a, a, 1, 0);
      DivModUnique(0, a, 0, 0);
    } else {
      DivMod(a, b);
      var u, v;
      g, u, v := Bezout(b, a % b);
      x, y := v, u - v * (a / b);
      var q, r := a / b, a % b;
      DivMod(b, g);
      DivMod(r, g);
      MulAssoc(q, b / g, g);
      MulDistrib(q * (b / g), r / g, g);
      DivModUnique(a, g, q * (b / g) + r / g, 0);
      MulDistribLeft(q * b, r, v);
      MulDistrib(u, -(v * q), b);
      MulAssoc(v, q, b);
      assert -(v * q) * b == -(v * q * b);
    }
  }

  /** A number that a prime does not divide has an inverse. */
  lemma {:induction false} Inverse(a: nat, p: int) returns (x: int)
    requires Prime(p) && a % p != 0
    ensures Cong(x * a, 1, p)
  {
    var g, u, v := Bezout(p, a);
    if g > p { DivModUnique(p, g, 0, p); }
    x := v;
    CongFrom(1, v * a, u, p);
  }

  /** Euclid's lemma: a prime that divides a product divides a factor. */
  lemma {:induction false} Euclid(a: nat, b: int, p: int)
    requires Prime(p) && Cong(a * b, 0, p)
    ensures Cong(a, 0, p) || Cong(b, 0, p)
  {
    DivModUnique(0, p, 0, 0);
    if a % p != 0 {
      var x := Inverse(a, p);
      CongMul(x * a, 1, b, b, p);
      CongMul(x, x, a * b, 0, p);
      MulAssoc(x, a, b);
    }
  }

  /** The square roots of one modulo a prime are one and minus one. */
  lemma {:induction false} RootsOfOne(y: int, p: int)
    requires Prime(p) && 0 <= y < p && Cong(y * y, 1, p)
    ensures y == 1 || y == p - 1
  {
    if y == 0 {
      CongSmall(0, 1, p);
      DivModUnique(1, p, 0, 1);
    } else {
      CongAdd(y * y, 1, 1, 1, p);
      assert (y - 1) * (y + 1) == y * y - 1;
      Euclid(y - 1, y + 1, p);
      if Cong(y - 1, 0, p) {
        CongSmall(y - 1, 0, p);
      } else {
        CongAdd(y + 1, 0, p, p, p);
        if y + 1 < p { CongSmall(y + 1, 0, p); }
      }
    }
  }

  // ------------------------------------------------------------ binomial coefficients

  function Choose(n: nat, k: nat): nat {
    if k == 0 then 1 else if n == 0 then 0 else Choose(n - 1, k) + Choose(n - 1, k - 1)
  }

  lemma {:induction false} ChooseBeyond(n: nat, k: nat)
    requires k > n
    ensures Choose(n, k) == 0
  {
    if n > 0 {
      ChooseBeyond(n - 1, k);
      ChooseBeyond(n - 1, k - 1);
    }
  }

  /** k C(n, k) = n C(n - 1, k - 1) */
  lemma {:induction false} Absorption(n: nat, k: nat)
    requires n > 0 && k > 0
    ensures k * Choose(n, k) == n * Choose(n - 1, k - 1)
    decreases n
  {
    if n == 1 {
      if k > 1 { ChooseBeyond(1, k); ChooseBeyond(0, k - 1); }
    } else {
      var c, d := Choose(n - 1, k), Choose(n - 1, k - 1);
      Absorption(n - 1, k);
      if k == 1 {
        assert d == 1 && Choose(n - 2, 0) == 1;
      } else {
        Absorption(n - 1, k - 1);
        AbsorbArith(n, k, c, d, Choose(n - 2, k - 1), Choose(n - 2, k - 2));
      }
    }
  }

  lemma AbsorbArith(n: int, k: int, c: int, d: int, e: int, f: int)
    requires k * c == (n - 1) * e && (k - 1) * d == (n - 1) * f && d == e + f
    ensures k * (c + d) == n * d
  {
    MulDistribLeft(c, d, k);
    MulSum(k, k - 1, 1, d);
    MulDistribLeft(e, f, n - 1);
    MulSum(n, n - 1, 1, d);
  }

  /** A prime divides its inner binomial coefficients. */
  lemma {:induction false} PrimeChoose(p: int, k: nat)
    requires Prime(p) && 0 < k < p
    ensures Cong(Choose(p, k), 0, p)
  {
    Absorption(p, k);
    CongFrom(k * Choose(p, k), 0, Choose(p - 1, k - 1), p);
    Euclid(k, Choose(p, k), p);
    if Cong(k, 0, p) { CongSmall(k, 0, p); }
  }

  // ----------------------------------------------------------- the binomial theorem

  /** The terms of (1 + x)^n below exponent k. */
  function Terms(n: nat, k: nat, x: int): int {
    if k == 0 then 0 else Terms(n, k - 1, x) + Choose(n, k - 1) * Exp(x, k - 1)
  }

  lemma TermArith(a: int, b: int, c: int, d: int, x: int, e: int)
    ensures (a + x * b) + (c + d) * (x * e) == (a + c * (x * e)) + x * (b + d * e)
  {
    MulDistrib(c, d, x * e);
    MulDistribLeft(b, d * e, x);
    MulAssoc(d, x, e);
    MulAssoc(x, d, e);
  }

  lemma {:induction false} TermsStep(n: nat, k: nat, x: int)
    ensures Terms(n + 1, k + 1, x) == Terms(n, k + 1, x) + x * Terms(n, k, x)
  {
    if k > 0 {
      TermsStep(n, k - 1, x);
      assert Exp(x, k) == x * Exp(x, k - 1);
      TermArith(Terms(n, k, x), Terms(n, k - 1, x), Choose(n, k), Choose(n, k - 1), x, Exp(x, k - 1));
      assert Terms(n + 1, k + 1, x) == Terms(n + 1, k, x) + Choose(n + 1, k) * Exp(x, k);
    }
  }

  lemma {:induction false} Binomial(n: nat, x: int)
    ensures Exp(1 + x, n) == Terms(n, n + 1, x)
  {
    if n > 0 {
      Binomial(n - 1, x);
      TermsStep(n - 1, n, x);
      ChooseBeyond(n - 1, n);
      assert Terms(n - 1, n + 1, x) == Terms(n - 1, n, x);
      MulDistrib(1, x, Terms(n - 1, n, x));
    }
  }

  lemma {:induction false} InnerTerms(p: int, k: nat, x: int)
    requires Prime(p) && 0 < k <= p
    ensures Cong(Terms(p, k, x), 1, p)
  {
    if k > 1 {
      InnerTerms(p, k - 1, x);
      PrimeChoose(p, k - 1);
      var e := Exp(x, k - 1);
      CongMul(Choose(p, k - 1), 0, e, e, p);
      CongAdd(Terms(p, k - 1, x), 1, Choose(p, k - 1) * e, 0, p);
    } else {
      assert Terms(p, 1, x) == Terms(p, 0, x) + Choose(p, 0) * Exp(x, 0);
    }
  }

  lemma {:induction false} ChooseAll(n: nat)
    ensures Choose(n, n) == 1
  {
    if n > 0 {
      ChooseAll(n - 1);
      ChooseBeyond(n - 1, n);
    }
  }

  // ------------------------------------------------------- Fermat's little theorem

  lemma {:induction false} FermatAll(x: nat, p: int)
    requires Prime(p)
    ensures Cong(Exp(x, p), x, p)
    decreases x
  {
    if x == 0 {
      assert Exp(0, p) == 0 * Exp(0, p - 1);
    } else {
      FermatAll(x - 1, p);
      Binomial(p, x - 1);
      InnerTerms(p, p, x - 1);
      ChooseAll(p);
      CongAdd(Terms(p, p, x - 1), 1, Exp(x - 1, p), x - 1, p);
      assert Terms(p, p + 1, x - 1) == Terms(p, p, x - 1) + Choose(p, p) * Exp(x - 1, p);
    }
  }

  /** Fermat: b^(p - 1) = 1 modulo p, for b that p does not divide. */
  lemma {:induction false} Fermat(b: nat, p: int)
    requires Prime(p) && b % p != 0
    ensures Cong(Exp(b, p - 1), 1, p)
  {
    FermatAll(b, p);
    var e := Exp(b, p - 1);
    assert Exp(b, p) == b * e;
    CongAdd(b * e, b, b, b, p);
    MulDistribLeft(e, -1, b);
    assert b * (e - 1) == b * e - b;
    Euclid(b, e - 1, p);
    DivModUnique(0, p, 0, 0);
    CongAdd(e - 1, 0, 1, 1, p);
  }
}
