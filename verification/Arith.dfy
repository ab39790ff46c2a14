/** Non-linear integer facts used throughout the project, one small lemma each. */
module Arith {

  function Min(x: int, y: int): int { if x < y then x else y }

  lemma MulMonotone(a: int, b: int, c: int)
    requires a <= b && 0 <= c
    ensures a * c <= b * c
  {
  }

  lemma MulCancelLess(a: int, b: int, c: int)
    requires a * c < b * c && 0 < c
    ensures a < b
  {
    if b <= a {
      MulMonotone(b, a, c);
    }
  }

  lemma MulPositive(a: int, b: int)
    requires 0 < a && 0 < b
    ensures 0 < a * b && a <= a * b && b <= a * b
  {
    MulMonotone(1, a, b);
    MulMonotone(1, b, a);
  }

  lemma MulNonneg(a: int, b: int)
    requires 0 <= a && 0 <= b
    ensures 0 <= a * b
  {
  }

  lemma MulAssoc(a: int, b: int, c: int)
    ensures (a * b) * c == a * (b * c)
  {
  }

  lemma MulDistrib(a: int, b: int, c: int)
    ensures (a + b) * c == a * c + b * c
  {
  }

  lemma MulDistribLeft(c: int, a: int, b: int)
    ensures c * (a + b) == c * a + c * b
  {
  }

  lemma MulSum(t: int, a: int, b: int, c: int)
    requires t == a + b
    ensures t * c == a * c + b * c
  {
    MulDistrib(a, b, c);
  }

  /** Quotient and remainder are determined by their defining equation. */
  lemma DivModUnique(x: int, d: int, q: int, r: int)
    requires 0 < d && x == q * d + r && 0 <= r < d
    ensures x / d == q && x % d == r
  {
    var q' := x / d;
    var r' := x % d;
    assert x == d * q' + r';
    assert (q - q') * d == r' - r;
    if q < q' {
      MulMonotone(q - q', -1, d);
    } else if q > q' {
      MulMonotone(1, q - q', d);
    }
  }

  lemma DivBounds(x: int, d: int)
    requires 0 < d
    ensures x / d * d <= x < x / d * d + d
  {
  }

  lemma DivMod(x: int, d: int)
    requires 0 < d
    ensures x == x / d * d + x % d && 0 <= x % d < d
  {
  }

  lemma ModAddMultiple(x: int, k: int, d: int)
    requires 0 < d
    ensures (x + k * d) % d == x % d && (x + k * d) / d == x / d + k
  {
    DivMod(x, d);
    MulDistrib(x / d, k, d);
    DivModUnique(x + k * d, d, x / d + k, x % d);
  }

  /** Reducing modulo a multiple first changes nothing. */
  lemma ModOfMod(x: int, q: int, m: int)
    requires 0 < m && 0 < q * m
    ensures x % (q * m) % m == x % m
  {
    var w := q * m;
    var k, r := x / w, x % w;
    DivMod(x, w);
    DivMod(r, m);
    MulAssoc(k, q, m);
    MulDistrib(k * q, r / m, m);
    DivModUnique(x, m, k * q + r / m, r % m);
  }

  lemma QuotientMonotone(x: int, y: int, d: int)
    requires 0 < d && x <= y
    ensures x / d <= y / d
  {
    DivBounds(x, d);
    DivBounds(y, d);
    MulDistrib(y / d, 1, d);
    MulCancelLess(x / d, y / d + 1, d);
  }

  /** A quotient lies between any two multiples that bracket the dividend. */
  lemma QuotientBetween(x: int, d: int, lo: int, hi: int)
    requires 0 < d && lo * d <= x < hi * d
    ensures lo <= x / d < hi
  {
    DivBounds(x, d);
    MulDistrib(x / d, 1, d);
    MulCancelLess(lo, x / d + 1, d);
    MulCancelLess(x / d, hi, d);
  }

  /** Dividing twice is dividing by the product. */
  lemma DivDiv(x: int, d: int, e: int)
    requires 0 < d && 0 < e
    ensures 0 < d * e && x / d / e == x / (d * e)
  {
    MulPositive(d, e);
    var q, r := x / d, x % d;
    var q', r' := q / e, q % e;
    DivMod(x, d);
    DivMod(q, e);
    MulAssoc(q', e, d);
    MulDistrib(q' * e, r', d);
    MulMonotone(r' + 1, e, d);
    MulDistrib(r', 1, d);
    MulNonneg(r', d);
    DivModUnique(x, d * e, q', r' * d + r);
  }

  // ------------------------------------------------------- powers of two

  function Pow2(k: nat): (p: nat)
    ensures p >= 1
  {
    if k == 0 then 1 else 2 * Pow2(k - 1)
  }

  lemma {:induction false} Pow2Add(j: nat, k: nat)
    ensures Pow2(j + k) == Pow2(j) * Pow2(k)
  {
    if j > 0 {
      Pow2Add(j - 1, k);
      assert Pow2(j + k) == 2 * Pow2(j + k - 1);
      MulAssoc(2, Pow2(j - 1), Pow2(k));
    }
  }

  lemma {:induction false} Pow2Monotone(j: nat, k: nat)
    requires j <= k
    ensures Pow2(j) <= Pow2(k)
  {
    if j < k { Pow2Monotone(j, k - 1); }
  }

  lemma Pow2Quarter(k: nat)
    requires k >= 2
    ensures Pow2(k) == 4 * Pow2(k - 2)
  {
  }

  lemma Pow2Step(k: nat)
    ensures Pow2(k + 4) == 16 * Pow2(k)
  {
    Pow2Quarter(k + 4);
    Pow2Quarter(k + 2);
  }

  lemma Pow2Large(k: nat)
    requires k >= 28
    ensures Pow2(k) >= 0x1000_0000
  {
    Pow2Step(0);
    Pow2Step(4);
    Pow2Step(8);
    Pow2Step(12);
    Pow2Step(16);
    Pow2Step(20);
    Pow2Step(24);
    Pow2Monotone(28, k);
  }
}
