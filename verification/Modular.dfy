/** Congruences. */
module Modular {
  import opened Arith

  ghost predicate Cong(x: int, y: int, m: int)
    requires 0 < m
  {
    x % m == y % m
  }

  /** Congruent numbers differ by a multiple of the modulus, and conversely. */
  lemma CongFrom(x: int, y: int, k: int, m: int)
    requires 0 < m && x == y + k * m
    ensures Cong(x, y, m)
  {
    ModAddMultiple(y, k, m);
  }

  lemma CongGap(x: int, y: int, m: int) returns (k: int)
    requires 0 < m && Cong(x, y, m)
    ensures x == y + k * m
  {
    DivMod(x, m);
    DivMod(y, m);
    k := x / m - y / m;
    MulDistrib(k, y / m, m);
  }

  lemma CongAdd(x: int, y: int, u: int, v: int, m: int)
    requires 0 < m && Cong(x, y, m) && Cong(u, v, m)
    ensures Cong(x + u, y + v, m) && Cong(x - u, y - v, m)
  {
    var j := CongGap(x, y, m);
    var k := CongGap(u, v, m);
    MulDistrib(j, k, m);
    MulDistrib(j, -k, m);
    assert (-k) * m == -(k * m);
    CongFrom(x + u, y + v, j + k, m);
    CongFrom(x - u, y - v, j - k, m);
  }

  lemma CongMul(x: int, y: int, u: int, v: int, m: int)
    requires 0 < m && Cong(x, y, m) && Cong(u, v, m)
    ensures Cong(x * u, y * v, m)
  {
    var j := CongGap(x, y, m);
    var k := CongGap(u, v, m);
    CongMulArith(x, y, u, v, j, k, m);
    CongFrom(x * u, y * v, j * u + y * k, m);
  }

  lemma CongMulArith(x: int, y: int, u: int, v: int, j: int, k: int, m: int)
    requires x == y + j * m && u == v + k * m
    ensures x * u == y * v + (j * u + y * k) * m
  {
    MulDistrib(y, j * m, u);
    assert y * u == y * v + y * (k * m);
    MulAssoc(y, k, m);
    MulAssoc(j, m, u);
    MulAssoc(j, u, m);
    MulDistrib(j * u, y * k, m);
  }

  /** A residue below the modulus is determined by its class. */
  lemma CongSmall(x: int, y: int, m: int)
    requires 0 <= x < m && Cong(x, y, m)
    ensures x == y % m
  {
    DivModUnique(x, m, 0, x);
  }

  lemma CongMod(x: int, m: int)
    requires 0 < m
    ensures Cong(x % m, x, m)
  {
    DivMod(x, m);
    DivModUnique(x % m, m, 0, x % m);
  }

  /** Modulo an odd number, two can be cancelled. */
  lemma CancelTwo(x: int, m: int)
    requires 0 < m && m % 2 == 1 && Cong(2 * x, 0, m)
    ensures Cong(x, 0, m)
  {
    var k := CongGap(2 * x, 0, m);
    var h := k / 2;
    MulAssoc(2, h, m);
    if k == 2 * h + 1 { MulDistrib(2 * h, 1, m); }
    CongFrom(x, 0, h, m);
  }

  lemma {:induction false} CancelPow2(x: int, e: nat, m: int)
    requires 0 < m && m % 2 == 1 && Cong(x * Pow2(e), 0, m)
    ensures Cong(x, 0, m)
    decreases e
  {
    if e > 0 {
      MulAssoc(x, 2, Pow2(e - 1));
      CancelPow2(2 * x, e - 1, m);
      CancelTwo(x, m);
    }
  }
}
