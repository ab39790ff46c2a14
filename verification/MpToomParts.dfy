/** The arithmetic of the Toom-Cook three-way multiplier: the parts of an operand,
    the points it is evaluated at, and the coefficients of the product. */
module MpToomParts {
  import opened Arith
  import opened MpDigits
  import opened MpSize
  import opened MpDiv

  /** x = lo + mid * BASE^B + hi * BASE^2B, all three with the sign of x. */
  datatype Parts = Parts(lo: int, mid: int, hi: int)

  function WithSignOf(x: int, m: int): int { if x < 0 then -m else m }

  function Split3(x: int, cut: nat): Parts {
    var v, p := Abs(x), Power(cut);
    Parts(WithSignOf(x, v % p), WithSignOf(x, v / p % p), WithSignOf(x, v / Power(2 * cut)))
  }

  function AtHalf(t: Parts): int { 4 * t.lo + 2 * t.mid + t.hi }
  function AtTwo(t: Parts): int { t.lo + 2 * t.mid + 4 * t.hi }
  function AtOne(t: Parts): int { t.lo + t.mid + t.hi }

  /** The cut mp_toom_mul chooses. */
  function Cut(x: int, y: int): nat { Min(NumDigits(Abs(x)), NumDigits(Abs(y))) / 3 }

  /** The parts of a magnitude. */
  lemma {:induction false} SplitMagnitude(v: nat, cut: nat)
    ensures var p := Power(cut);
      && 0 <= v % p < p && 0 <= v / p % p < p && 0 <= v / Power(2 * cut)
      && v == v % p + v / p % p * p + v / Power(2 * cut) * (p * p)
  {
    var p := Power(cut);
    PowerAdd(cut, cut);
    DivMod(v, p);
    QuotientMonotone(0, v, p);
    var q := v / p;
    DivMod(q, p);
    QuotientMonotone(0, q, p);
    DivDiv(v, p, p);
    MulDistrib(q / p * p, q % p, p);
    MulAssoc(q / p, p, p);
  }

  /** An operand is the sum of its weighted parts. */
  lemma {:induction false} SplitSum(x: int, cut: nat)
    ensures var t, p := Split3(x, cut), Power(cut); x == t.lo + t.mid * p + t.hi * (p * p)
  {
    hide Power;
    SplitMagnitude(Abs(x), cut);
    var v, p := Abs(x), Power(cut);
    assert (-(v / p % p)) * p == -(v / p % p * p);
    assert (-(v / Power(2 * cut))) * (p * p) == -(v / Power(2 * cut) * (p * p));
  }

  /** The digits that values of the recursion can have when the operand has n. */
  function ThirdOf(n: nat): nat { n - 2 * (n / 3) + 1 }

  /** Every value the recursion works on has a third of the digits of the operand. */
  lemma {:induction false} PartsShrink(x: int, n: nat)
    requires n == NumDigits(Abs(x)) && n >= 6
    ensures var t, m := Split3(x, n / 3), ThirdOf(n);
      && NumDigits(Abs(t.lo)) <= m && NumDigits(Abs(t.hi)) <= m
      && NumDigits(Abs(AtHalf(t))) <= m && NumDigits(Abs(AtTwo(t))) <= m && NumDigits(Abs(AtOne(t))) <= m
  {
    hide Pow2, NumDigits;
    var cut, v := n / 3, Abs(x);
    var m := n - 2 * cut;
    var p, q := Power(cut), Power(m);
    var t := Split3(x, cut);
    SplitMagnitude(v, cut);
    TopThird(v, n, cut);
    PowerMonotone(cut, m);
    BaseIsLarge();
    MulMonotone(7, BASE, q);
    var lo, mid, hi := v % p, v / p % p, v / Power(2 * cut);
    NumDigitsBelow(lo, m + 1);
    NumDigitsBelow(hi, m + 1);
    NumDigitsBelow(4 * lo + 2 * mid + hi, m + 1);
    NumDigitsBelow(lo + 2 * mid + 4 * hi, m + 1);
    NumDigitsBelow(lo + mid + hi, m + 1);
  }

  lemma {:induction false} TopThird(v: nat, n: nat, cut: nat)
    requires n == NumDigits(v) && 2 * cut <= n
    ensures 0 <= v / Power(2 * cut) < Power(n - 2 * cut)
  {
    NumDigitsBelow(v, n);
    PowerAdd(n - 2 * cut, 2 * cut);
    QuotientBetween(v, Power(2 * cut), 0, Power(n - 2 * cut));
  }

  // ------------------------------------------------------------ coefficients

  /** The coefficients of the product of two operands, by power of BASE^B. */
  function R0(s: Parts, t: Parts): int { s.lo * t.lo }
  function R1(s: Parts, t: Parts): int { s.lo * t.mid + s.mid * t.lo }
  function R2(s: Parts, t: Parts): int { s.lo * t.hi + s.mid * t.mid + s.hi * t.lo }
  function R3(s: Parts, t: Parts): int { s.mid * t.hi + s.hi * t.mid }
  function R4(s: Parts, t: Parts): int { s.hi * t.hi }

  lemma MulSum3(a: int, b: int, c: int, d: int)
    ensures (a + b + c) * d == a * d + b * d + c * d
  {
    MulDistrib(a + b, c, d);
    MulDistrib(a, b, d);
  }

  /** A product of two three-term sums. */
  lemma Expand(a: int, b: int, c: int, d: int, e: int, f: int)
    ensures (a + b + c) * (d + e + f)
      == a * d + (a * e + b * d) + (a * f + b * e + c * d) + (b * f + c * e) + c * f
  {
    MulSum3(a, b, c, d + e + f);
    MulSum3(d, e, f, a);
    MulSum3(d, e, f, b);
    MulSum3(d, e, f, c);
  }

  /** Both operands evaluated with weights i, j, k in geometric progression. */
  lemma AtPoint(s: Parts, t: Parts, i: int, j: int, k: int)
    requires i * k == j * j
    ensures (s.lo * i + s.mid * j + s.hi * k) * (t.lo * i + t.mid * j + t.hi * k)
      == R0(s, t) * (i * i) + R1(s, t) * (i * j) + R2(s, t) * (j * j) + R3(s, t) * (j * k) + R4(s, t) * (k * k)
  {
    Expand(s.lo * i, s.mid * j, s.hi * k, t.lo * i, t.mid * j, t.hi * k);
    Regroup2(s.lo, i, t.lo, i);
    Regroup2(s.lo, i, t.mid, j);
    Regroup2(s.mid, j, t.lo, i);
    Regroup2(s.lo, i, t.hi, k);
    Regroup2(s.mid, j, t.mid, j);
    Regroup2(s.hi, k, t.lo, i);
    Regroup2(s.mid, j, t.hi, k);
    Regroup2(s.hi, k, t.mid, j);
    Regroup2(s.hi, k, t.hi, k);
    MulDistrib(s.lo * t.mid, s.mid * t.lo, i * j);
    MulSum3(s.lo * t.hi, s.mid * t.mid, s.hi * t.lo, j * j);
    MulDistrib(s.mid * t.hi, s.hi * t.mid, j * k);
  }

  /** The values at the evaluation points in terms of the coefficients. */
  lemma AtPoints(s: Parts, t: Parts)
    ensures AtHalf(s) * AtHalf(t) == 16 * R0(s, t) + 8 * R1(s, t) + 4 * R2(s, t) + 2 * R3(s, t) + R4(s, t)
    ensures AtTwo(s) * AtTwo(t) == R0(s, t) + 2 * R1(s, t) + 4 * R2(s, t) + 8 * R3(s, t) + 16 * R4(s, t)
    ensures AtOne(s) * AtOne(t) == R0(s, t) + R1(s, t) + R2(s, t) + R3(s, t) + R4(s, t)
  {
    AtPoint(s, t, 4, 2, 1);
    AtPoint(s, t, 1, 2, 4);
    AtPoint(s, t, 1, 1, 1);
  }

  /** The product is the sum of the weighted coefficients. */
  lemma ProductOfParts(s: Parts, t: Parts, p: int, x: int, y: int)
    requires x == s.lo + s.mid * p + s.hi * (p * p) && y == t.lo + t.mid * p + t.hi * (p * p)
    ensures x * y == R0(s, t) + R1(s, t) * p + R2(s, t) * (p * p) + R3(s, t) * (p * p * p) + R4(s, t) * (p * p * p * p)
  {
    AtPoint(s, t, 1, p, p * p);
    MulAssoc(p * p, p, p);
  }

  lemma Regroup2(a: int, p: int, b: int, q: int)
    ensures (a * p) * (b * q) == a * b * (p * q) && p * q == q * p
  {
    MulAssoc(a, p, b * q);
    MulAssoc(p, b, q);
    MulAssoc(b, p, q);
    MulAssoc(a, b, p * q);
  }

  // ------------------------------------------------- when the result is exact

  const TOOM_MUL_CUTOFF: nat := 350

  ghost predicate SameSign(x: int, y: int) { (x < 0) == (y < 0) }

  function Size(x: int, y: int): nat { Min(NumDigits(Abs(x)), NumDigits(Abs(y))) }

  /** Below the cutoff, or with operands of one sign, nothing can go wrong. */
  ghost predicate Plain(x: int, y: int) {
    Size(x, y) < TOOM_MUL_CUTOFF || SameSign(x, y)
  }

  /** A coefficient that is zero is shifted up as a row of zero digits. Added to
      a shorter number of the other sign it is taken for the larger one. */
  ghost predicate Misjudged(r: int, zero: int, cut: nat) {
    zero == 0 && r != 0 && NumDigits(Abs(r)) < cut
  }

  ghost predicate Slips(x: int, y: int) {
    var s, t, cut := Split3(x, Cut(x, y)), Split3(y, Cut(x, y)), Cut(x, y);
    Misjudged(R0(s, t), R1(s, t), cut) || Misjudged(R2(s, t), R3(s, t), cut)
  }

  /** The five products of the parts are computed exactly. */
  ghost predicate PartsAgree(x: int, y: int)
    requires !Plain(x, y)
    decreases Size(x, y), 0
  {
    var s, t := Split3(x, Cut(x, y)), Split3(y, Cut(x, y));
    PartsAreSmaller(x, y);
    && Agrees(s.lo, t.lo) && Agrees(s.hi, t.hi)
    && Agrees(AtHalf(s), AtHalf(t)) && Agrees(AtTwo(s), AtTwo(t)) && Agrees(AtOne(s), AtOne(t))
  }

  /** mp_mul returns the exact product of x and y. */
  ghost predicate Agrees(x: int, y: int)
    decreases Size(x, y), 1
  {
    Plain(x, y) || (PartsAgree(x, y) && !Slips(x, y))
  }

  lemma {:induction false} PartsAreSmaller(x: int, y: int)
    requires Size(x, y) >= 6
    ensures var s, t, m := Split3(x, Cut(x, y)), Split3(y, Cut(x, y)), ThirdOf(Size(x, y));
      && m < Size(x, y) && Size(s.lo, t.lo) <= m && Size(s.hi, t.hi) <= m
      && Size(AtHalf(s), AtHalf(t)) <= m && Size(AtTwo(s), AtTwo(t)) <= m && Size(AtOne(s), AtOne(t)) <= m
  {
    var n := Size(x, y);
    var s, t, m := Split3(x, n / 3), Split3(y, n / 3), ThirdOf(n);
    if NumDigits(Abs(x)) == n { PartsShrink(x, n); } else { PartsShrink(y, n); }
    SizeBelow(s.lo, t.lo, m);
    SizeBelow(s.hi, t.hi, m);
    SizeBelow(AtHalf(s), AtHalf(t), m);
    SizeBelow(AtTwo(s), AtTwo(t), m);
    SizeBelow(AtOne(s), AtOne(t), m);
  }

  lemma {:induction false} SizeBelow(x: int, y: int, m: nat)
    requires NumDigits(Abs(x)) <= m || NumDigits(Abs(y)) <= m
    ensures Size(x, y) <= m
  {
  }

  /** Operands of one sign have parts of one sign. */
  lemma {:induction false} PartsKeepSign(x: int, y: int, cut: nat)
    requires SameSign(x, y)
    ensures AllAgree(Split3(x, cut), Split3(y, cut))
  {
    SplitMagnitude(Abs(x), cut);
    SplitMagnitude(Abs(y), cut);
  }

  /** The five products of the parts, as one condition. */
  ghost predicate AllAgree(s: Parts, t: Parts) {
    && Agrees(s.lo, t.lo) && Agrees(s.hi, t.hi)
    && Agrees(AtHalf(s), AtHalf(t)) && Agrees(AtTwo(s), AtTwo(t)) && Agrees(AtOne(s), AtOne(t))
  }
}
