/** Barrett reduction: the quotient comes from the high part of a product with a
    precomputed reciprocal, the remainder from low parts only. */
module MpBarrett {
  import opened Arith
  import opened Modular
  import opened MpDigits
  import opened MpInts
  import opened MpSize
  import opened MpShift
  import opened MpDiv
  import opened MpColumns
  import opened MpMulDigs
  import opened MpHigh
  import opened MpMul
  import opened MpMontgomery

  // ----------------------------------------------------------- the arithmetic

  /** Writing p = BASE^(k-1) and r = BASE^(k+1): the estimate never exceeds the quotient. */
  lemma NotTooLarge(x: nat, m: nat, mu: nat, q1: nat, q3: nat, p: nat, r: nat)
    requires q1 * p <= x && mu * m <= p * r && q3 * r <= q1 * mu && 0 < p && 0 < r
    ensures q3 * m <= x
  {
    assert q1 * mu * m * p <= x * r * p by {
      MulMonotone(q1 * p, x, mu * m);
      MulMonotone(mu * m, p * r, x);
      Shuffle(q1, mu, m, p);
      MulAssoc(x, p, r);
      MulAssoc(x, r, p);
    }
    assert q1 * mu * m <= x * r by {
      if q1 * mu * m > x * r { MulMonotone(x * r + 1, q1 * mu * m, p); MulDistrib(x * r, 1, p); }
    }
    MulMonotone(q3 * r, q1 * mu, m);
    assert q3 * r * m == q3 * m * r by { MulAssoc(q3, r, m); MulAssoc(q3, m, r); }
    if q3 * m > x { MulMonotone(x + 1, q3 * m, r); MulDistrib(x, 1, r); }
  }

  lemma Shuffle(q1: int, mu: int, m: int, p: int)
    ensures q1 * mu * m * p == q1 * p * (mu * m)
  {
    MulAssoc(q1, mu, m);
    MulAssoc(q1, mu * m, p);
    MulAssoc(q1, p, mu * m);
  }

  lemma ScaledBound(x: nat, m: nat, u: nat, v: nat, p: nat, r: nat)
    requires x < u * p && p * r < v * m && 0 < p && 0 < r
    ensures x * r < u * v * m
  {
    var pr, up := p * r, u * p;
    MulPositive(p, r);
    assert x * pr < up * pr by { MulMonotone(x + 1, up, pr); MulDistrib(x, 1, pr); }
    assert up * pr <= up * (v * m) by { MulMonotone(pr, v * m, up); }
    assert x * r * p == x * pr by { MulAssoc(x, r, p); }
    assert u * v * m * p == up * (v * m) by { Shuffle(u, v, m, p); }
    MulCancelLess(x * r, u * v * m, p);
  }

  lemma SumBound(q1: nat, mu: nat, t: nat, r: nat)
    requires q1 * mu < t * r && q1 < r && mu <= r
    ensures (q1 + 1) * (mu + 1) <= (t + 2) * r
  {
    assert (q1 + 1) * (mu + 1) == q1 * mu + q1 + mu + 1;
    MulDistrib(t, 2, r);
  }

  lemma CancelWeight(x: nat, s: nat, t: nat, m: nat, r: nat)
    requires x * r < s * m && s <= t * r && 0 < r
    ensures x < t * m
  {
    MulMonotone(s, t * r, m);
    MulAssoc(t, r, m);
    MulAssoc(t, m, r);
    MulCancelLess(x, t * m, r);
  }

  /** It falls short by at most e + 2, if the product lost less than e of its units. */
  lemma NotTooSmall(x: nat, m: nat, mu: nat, q1: nat, q3: nat, p: nat, r: nat, e: nat)
    requires x < (q1 + 1) * p && p * r < (mu + 1) * m && q1 * mu < (q3 + e) * r && 0 < p && 0 < r
    requires q1 < r && mu <= r
    ensures x < (q3 + e + 2) * m
  {
    ScaledBound(x, m, q1 + 1, mu + 1, p, r);
    SumBound(q1, mu, q3 + e, r);
    MulNonneg(q1 + 1, mu + 1);
    CancelWeight(x, (q1 + 1) * (mu + 1), q3 + e + 2, m, r);
  }

  /** The quotient estimate from the high part of the product: at most k + 2 too small. */
  lemma {:induction false} Estimate(x: nat, m: nat, mu: nat, k: nat, q1: nat, low: nat, h: nat, q3: nat)
    requires k >= 1 && Power(k - 1) <= m < Power(k) && x < m * m && mu == Power(2 * k) / m
    requires q1 == x / Power(k - 1) && q1 * mu == low + h * Power(k) && q3 == h / BASE
    requires low <= k * ((BASE - 1) * Power(k))
    ensures q3 * m <= x < (q3 + k + 3) * m
  {
    var p, r := Power(k - 1), Power(k + 1);
    Reciprocal(m, mu, k);
    FirstQuotient(x, m, k, q1);
    HighQuotient(q1 * mu, low, h, q3, k);
    NotTooLarge(x, m, mu, q1, q3, p, r);
    NotTooSmall(x, m, mu, q1, q3, p, r, k + 1);
  }

  lemma {:induction false} Reciprocal(m: nat, mu: nat, k: nat)
    requires k >= 1 && Power(k - 1) <= m < Power(k) && mu == Power(2 * k) / m
    ensures mu * m <= Power(k - 1) * Power(k + 1) < (mu + 1) * m && Power(k) <= mu <= Power(k + 1)
  {
    var p, r, s := Power(k - 1), Power(k + 1), Power(2 * k);
    assert s == p * r by { PowerAdd(k - 1, k + 1); }
    DivBounds(s, m);
    MulDistrib(mu, 1, m);
    assert mu <= r by {
      MulMonotone(p, m, r);
      QuotientMonotone(s, m * r, m);
      DivModUnique(m * r, m, r, 0);
    }
    assert Power(k) <= mu by {
      PowerAdd(k, k);
      MulMonotone(m, Power(k), Power(k));
      QuotientMonotone(Power(k) * m, s, m);
      DivModUnique(Power(k) * m, m, Power(k), 0);
    }
  }

  lemma {:induction false} FirstQuotient(x: nat, m: nat, k: nat, q1: nat)
    requires k >= 1 && m < Power(k) && x < m * m && q1 == x / Power(k - 1)
    ensures q1 * Power(k - 1) <= x < (q1 + 1) * Power(k - 1) && q1 < Power(k + 1)
  {
    var p, r := Power(k - 1), Power(k + 1);
    DivBounds(x, p);
    MulDistrib(q1, 1, p);
    assert x < r * p by {
      MulMonotone(m, Power(k), m);
      MulMonotone(m, Power(k), Power(k));
      PowerAdd(k, k);
      PowerAdd(k - 1, k + 1);
    }
    MulCancelLess(q1, r, p);
  }

  lemma {:induction false} HighQuotient(q2: nat, low: nat, h: nat, q3: nat, k: nat)
    requires k >= 1 && q2 == low + h * Power(k) && q3 == h / BASE && low <= k * ((BASE - 1) * Power(k))
    ensures q3 * Power(k + 1) <= q2 < (q3 + (k + 1)) * Power(k + 1)
  {
    hide Pow2;
    var p, r := Power(k), Power(k + 1);
    BaseIsLarge();
    DivBounds(h, BASE);
    MulAssoc(q3, BASE, p);
    MulMonotone(q3 * BASE, h, p);
    assert h * p < q3 * r + r by {
      MulMonotone(h + 1, q3 * BASE + BASE, p);
      MulDistrib(q3 * BASE, BASE, p);
      MulDistrib(h, 1, p);
    }
    assert low <= k * r by {
      MulDistrib(BASE - 1, 1, p);
      MulMonotone((BASE - 1) * p, r, k);
    }
    MulDistrib(q3, k + 1, r);
    MulDistrib(k, 1, r);
  }

  /** With the whole product it is at most two too small. */
  lemma {:induction false} EstimateFull(x: nat, m: nat, mu: nat, k: nat, q1: nat, q3: nat)
    requires k >= 1 && Power(k - 1) <= m < Power(k) && x < m * m && mu == Power(2 * k) / m
    requires q1 == x / Power(k - 1) && q3 == q1 * mu / Power(k + 1)
    ensures q3 * m <= x < (q3 + 3) * m
  {
    var p, r := Power(k - 1), Power(k + 1);
    Reciprocal(m, mu, k);
    FirstQuotient(x, m, k, q1);
    MulNonneg(q1, mu);
    DivBounds(q1 * mu, r);
    MulDistrib(q3, 1, r);
    NotTooLarge(x, m, mu, q1, q3, p, r);
    NotTooSmall(x, m, mu, q1, q3, p, r, 1);
  }

  // --------------------------------------------------------------- the method

  /** mp_reduce_setup: mu = BASE^(2k) / b */
  method ReduceSetup(a: MpInt, b: MpInt) returns (ok: bool)
    requires a.Valid() && b.Trim() && a != b && b.V() >= 0
    modifies a
    ensures ok == (b.V() != 0)
    ensures ok ==> a.Trim() && a.V() == Power(2 * b.used) / b.V()
  {
    SetupBits(b.used);
    TwoExpt(a, b.used * 2 * DIGIT_BIT);
    ok := Div(a, b, a, null);
  }

  lemma {:induction false} SetupBits(u: nat)
    ensures u * 2 * DIGIT_BIT >= 0 && Pow2(u * 2 * DIGIT_BIT) == Power(2 * u)
  {
    MulNonneg(u * 2, DIGIT_BIT);
    PowerIsPow2(2 * u);
  }

  /** m is the modulus with k digits and mu its reciprocal. */
  ghost predicate Barrett(m: MpInt, mu: MpInt)
    reads m, mu
  {
    && m.Trim() && mu.Trim() && m.sign == ZPOS && mu.sign == ZPOS && m.used > 0
    && m.Mag() > 0 && mu.V() == Power(2 * m.used) / m.Mag()
  }

  lemma {:induction false} ModulusRange(m: MpInt)
    requires m.Trim() && m.used > 0
    ensures Power(m.used - 1) <= m.Mag() < Power(m.used) && m.Mag() > 0
  {
    ValueTop(m.dp[..m.used]);
    ValueBound(m.dp[..m.used]);
  }

  lemma {:induction false} ReciprocalSize(m: MpInt, mu: MpInt)
    requires Barrett(m, mu)
    ensures mu.used > m.used
  {
    ModulusRange(m);
    Reciprocal(m.Mag(), mu.Mag(), m.used);
    UsedIsNumDigits(mu);
    NumDigitsBelow(mu.Mag(), m.used);
  }

  /** The digits of the first quotient. */
  lemma {:induction false} FirstQuotientSize(q: MpInt, x: nat, m: MpInt)
    requires q.Trim() && m.Trim() && m.used > 0 && x < m.Mag() * m.Mag() && q.Mag() == x / Power(m.used - 1)
    ensures q.used <= m.used + 1
  {
    ModulusRange(m);
    FirstQuotient(x, m.Mag(), m.used, q.Mag());
    UsedBound(q, m.used + 1);
  }

  /** The estimate q3 is within BASE of the quotient, so the rest fits k + 1 digits. */
  ghost predicate CloseQuotient(q: int, x: nat, m: nat) {
    q * m <= x < (q + BASE) * m
  }

  /** q = q1 * mu by mp_mul */
  method FullProduct(q: MpInt, m: MpInt, mu: MpInt, ghost x: nat)
    requires Barrett(m, mu) && q.Trim() && q.sign == ZPOS && q != m && q != mu
    requires x < m.Mag() * m.Mag() && q.Mag() == x / Power(m.used - 1)
    modifies q
    ensures q.Trim() && q.sign == ZPOS && CloseQuotient(q.Mag() / Power(m.used + 1), x, m.Mag())
  {
    FullEstimate(q.Mag(), x, m, mu);
    MulNatural(q, mu, q, q.Mag(), mu.Mag());
  }

  lemma {:induction false} FullEstimate(q1: nat, x: nat, m: MpInt, mu: MpInt)
    requires Barrett(m, mu) && x < m.Mag() * m.Mag() && q1 == x / Power(m.used - 1)
    ensures CloseQuotient(q1 * mu.Mag() / Power(m.used + 1), x, m.Mag())
  {
    var k, q3 := m.used, q1 * mu.Mag() / Power(m.used + 1);
    ModulusRange(m);
    BaseIsLarge();
    MulNonneg(q1, mu.Mag());
    QuotientMonotone(0, q1 * mu.Mag(), Power(k + 1));
    EstimateFull(x, m.Mag(), mu.Mag(), k, q1, q3);
    FewUnits(q3, 3, m.Mag());
  }

  /** q = q1 * mu without its lowest k columns */
  method HighProduct(q: MpInt, m: MpInt, mu: MpInt, ghost x: nat)
    requires Barrett(m, mu) && q.Trim() && q.sign == ZPOS && q.ClearAbove() && q != m && q != mu
    requires x < m.Mag() * m.Mag() && q.Mag() == x / Power(m.used - 1) && m.used <= Pow2(DIGIT_BIT - 1)
    modifies q
    ensures q.Trim() && q.sign == ZPOS && CloseQuotient(q.Mag() / Power(m.used + 1), x, m.Mag())
  {
    ghost var k, a, b := m.used, q.dp[..q.used], mu.dp[..mu.used];
    FirstQuotientSize(q, x, m);
    ReciprocalSize(m, mu);
    HighEstimate(a, b, k, x, m, mu);
    SMulHighDigs(q, mu, q, m.used);
    DivDiv(q.Mag(), Power(k), BASE);
    assert Power(k) * BASE == Power(k + 1);
  }

  lemma {:induction false} HighEstimate(a: seq<nat>, b: seq<nat>, k: nat, x: nat, m: MpInt, mu: MpInt)
    requires Barrett(m, mu) && k == m.used <= Pow2(DIGIT_BIT - 1) && x < m.Mag() * m.Mag()
    requires Digits(a) && Value(a) == x / Power(k - 1) && b == mu.dp[..mu.used]
    ensures CloseQuotient(HighPart(a, b, k) / BASE, x, m.Mag())
  {
    hide Pow2;
    var h := HighPart(a, b, k);
    ModulusRange(m);
    ColumnsBound(a, b, k);
    BaseIsLarge();
    QuotientMonotone(0, h, BASE);
    Estimate(x, m.Mag(), mu.Mag(), k, Value(a), Columns(a, b, k), h, h / BASE);
    HalfBase(k);
    FewUnits(h / BASE, k + 3, m.Mag());
  }

  /** q3 = q1 * mu / BASE^(k+1) */
  method MultiplyOut(q: MpInt, m: MpInt, mu: MpInt, ghost x: nat)
    requires Barrett(m, mu) && q.Trim() && q.sign == ZPOS && q.ClearAbove() && q != m && q != mu
    requires x < m.Mag() * m.Mag() && q.Mag() == x / Power(m.used - 1)
    modifies q
    ensures q.Trim() && q.sign == ZPOS && CloseQuotient(q.Mag(), x, m.Mag())
    ensures q.used > 0 ==> m.used + 1 < |q.dp|
  {
    if m.used > Pow2(DIGIT_BIT - 1) {
      FullProduct(q, m, mu, x);
    } else {
      HighProduct(q, m, mu, x);
    }
    Rshd(q, m.used + 1);
    TrimmedNegative(q);
  }

  lemma FewUnits(q: int, e: nat, m: nat)
    requires e <= BASE
    ensures (q + e) * m <= (q + BASE) * m
  {
    MulMonotone(q + e, q + BASE, m);
  }

  lemma {:induction false} HalfBase(k: nat)
    requires k <= Pow2(DIGIT_BIT - 1)
    ensures k + 3 <= BASE
  {
    BaseIsLarge();
    assert BASE == 2 * Pow2(DIGIT_BIT - 1);
  }

  /** x - q * m from the low k + 1 digits alone. */
  lemma {:induction false} LowDifference(x: nat, q: nat, m: nat, k: nat, s: int)
    requires CloseQuotient(q, x, m) && m < Power(k) && s == x % Power(k + 1) - LowProduct(q, m, k + 1)
    ensures 0 <= x - q * m < Power(k + 1)
    ensures x - q * m == if s < 0 then s + Power(k + 1) else s
  {
    var r, z := Power(k + 1), x - q * m;
    MulDistrib(q, BASE, m);
    BaseIsLarge();
    MulMonotone(m + 1, Power(k), BASE);
    MulDistrib(m, 1, BASE);
    CongMod(x, r);
    CongMod(q * m, r);
    CongAdd(x % r, x, q * m % r, q * m, r);
    DivMod(x, r);
    CongFrom(s + r, s, 1, r);
    CongSmall(z, if s < 0 then s + r else s, r);
    var t := if s < 0 then s + r else s;
    DivModUnique(t, r, 0, t);
  }

  /** x = x mod BASE^(k+1) - q * m mod BASE^(k+1), brought back above zero. */
  method Remainder(x: MpInt, q: MpInt, m: MpInt, ghost x0: nat)
    requires x.Trim() && x.sign == ZPOS && x.Mag() == x0 && q.Trim() && q.sign == ZPOS && m.Trim()
    requires m.sign == ZPOS && m.used > 0
    requires x != q && x != m && q != m && CloseQuotient(q.Mag(), x0, m.Mag()) && (q.used > 0 ==> m.used + 1 < |q.dp|)
    modifies x, q
    ensures x.Trim() && x.V() == x0 - old(q.Mag()) * m.Mag() && x.V() >= 0
  {
    hide Pow2, Power, Value;
    var um := m.used;
    ModulusRange(m);
    LowDifference(x0, q.Mag(), m.Mag(), um, x0 % Power(um + 1) - LowProduct(q.Mag(), m.Mag(), um + 1));
    CutBits(um + 1);
    Mod2d(x, DIGIT_BIT * (um + 1), x);
    SMulDigs(q, m, q, um + 1);
    TrimmedNegative(x);
    TrimmedNegative(q);
    Minus(x, q, x);
    var o := CmpD(x, 0);
    if o == LT { AddPower(x, q, um + 1); }
  }

  /** x = x + BASE^n */
  method AddPower(x: MpInt, q: MpInt, n: nat)
    requires x.Trim() && q.Valid() && x != q
    modifies x, q
    ensures x.Trim() && x.V() == old(x.V()) + Power(n)
  {
    BaseIsLarge();
    Set(q, 1);
    DivModUnique(1, BASE, 0, 1);
    TrimmedNegative(q);
    Lshd(q, n);
    Plus(x, q, x);
  }

  /** mp_reduce: x = x mod m, for 0 <= x < m^2. */
  method Reduce(x: MpInt, m: MpInt, mu: MpInt)
    requires Barrett(m, mu) && x.Trim() && x.sign == ZPOS && x != m && x != mu && x.Mag() < m.Mag() * m.Mag()
    modifies x
    ensures x.Trim() && x.V() == old(x.V()) % m.V()
  {
    ghost var x0, n := x.Mag(), m.Mag();
    var q := InitCopy(x);
    Rshd(q, m.used - 1);
    TrimmedNegative(q);
    MultiplyOut(q, m, mu, x0);
    ghost var qv := q.Mag();
    Remainder(x, q, m, x0);
    BackOff(x, m, x0, qv);
  }

  /** While x >= m, x = x - m. */
  method BackOff(x: MpInt, m: MpInt, ghost x0: nat, ghost q0: nat)
    requires x.Trim() && m.Trim() && x != m && m.V() > 0 && x.V() >= 0 && x.V() == x0 - q0 * m.V()
    modifies x
    ensures x.Trim() && x.V() == x0 % m.V()
  {
    hide Pow2, Power, Value;
    ghost var q, n := q0, m.V();
    var o := Cmp(x, m);
    while o != LT
      invariant x.Trim() && x.V() >= 0 && x.V() == x0 - q * n && o == Compare(x.V(), n)
      decreases x.V()
    {
      PositiveDifference(x, m);
      NextMultiple(q, n);
      q := q + 1;
      o := Cmp(x, m);
    }
    DivModUnique(x0, n, q, x.V());
  }
}
