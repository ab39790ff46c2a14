/** mp_mul and the two recursive multipliers it dispatches to. */
module MpMul {
  import opened Arith
  import opened MpDigits
  import opened MpInts
  import opened MpSize
  import opened MpAddSub
  import opened MpScale
  import opened MpShift
  import opened MpDivDigit
  import opened MpMulDigs
  import opened MpToomParts
  import opened MpDiv

  const KARATSUBA_MUL_CUTOFF: nat := 80

  // ---------------------------------------------------------------- baseline

  /** The branch of mp_mul below both cutoffs. */
  method MulBaseline(a: MpInt, b: MpInt, c: MpInt)
    requires a.Valid() && b.Valid() && c.Valid()
    modifies c
    ensures c.Trim() && c.Mag() == old(a.Mag()) * old(b.Mag())
    ensures old(a.used) + old(b.used) + 1 >= MP_WARRAY ==> c.ClearAbove()
    ensures old(c.ClearAbove()) ==> ClearBut(c, old(a.used) + old(b.used))
  {
    var digs := a.used + b.used + 1;
    LowProductExact(a.dp[..a.used], b.dp[..b.used], digs);
    if digs < MP_WARRAY && Min(a.used, b.used) <= WORD_TERMS {
      FastMulDigs(a, b, c, digs);
    } else {
      SMulDigs(a, b, c, digs);
    }
  }

  // --------------------------------------------------------------- karatsuba

  /** A positive number made of given digits. */
  method FromDigits(d: seq<nat>) returns (x: MpInt)
    requires Digits(d)
    ensures fresh(x) && x.Valid() && x.sign == ZPOS && x.used == |d| && x.dp[..x.used] == d
  {
    x := new MpInt.InitSize(|d|);
    x.dp := CopyDigits(d, |d|, x.dp, 0);
    x.used := |d|;
  }

  /** A trimmed number that is not negative. */
  ghost predicate Natural(a: MpInt)
    reads a
  {
    a.Trim() && a.V() >= 0
  }

  /** Low and high digits of a number, cut at digit `cut`. */
  method Halves(a: MpInt, cut: nat) returns (lo: MpInt, hi: MpInt)
    requires a.Trim() && cut < a.used
    ensures fresh(lo) && fresh(hi) && lo != hi
    ensures Natural(lo) && lo.V() == a.Mag() % Power(cut)
    ensures Natural(hi) && hi.V() == a.Mag() / Power(cut)
  {
    var d := a.dp[..a.used];
    HalvesValue(d, cut);
    lo := FromDigits(d[..cut]);
    hi := FromDigits(d[cut..]);
    assert hi.dp[hi.used - 1] == d[cut..][hi.used - 1];
    Clamp(lo);
  }

  lemma {:induction false} HalvesValue(d: seq<nat>, cut: nat)
    requires Digits(d) && cut <= |d|
    ensures Value(d) % Power(cut) == Value(d[..cut]) && Value(d) / Power(cut) == Value(d[cut..])
  {
    ValueSplit(d, cut);
    ValueBound(d[..cut]);
    DivModUnique(Value(d), Power(cut), Value(d[cut..]), Value(d[..cut]));
  }

  /** All that Karatsuba multiplies has fewer digits than the shorter operand. */
  lemma {:induction false} HalvesShrink(v: nat, n: nat, cut: nat)
    requires NumDigits(v) == n && cut == n / 2 && n >= 6
    ensures var lo, hi := v % Power(cut), v / Power(cut);
      0 <= lo && 0 <= hi && NumDigits(lo) < n && NumDigits(hi) < n && NumDigits(lo + hi) < n
  {
    var m, p := n - cut, Power(cut);
    DivMod(v, p);
    NumDigitsBelow(v, n);
    PowerAdd(m, cut);
    QuotientBetween(v, p, 0, Power(m));
    PowerMonotone(cut, m);
    BaseIsLarge();
    MulMonotone(2, BASE, Power(m));
    NumDigitsBelow(v % p, m + 1);
    NumDigitsBelow(v / p, m + 1);
    NumDigitsBelow(v % p + v / p, m + 1);
  }

  lemma {:induction false} HalvesAreSmaller(x: nat, y: nat, cut: nat)
    requires Size(x, y) >= 6 && cut == Size(x, y) / 2
    ensures var p, n := Power(cut), Size(x, y);
      && 0 <= x % p && 0 <= x / p && 0 <= y % p && 0 <= y / p
      && Size(x % p, y % p) < n && Size(x / p, y / p) < n && Size(x % p + x / p, y % p + y / p) < n
  {
    var p, n := Power(cut), Size(x, y);
    DivMod(x, p);
    DivMod(y, p);
    QuotientMonotone(0, x, p);
    QuotientMonotone(0, y, p);
    if NumDigits(x) == n { HalvesShrink(x, n, cut); } else { HalvesShrink(y, n, cut); }
    SizeBelow(x % p, y % p, n);
    SizeBelow(x / p, y / p, n);
    SizeBelow(x % p + x / p, y % p + y / p, n);
  }

  /** Three products make four. */
  lemma KaratsubaIdentity(x0: int, x1: int, y0: int, y1: int, p: int)
    ensures (x0 + x1) * (y0 + y1) - (x0 * y0 + x1 * y1) == x0 * y1 + x1 * y0
    ensures (x0 + x1 * p) * (y0 + y1 * p) == x0 * y0 + (x0 * y1 + x1 * y0) * p + x1 * y1 * (p * p)
  {
    MulDistrib(x0, x1, y0 + y1);
    MulDistrib(y0, y1, x0);
    MulDistrib(y0, y1, x1);
    AtPoint(Parts(x0, x1, 0), Parts(y0, y1, 0), 1, p, p * p);
  }

  // ------------------------------------------------------------ toom-cook

  /** mp_sub and mp_add of trimmed numbers. */
  method Minus(a: MpInt, b: MpInt, c: MpInt)
    requires a.Trim() && b.Trim() && c.Valid()
    modifies c
    ensures c.Trim() && c.V() == old(a.V()) - old(b.V())
  {
    TrimmedOrdered(a, b);
    Sub(a, b, c);
  }

  method Plus(a: MpInt, b: MpInt, c: MpInt)
    requires a.Trim() && b.Trim() && c.Valid()
    modifies c
    ensures c.Trim() && c.V() == old(a.V()) + old(b.V()) && (old(c.ClearAbove()) ==> c.ClearAbove())
  {
    hide Value, Pow2;
    TrimmedOrdered(a, b);
    Add(a, b, c);
  }

  /** The three parts of an operand. */
  method Thirds(a: MpInt, cut: nat) returns (lo: MpInt, mid: MpInt, hi: MpInt)
    requires a.Trim()
    ensures fresh(lo) && fresh(mid) && fresh(hi) && lo != mid && lo != hi && mid != hi
    ensures lo.Trim() && mid.Trim() && hi.Trim()
    ensures Parts(lo.V(), mid.V(), hi.V()) == Split3(a.V(), cut)
  {
    hide Value, Pow2;
    TrimmedNegative(a);
    CutBits(cut);
    lo := new MpInt.Init();
    Mod2d(a, DIGIT_BIT * cut, lo);
    mid := MiddleThird(a, cut);
    hi := InitCopy(a);
    Rshd(hi, cut * 2);
    TrimmedNegative(lo);
    TrimmedNegative(hi);
  }

  method MiddleThird(a: MpInt, cut: nat) returns (mid: MpInt)
    requires a.Trim()
    ensures fresh(mid) && mid.Trim() && mid.V() == Split3(a.V(), cut).mid
  {
    TrimmedNegative(a);
    CutBits(cut);
    mid := InitCopy(a);
    Rshd(mid, cut);
    Mod2d(mid, DIGIT_BIT * cut, mid);
    TrimmedNegative(mid);
  }

  lemma {:induction false} CutBits(cut: nat)
    ensures DIGIT_BIT * cut >= 0 && Count(DIGIT_BIT * cut) == DIGIT_BIT * cut && Pow2(DIGIT_BIT * cut) == Power(cut)
  {
    MulNonneg(DIGIT_BIT, cut);
    PowerIsPow2(cut);
  }

  /** 4 p + 2 q + r by doubling and adding. */
  method EvalHalf(p: MpInt, q: MpInt, r: MpInt) returns (t: MpInt)
    requires p.Trim() && q.Trim() && r.Trim()
    ensures fresh(t) && t.Trim() && t.V() == 4 * p.V() + 2 * q.V() + r.V()
  {
    t := new MpInt.Init();
    Mul2(p, t);
    Plus(t, q, t);
    Mul2(t, t);
    Plus(t, r, t);
  }

  method EvalOne(p: MpInt, q: MpInt, r: MpInt) returns (t: MpInt)
    requires p.Trim() && q.Trim() && r.Trim()
    ensures fresh(t) && t.Trim() && t.V() == p.V() + q.V() + r.V()
  {
    t := new MpInt.Init();
    Plus(r, q, t);
    Plus(t, p, t);
  }

  /** w = (w - v) / 2, exact if the difference is even. */
  method HalfDifference(w: MpInt, v: MpInt, ghost h: int)
    requires w.Trim() && v.Trim() && w != v
    modifies w
    ensures w.Trim() && (old(w.V()) - v.V() == 2 * h ==> w.V() == h)
  {
    Minus(w, v, w);
    Div2(w, w);
    TrimmedNegative(w);
  }

  /** w = (w - v) / 3, exact if the difference is divisible by three. */
  method ThirdDifference(w: MpInt, v: MpInt, ghost h: int)
    requires w.Trim() && v.Trim() && w != v
    modifies w
    ensures w.Trim() && (old(w.V()) - v.V() == 3 * h ==> w.V() == h)
  {
    Minus(w, v, w);
    var d := Div3(w, w);
    TrimmedNegative(w);
  }

  /** w = w - 8 v */
  method MinusEight(w: MpInt, v: MpInt)
    requires w.Trim() && v.Trim() && w != v
    modifies w
    ensures w.Trim() && w.V() == old(w.V()) - 8 * v.V()
  {
    var tmp := new MpInt.Init();
    Mul2d(v, 3, tmp);
    assert Pow2(3) == 8;
    Minus(w, tmp, w);
  }

  /** w = 3 w - u - v */
  method TripleMinus(w: MpInt, u: MpInt, v: MpInt)
    requires w.Trim() && u.Trim() && v.Trim() && w != u && w != v
    modifies w
    ensures w.Trim() && w.V() == 3 * old(w.V()) - u.V() - v.V()
  {
    BaseIsLarge();
    MulD(w, 3, w);
    Minus(w, u, w);
    Minus(w, v, w);
  }

  /** The values of a polynomial at the five points, for coefficients w0, r1, r2, r3, w4. */
  ghost predicate AreValues(w0: int, w1: int, w2: int, w3: int, w4: int, r1: int, r2: int, r3: int) {
    && w1 == 16 * w0 + 8 * r1 + 4 * r2 + 2 * r3 + w4
    && w3 == w0 + 2 * r1 + 4 * r2 + 8 * r3 + 16 * w4
    && w2 == w0 + r1 + r2 + r3 + w4
  }

  /** The interpolation: from the five values to the three inner coefficients. */
  method Interpolate(w0: MpInt, w1: MpInt, w2: MpInt, w3: MpInt, w4: MpInt, ghost r1: int, ghost r2: int, ghost r3: int)
    requires w0.Trim() && w1.Trim() && w2.Trim() && w3.Trim() && w4.Trim()
    requires w1 != w2 && w1 != w3 && w2 != w3 && w0 !in {w1, w2, w3} && w4 !in {w1, w2, w3}
    modifies w1, w2, w3
    ensures w1.Trim() && w2.Trim() && w3.Trim()
    ensures old(AreValues(w0.V(), w1.V(), w2.V(), w3.V(), w4.V(), r1, r2, r3)) ==>
      w1.V() == r1 && w2.V() == r2 && w3.V() == r3
  {
    hide Value, Pow2;
    Differences(w0, w1, w2, w3, w4, r1, r2, r3);
    MinusEight(w1, w0);
    MinusEight(w3, w4);
    TripleMinus(w2, w1, w3);
    ThirdDifference(w1, w2, r1);
    ThirdDifference(w3, w2, r3);
  }

  /** The first half: the outer coefficients and their sum go out. */
  method Differences(w0: MpInt, w1: MpInt, w2: MpInt, w3: MpInt, w4: MpInt, ghost r1: int, ghost r2: int, ghost r3: int)
    requires w0.Trim() && w1.Trim() && w2.Trim() && w3.Trim() && w4.Trim()
    requires w1 != w2 && w1 != w3 && w2 != w3 && w0 !in {w1, w2, w3} && w4 !in {w1, w2, w3}
    modifies w1, w2, w3
    ensures w1.Trim() && w2.Trim() && w3.Trim()
    ensures old(AreValues(w0.V(), w1.V(), w2.V(), w3.V(), w4.V(), r1, r2, r3)) ==>
      && w1.V() == 8 * w0.V() + 3 * r1 + r2 && w2.V() == r1 + r2 + r3
      && w3.V() == r2 + 3 * r3 + 8 * w4.V()
  {
    hide Value, Pow2;
    ghost var r0, r4 := w0.V(), w4.V();
    HalfDifference(w1, w4, 8 * r0 + 4 * r1 + 2 * r2 + r3);
    HalfDifference(w3, w0, r1 + 2 * r2 + 4 * r3 + 8 * r4);
    Minus(w2, w0, w2);
    Minus(w2, w4, w2);
    Minus(w1, w2, w1);
    Minus(w3, w2, w3);
  }

  /** a holds r shifted up by low digits, zero as a row of zero digits. */
  ghost predicate Row(a: MpInt, r: int, low: nat)
    reads a
  {
    && a.Valid() && a.Mag() == Abs(r) * Power(low) && a.used == NumDigits(Abs(r)) + low
    && (a.sign == NEG <==> r < 0) && (r != 0 ==> a.Trim())
  }

  method ShiftRow(w: MpInt, low: nat)
    requires w.Trim()
    modifies w
    ensures Row(w, old(w.V()), low)
  {
    TrimmedNegative(w);
    UsedIsNumDigits(w);
    Lshd(w, low);
  }

  lemma {:induction false} RowValue(a: MpInt, r: int, low: nat)
    requires Row(a, r, low)
    ensures a.V() == r * Power(low)
  {
    assert (-r) * Power(low) == -(r * Power(low));
  }

  /** Adding two coefficients of one sign. It goes wrong exactly when the higher
      one is zero and the lower one negative and below it. */
  method AddCoefficients(a: MpInt, b: MpInt, c: MpInt, ghost r: int, ghost low: nat, ghost z: int, ghost high: nat)
    requires Row(a, r, low) && Row(b, z, high) && low < high && c.Valid()
    modifies c
    ensures c.Trim() && (old(c.ClearAbove()) ==> c.ClearAbove())
    ensures (r >= 0 && z >= 0) || (r <= 0 && z <= 0) ==>
      c.V() == r * Power(low) + z * Power(high)
      + if r < 0 && z == 0 && NumDigits(Abs(r)) + low < high then Power(high) else 0
  {
    RowValue(a, r, low);
    RowValue(b, z, high);
    if (r >= 0 && z >= 0) || (r <= 0 && z <= 0) { RowsOrdered(a, b, r, low, z, high); }
    Add(a, b, c);
  }

  lemma {:induction false} RowsOrdered(a: MpInt, b: MpInt, r: int, low: nat, z: int, high: nat)
    requires Row(a, r, low) && Row(b, z, high) && low < high && ((r >= 0 && z >= 0) || (r <= 0 && z <= 0))
    ensures z != 0 || r == 0 ==> a.sign == b.sign || Ordered(a, b)
    ensures z == 0 && r != 0 ==> b.used == high && b.Mag() == 0 && a.Mag() > 0
    ensures a.sign != b.sign && z == 0 && r < 0 && a.used < high ==> Slip(a, b) == 0 - Power(high)
    ensures a.sign != b.sign && z == 0 && r < 0 && a.used >= high ==> Slip(a, b) == 0
  {
    if z == 0 && r != 0 {
      MulPositive(Abs(r), Power(low));
    }
  }

  /** How far mp_toom_mul is off, for coefficients r0 to r3 that are all of one sign. */
  ghost function ToomError(r0: int, r1: int, r2: int, r3: int, cut: nat): int {
    (if r0 < 0 && Misjudged(r0, r1, cut) then Power(cut) else 0)
    + (if r2 < 0 && Misjudged(r2, r3, cut) then Power(3 * cut) else 0)
  }

  ghost predicate OneSign(r0: int, r1: int, r2: int, r3: int, r4: int) {
    && ((r0 >= 0 && r1 >= 0 && r2 >= 0 && r3 >= 0 && r4 >= 0) || (r0 <= 0 && r1 <= 0 && r2 <= 0 && r3 <= 0 && r4 <= 0))
    && r4 != 0
  }

  /** The shifts and additions that put the coefficients together. */
  method Recombine(w0: MpInt, w1: MpInt, w2: MpInt, w3: MpInt, w4: MpInt, cut: nat, c: MpInt)
    requires w0.Trim() && w1.Trim() && w2.Trim() && w3.Trim() && w4.Trim() && c.Valid() && cut > 0
    requires w0 !in {w1, w2, w3, w4} && w1 !in {w2, w3, w4} && w2 !in {w3, w4} && w3 != w4 && c !in {w0, w1, w2, w3, w4}
    modifies c, w0, w1, w2, w3, w4
    ensures c.Trim() && (old(c.ClearAbove()) ==> c.ClearAbove())
    ensures old(OneSign(w0.V(), w1.V(), w2.V(), w3.V(), w4.V())) ==>
      c.V() == old(w0.V()) + old(w1.V()) * Power(cut) + old(w2.V()) * Power(2 * cut) + old(w3.V()) * Power(3 * cut)
      + old(w4.V()) * Power(4 * cut) + ToomError(old(w0.V()), old(w1.V()), old(w2.V()), old(w3.V()), cut)
  {
    hide Pow2;
    ghost var r0, r1, r2, r3, r4 := w0.V(), w1.V(), w2.V(), w3.V(), w4.V();
    AddPair(w0, w1, 0, cut, c);
    var tmp := new MpInt.Init();
    AddPair(w2, w3, 2 * cut, 3 * cut, tmp);
    ShiftRow(w4, 4 * cut);
    RowValue(w4, r4, 4 * cut);
    if r4 != 0 { TrimmedOrdered(w4, tmp); }
    Add(w4, tmp, tmp);
    Plus(tmp, c, c);
    assert Power(0) == 1;
  }

  /** c = a * BASE^low + b * BASE^high */
  method AddPair(a: MpInt, b: MpInt, low: nat, high: nat, c: MpInt)
    requires a.Trim() && b.Trim() && c.Valid() && a != b && c !in {a, b} && low < high
    modifies a, b, c
    ensures c.Trim() && (old(c.ClearAbove()) ==> c.ClearAbove())
    ensures old((a.V() >= 0 && b.V() >= 0) || (a.V() <= 0 && b.V() <= 0)) ==>
      c.V() == old(a.V()) * Power(low) + old(b.V()) * Power(high)
      + if old(a.V()) < 0 && old(b.V()) == 0 && NumDigits(Abs(old(a.V()))) + low < high then Power(high) else 0
  {
    hide Value, Power, Pow2, NumDigits, Row;
    ghost var r, z := a.V(), b.V();
    ShiftRow(a, low);
    ShiftRow(b, high);
    AddCoefficients(a, b, c, r, low, z, high);
  }

  lemma {:induction false} CoefficientSigns(x: int, y: int, cut: nat)
    requires 2 * cut < NumDigits(Abs(x)) && 2 * cut < NumDigits(Abs(y))
    ensures var s, t := Split3(x, cut), Split3(y, cut); OneSign(R0(s, t), R1(s, t), R2(s, t), R3(s, t), R4(s, t))
    ensures var s, t := Split3(x, cut), Split3(y, cut); SameSign(x, y) <==> R4(s, t) > 0
  {
    SplitMagnitude(Abs(x), cut);
    SplitMagnitude(Abs(y), cut);
    HighNonzero(Abs(x), cut);
    HighNonzero(Abs(y), cut);
    var s, t := Split3(x, cut), Split3(y, cut);
    PartSigns(x, y, s, t);
  }

  lemma {:induction false} HighNonzero(v: nat, cut: nat)
    requires 2 * cut < NumDigits(v)
    ensures v / Power(2 * cut) > 0
  {
    NumDigitsBelow(v, 2 * cut);
    QuotientMonotone(Power(2 * cut), v, Power(2 * cut));
    DivModUnique(Power(2 * cut), Power(2 * cut), 1, 0);
  }

  ghost predicate HasSign(x: int, t: Parts) {
    if x < 0 then t.lo <= 0 && t.mid <= 0 && t.hi < 0 else t.lo >= 0 && t.mid >= 0 && t.hi > 0
  }

  lemma PartSigns(x: int, y: int, s: Parts, t: Parts)
    requires HasSign(x, s) && HasSign(y, t)
    ensures OneSign(R0(s, t), R1(s, t), R2(s, t), R3(s, t), R4(s, t)) && (SameSign(x, y) <==> R4(s, t) > 0)
  {
    SignOfProduct(s.lo, t.lo);
    SignOfProduct(s.lo, t.mid);
    SignOfProduct(s.mid, t.lo);
    SignOfProduct(s.lo, t.hi);
    SignOfProduct(s.mid, t.mid);
    SignOfProduct(s.hi, t.lo);
    SignOfProduct(s.mid, t.hi);
    SignOfProduct(s.hi, t.mid);
    SignOfProduct(s.hi, t.hi);
  }

  lemma SignOfProduct(a: int, b: int)
    ensures (a >= 0 && b >= 0) || (a <= 0 && b <= 0) ==> a * b >= 0
    ensures (a >= 0 && b <= 0) || (a <= 0 && b >= 0) ==> a * b <= 0
    ensures a != 0 && b != 0 ==> a * b != 0
  {
  }

  // ------------------------------------------------------------ the recursion

  /** What a multiplication promises: the exact product whenever Agrees says so,
      and otherwise, as long as the parts come out right, a wrong one. */
  ghost predicate Multiplies(x: int, y: int, z: int) {
    && (Agrees(x, y) ==> z == x * y)
    && (!Plain(x, y) && PartsAgree(x, y) ==> (z == x * y <==> !Slips(x, y)))
  }

  /** The product of x and y into a fresh integer. */
  method Product(a: MpInt, b: MpInt, ghost x: int, ghost y: int) returns (w: MpInt)
    requires a.Trim() && b.Trim() && a.V() == x && b.V() == y
    ensures fresh(w) && w.Trim() && (Agrees(x, y) ==> w.V() == x * y)
    decreases Size(x, y), 2
  {
    w := new MpInt.Init();
    Mul(a, b, w);
  }

  /** The same for numbers that are not negative. */
  method PositiveProduct(a: MpInt, b: MpInt, ghost x: nat, ghost y: nat) returns (w: MpInt)
    requires a.Trim() && b.Trim() && a.V() == x && b.V() == y
    ensures fresh(w) && Natural(w) && w.V() == x * y
    decreases Size(x, y), 3
  {
    MulNonneg(x, y);
    w := Product(a, b, x, y);
  }

  /** The middle term: (x0 + x1)(y0 + y1) - x0y0 - x1y1. */
  method MiddleTerm(x0: MpInt, x1: MpInt, y0: MpInt, y1: MpInt, x0y0: MpInt, x1y1: MpInt,
                    ghost sx: nat, ghost sy: nat, ghost mid: nat) returns (t1: MpInt)
    requires Natural(x0) && Natural(x1) && Natural(y0) && Natural(y1) && Natural(x0y0) && Natural(x1y1)
    requires sx == x0.V() + x1.V() && sy == y0.V() + y1.V() && sx * sy == mid + x0y0.V() + x1y1.V()
    ensures fresh(t1) && t1.Trim() && t1.V() == mid
    decreases Size(sx, sy), 4
  {
    var s := PositiveSum(x1, x0);
    var t2 := PositiveSum(y1, y0);
    t1 := PositiveProduct(s, t2, sx, sy);
    Plus(x0y0, x1y1, t2);
    PositiveDifference(t1, t2);
  }

  /** s_mp_add of non-negative numbers. */
  method PositiveSum(a: MpInt, b: MpInt) returns (t: MpInt)
    requires Natural(a) && Natural(b)
    ensures fresh(t) && Natural(t) && t.V() == a.V() + b.V()
  {
    t := new MpInt.Init();
    TrimmedNegative(a);
    TrimmedNegative(b);
    SMpAdd(a, b, t);
    TrimmedNegative(t);
  }

  /** s_mp_sub of non-negative numbers, in place. */
  method PositiveDifference(a: MpInt, b: MpInt)
    requires a.Trim() && b.Trim() && a != b && a.V() >= b.V() >= 0
    modifies a
    ensures a.Trim() && a.V() == old(a.V()) - b.V()
  {
    TrimmedNegative(a);
    TrimmedNegative(b);
    DigitsOrdered(a, b);
    SMpSub(a, b, a);
  }

  /** mp_karatsuba_mul: |a| * |b| */
  method Karatsuba(a: MpInt, b: MpInt, c: MpInt)
    requires a.Trim() && b.Trim() && c.Valid() && Min(a.used, b.used) >= KARATSUBA_MUL_CUTOFF
    modifies c
    ensures c.Trim() && c.Mag() == old(a.Mag()) * old(b.Mag())
    ensures old(c.ClearAbove()) ==> c.ClearAbove()
    decreases Size(a.V(), b.V()), 0, 1
  {
    UsedIsNumDigits(a);
    UsedIsNumDigits(b);
    var cut := Min(a.used, b.used) / 2;
    ghost var x, y, p := a.Mag(), b.Mag(), Power(cut);
    HalvesAreSmaller(x, y, cut);
    ghost var x0, x1, y0, y1 := x % p, x / p, y % p, y / p;
    ghost var mid := KaratsubaMiddle(x, y, p, x0, x1, y0, y1);
    var u, t1, v := KaratsubaProducts(a, b, cut, x0, x1, y0, y1, mid, Size(x, y));
    KaratsubaSum(u, t1, v, cut, c);
  }

  /** The three products, for given low and high halves of the operands. */
  method KaratsubaProducts(a: MpInt, b: MpInt, cut: nat, ghost x0: nat, ghost x1: nat, ghost y0: nat, ghost y1: nat,
                           ghost mid: nat, ghost n: nat) returns (u: MpInt, t: MpInt, v: MpInt)
    requires a.Trim() && b.Trim() && cut < a.used && cut < b.used
    requires x0 == a.Mag() % Power(cut) && x1 == a.Mag() / Power(cut)
    requires y0 == b.Mag() % Power(cut) && y1 == b.Mag() / Power(cut)
    requires (x0 + x1) * (y0 + y1) == mid + x0 * y0 + x1 * y1
    requires Size(x0, y0) < n && Size(x1, y1) < n && Size(x0 + x1, y0 + y1) < n
    ensures fresh(u) && fresh(t) && fresh(v) && u != t && u != v && t != v
    ensures Natural(u) && Natural(t) && Natural(v) && u.V() == x0 * y0 && t.V() == mid && v.V() == x1 * y1
    decreases n, 0, 0
  {
    var xl, xh := Halves(a, cut);
    var yl, yh := Halves(b, cut);
    u := PositiveProduct(xl, yl, x0, y0);
    v := PositiveProduct(xh, yh, x1, y1);
    t := MiddleTerm(xl, xh, yl, yh, u, v, x0 + x1, y0 + y1, mid);
  }

  lemma KaratsubaMiddle(x: nat, y: nat, p: nat, x0: nat, x1: nat, y0: nat, y1: nat) returns (mid: nat)
    requires p > 0 && x0 == x % p && x1 == x / p && y0 == y % p && y1 == y / p
    ensures (x0 + x1) * (y0 + y1) == mid + x0 * y0 + x1 * y1
    ensures x * y == x0 * y0 + mid * p + x1 * y1 * (p * p)
  {
    MulNonneg(x0, y1);
    MulNonneg(x1, y0);
    mid := x0 * y1 + x1 * y0;
    DivMod(x, p);
    DivMod(y, p);
    KaratsubaIdentity(x0, x1, y0, y1, p);
  }

  /** mp_lshd of a number that is not negative. */
  method ShiftPositive(t: MpInt, n: nat)
    requires t.Trim() && t.V() >= 0
    modifies t
    ensures t.Valid() && t.sign == ZPOS && t.Mag() == old(t.V()) * Power(n)
  {
    TrimmedNegative(t);
    Lshd(t, n);
  }

  /** mp_add of two numbers that are not negative. */
  method AddPositive(a: MpInt, b: MpInt, c: MpInt)
    requires a.Valid() && b.Valid() && c.Valid() && a.sign == ZPOS && b.sign == ZPOS
    modifies c
    ensures c.Trim() && c.sign == ZPOS && c.Mag() == old(a.Mag()) + old(b.Mag())
    ensures old(c.ClearAbove()) ==> c.ClearAbove()
  {
    Add(a, b, c);
    TrimmedNegative(c);
  }

  /** c = u + t * BASE^cut + v * BASE^(2 cut), all non-negative. */
  method KaratsubaSum(u: MpInt, t: MpInt, v: MpInt, cut: nat, c: MpInt)
    requires Natural(u) && Natural(t) && Natural(v) && c.Valid()
    requires u != t && u != v && t != v && c !in {u, t, v}
    modifies t, v, c
    ensures c.Trim() && c.Mag() == u.V() + old(t.V()) * Power(cut) + old(v.V()) * (Power(cut) * Power(cut))
    ensures old(c.ClearAbove()) ==> c.ClearAbove()
  {
    PowerAdd(cut, cut);
    TrimmedNegative(u);
    ShiftPositive(t, cut);
    ShiftPositive(v, cut * 2);
    AddPositive(u, t, t);
    AddPositive(t, v, c);
  }

  /** The product of two operands evaluated at a point. */
  method HalfProduct(p: MpInt, q: MpInt, r: MpInt, p': MpInt, q': MpInt, r': MpInt, ghost x: int, ghost y: int)
    returns (w: MpInt)
    requires p.Trim() && q.Trim() && r.Trim() && p'.Trim() && q'.Trim() && r'.Trim()
    requires x == 4 * p.V() + 2 * q.V() + r.V() && y == 4 * p'.V() + 2 * q'.V() + r'.V()
    ensures fresh(w) && w.Trim() && (Agrees(x, y) ==> w.V() == x * y)
    decreases Size(x, y), 3
  {
    var tmp1 := EvalHalf(p, q, r);
    var tmp2 := EvalHalf(p', q', r');
    w := Product(tmp1, tmp2, x, y);
  }

  method OneProduct(p: MpInt, q: MpInt, r: MpInt, p': MpInt, q': MpInt, r': MpInt, ghost x: int, ghost y: int)
    returns (w: MpInt)
    requires p.Trim() && q.Trim() && r.Trim() && p'.Trim() && q'.Trim() && r'.Trim()
    requires x == p.V() + q.V() + r.V() && y == p'.V() + q'.V() + r'.V()
    ensures fresh(w) && w.Trim() && (Agrees(x, y) ==> w.V() == x * y)
    decreases Size(x, y), 3
  {
    var tmp1 := EvalOne(p, q, r);
    var tmp2 := EvalOne(p', q', r');
    w := Product(tmp1, tmp2, x, y);
  }

  /** The products of the lowest and of the highest parts. */
  method OuterProducts(a0: MpInt, a2: MpInt, b0: MpInt, b2: MpInt, ghost s: Parts, ghost t: Parts)
    returns (w0: MpInt, w4: MpInt)
    requires a0.Trim() && a2.Trim() && b0.Trim() && b2.Trim()
    requires a0.V() == s.lo && a2.V() == s.hi && b0.V() == t.lo && b2.V() == t.hi
    ensures fresh(w0) && fresh(w4) && w0 != w4 && w0.Trim() && w4.Trim()
    ensures Agrees(s.lo, t.lo) ==> w0.V() == s.lo * t.lo
    ensures Agrees(s.hi, t.hi) ==> w4.V() == s.hi * t.hi
    decreases Max(Size(s.lo, t.lo), Size(s.hi, t.hi)), 3
  {
    w0 := Product(a0, b0, s.lo, t.lo);
    w4 := Product(a2, b2, s.hi, t.hi);
  }

  /** The larger of the sizes of the three inner products. */
  function InnerSize(s: Parts, t: Parts): nat {
    Max(Size(AtHalf(s), AtHalf(t)), Max(Size(AtTwo(s), AtTwo(t)), Size(AtOne(s), AtOne(t))))
  }

  /** The products at one half, at one and at two. */
  method InnerProducts(a0: MpInt, a1: MpInt, a2: MpInt, b0: MpInt, b1: MpInt, b2: MpInt, ghost s: Parts, ghost t: Parts)
    returns (w1: MpInt, w2: MpInt, w3: MpInt)
    requires a0.Trim() && a1.Trim() && a2.Trim() && b0.Trim() && b1.Trim() && b2.Trim()
    requires s == Parts(a0.V(), a1.V(), a2.V()) && t == Parts(b0.V(), b1.V(), b2.V())
    ensures fresh(w1) && fresh(w2) && fresh(w3) && w1 !in {w2, w3} && w2 != w3 && w1.Trim() && w2.Trim() && w3.Trim()
    ensures Agrees(AtHalf(s), AtHalf(t)) ==> w1.V() == AtHalf(s) * AtHalf(t)
    ensures Agrees(AtOne(s), AtOne(t)) ==> w2.V() == AtOne(s) * AtOne(t)
    ensures Agrees(AtTwo(s), AtTwo(t)) ==> w3.V() == AtTwo(s) * AtTwo(t)
    decreases InnerSize(s, t), 4
  {
    hide Value, Power, Pow2, Agrees, Size;
    w1 := HalfProduct(a0, a1, a2, b0, b1, b2, AtHalf(s), AtHalf(t));
    w3 := HalfProduct(a2, a1, a0, b2, b1, b0, AtTwo(s), AtTwo(t));
    w2 := OneProduct(a0, a1, a2, b0, b1, b2, AtOne(s), AtOne(t));
  }

  /** The five values of the product are what they should be. */
  ghost predicate ToomValues(w0: int, w1: int, w2: int, w3: int, w4: int, s: Parts, t: Parts) {
    && w0 == s.lo * t.lo && w4 == s.hi * t.hi
    && w1 == AtHalf(s) * AtHalf(t) && w3 == AtTwo(s) * AtTwo(t) && w2 == AtOne(s) * AtOne(t)
  }

  /** The five products. */
  method ToomProducts(a: MpInt, b: MpInt, cut: nat, ghost s: Parts, ghost t: Parts)
    returns (w0: MpInt, w1: MpInt, w2: MpInt, w3: MpInt, w4: MpInt)
    requires a.Trim() && b.Trim() && cut == Cut(a.V(), b.V()) && Size(a.V(), b.V()) >= TOOM_MUL_CUTOFF
    requires s == Split3(a.V(), cut) && t == Split3(b.V(), cut)
    ensures fresh(w0) && fresh(w1) && fresh(w2) && fresh(w3) && fresh(w4)
    ensures w0 !in {w1, w2, w3, w4} && w1 !in {w2, w3, w4} && w2 !in {w3, w4} && w3 != w4
    ensures w0.Trim() && w1.Trim() && w2.Trim() && w3.Trim() && w4.Trim()
    ensures AllAgree(s, t) ==> ToomValues(w0.V(), w1.V(), w2.V(), w3.V(), w4.V(), s, t)
    decreases Size(a.V(), b.V()), 0, 0
  {
    hide Value, Power, Pow2, NumDigits, Abs, Split3, Agrees, Size;
    PartsAreSmaller(a.V(), b.V());
    var a0, a1, a2 := Thirds(a, cut);
    var b0, b1, b2 := Thirds(b, cut);
    w0, w4 := OuterProducts(a0, a2, b0, b2, s, t);
    w1, w2, w3 := InnerProducts(a0, a1, a2, b0, b1, b2, s, t);
  }

  /** mp_toom_mul */
  method Toom(a: MpInt, b: MpInt, c: MpInt)
    requires a.Trim() && b.Trim() && c.Valid() && Min(a.used, b.used) >= TOOM_MUL_CUTOFF
    modifies c
    ensures c.Trim() && (old(c.ClearAbove()) ==> c.ClearAbove())
    ensures var x, y := old(a.V()), old(b.V()); var s, t := Split3(x, Cut(x, y)), Split3(y, Cut(x, y));
      AllAgree(s, t) ==> c.V() == x * y + ToomError(R0(s, t), R1(s, t), R2(s, t), R3(s, t), Cut(x, y))
    decreases Size(a.V(), b.V()), 0, 1
  {
    SizeIsUsed(a, b);
    var cut := Min(a.used, b.used) / 3;
    ghost var x, y := a.V(), b.V();
    ghost var s, t := Split3(x, cut), Split3(y, cut);
    AtPoints(s, t);
    CoefficientSigns(x, y, cut);
    var w0, w1, w2, w3, w4 := ToomProducts(a, b, cut, s, t);
    Interpolate(w0, w1, w2, w3, w4, R1(s, t), R2(s, t), R3(s, t));
    Recombine(w0, w1, w2, w3, w4, cut, c);
    ToomProduct(x, y, cut);
  }

  lemma {:induction false} SizeIsUsed(a: MpInt, b: MpInt)
    requires a.Trim() && b.Trim()
    ensures Size(a.V(), b.V()) == Min(a.used, b.used) && Cut(a.V(), b.V()) == Min(a.used, b.used) / 3
    ensures NumDigits(Abs(a.V())) == a.used && NumDigits(Abs(b.V())) == b.used
  {
    UsedIsNumDigits(a);
    UsedIsNumDigits(b);
  }

  lemma {:induction false} ToomProduct(x: int, y: int, cut: nat)
    ensures var s, t := Split3(x, cut), Split3(y, cut);
      x * y == R0(s, t) + R1(s, t) * Power(cut) + R2(s, t) * Power(2 * cut) + R3(s, t) * Power(3 * cut)
        + R4(s, t) * Power(4 * cut)
  {
    var s, t, p := Split3(x, cut), Split3(y, cut), Power(cut);
    SplitSum(x, cut);
    SplitSum(y, cut);
    ProductOfParts(s, t, p, x, y);
    PowerAdd(cut, cut);
    PowerAdd(2 * cut, cut);
    PowerAdd(3 * cut, cut);
  }

  /** Below the Toom cutoff the product is exact. */
  lemma SmallProduct(x: int, y: int, z: int)
    requires Size(x, y) < TOOM_MUL_CUTOFF && z == if SameSign(x, y) then Abs(x) * Abs(y) else 0 - Abs(x) * Abs(y)
    ensures Multiplies(x, y, z)
  {
    assert (-x) * y == -(x * y) && x * -y == -(x * y) && (-x) * -y == x * y;
  }

  /** At or above it the error of mp_toom_mul survives the change of sign. */
  lemma {:induction false} LargeProduct(x: int, y: int, v: int, z: int)
    requires Size(x, y) >= TOOM_MUL_CUTOFF && z == if SameSign(x, y) then Abs(v) else 0 - Abs(v)
    requires var s, t := Split3(x, Cut(x, y)), Split3(y, Cut(x, y));
      AllAgree(s, t) ==> v == x * y + ToomError(R0(s, t), R1(s, t), R2(s, t), R3(s, t), Cut(x, y))
    ensures Multiplies(x, y, z)
  {
    var cut := Cut(x, y);
    var s, t := Split3(x, cut), Split3(y, cut);
    CoefficientSigns(x, y, cut);
    SignOfProduct(x, y);
    if SameSign(x, y) {
      PartsKeepSign(x, y, cut);
    } else if PartsAgree(x, y) {
      assert AllAgree(s, t);
      ErrorIsSmall(x, y, cut);
    }
  }

  /** The error is smaller than the product. */
  lemma {:induction false} ErrorIsSmall(x: int, y: int, cut: nat)
    requires cut > 0
    requires var s, t := Split3(x, cut), Split3(y, cut);
      OneSign(R0(s, t), R1(s, t), R2(s, t), R3(s, t), R4(s, t)) && R4(s, t) < 0
    ensures var s, t := Split3(x, cut), Split3(y, cut);
      x * y + ToomError(R0(s, t), R1(s, t), R2(s, t), R3(s, t), cut) < 0
  {
    var s, t, p := Split3(x, cut), Split3(y, cut), Power(cut);
    ToomProduct(x, y, cut);
    SignOfProduct(R1(s, t), p);
    SignOfProduct(R2(s, t), Power(2 * cut));
    SignOfProduct(R3(s, t), Power(3 * cut));
    MulMonotone(R4(s, t), -1, Power(4 * cut));
    BaseIsLarge();
    PowerMonotone(cut, 3 * cut);
    PowerMonotone(3 * cut + 1, 4 * cut);
    MulMonotone(3, BASE, Power(3 * cut));
  }

  /** Operands of m and n digits go to the comba multiplier, which leaves a digit above
      the product that nothing has written. */
  predicate Comba(m: nat, n: nat) {
    Min(m, n) < KARATSUBA_MUL_CUTOFF && m + n + 1 < MP_WARRAY
  }

  /** mp_mul */
  method Mul(a: MpInt, b: MpInt, c: MpInt)
    requires a.Trim() && b.Trim() && c.Valid()
    modifies c
    ensures c.Trim() && Multiplies(old(a.V()), old(b.V()), c.V())
    ensures old(c.ClearAbove()) && !Comba(old(a.used), old(b.used)) ==> c.ClearAbove()
    ensures old(c.ClearAbove()) ==> ClearBut(c, old(a.used) + old(b.used))
    decreases Size(a.V(), b.V()), 1
  {
    hide Pow2, NumDigits, Size;
    var neg := if a.sign == b.sign then ZPOS else NEG;
    ghost var x, y := a.V(), b.V();
    SizeIsUsed(a, b);
    TrimmedNegative(a);
    TrimmedNegative(b);
    if Min(a.used, b.used) >= TOOM_MUL_CUTOFF {
      Toom(a, b, c);
      LargeProduct(x, y, c.V(), if neg == ZPOS then c.Mag() else 0 - c.Mag());
    } else {
      MulModerate(a, b, c);
      SmallProduct(x, y, if neg == ZPOS then c.Mag() else 0 - c.Mag());
    }
    TrimmedNegative(c);
    c.sign := if c.used > 0 then neg else ZPOS;
  }

  /** The other two branches of mp_mul. */
  method MulModerate(a: MpInt, b: MpInt, c: MpInt)
    requires a.Trim() && b.Trim() && c.Valid()
    modifies c
    ensures c.Trim() && c.Mag() == old(a.Mag()) * old(b.Mag())
    ensures old(c.ClearAbove()) && !Comba(old(a.used), old(b.used)) ==> c.ClearAbove()
    ensures old(c.ClearAbove()) ==> ClearBut(c, old(a.used) + old(b.used))
    decreases Size(a.V(), b.V()), 0, 2
  {
    if Min(a.used, b.used) >= KARATSUBA_MUL_CUTOFF {
      Karatsuba(a, b, c);
    } else {
      MulBaseline(a, b, c);
    }
  }

  // --------------------------------------------------------- consequences

  /** Operands of one sign, and operands below the Toom cutoff, are multiplied exactly. */
  lemma PlainIsExact(x: int, y: int, z: int)
    requires Plain(x, y) && Multiplies(x, y, z)
    ensures z == x * y
  {
  }

  /** mp_mul of numbers that are not negative. */
  method MulNatural(a: MpInt, b: MpInt, c: MpInt, ghost x: nat, ghost y: nat)
    requires a.Trim() && b.Trim() && c.Valid() && a.V() == x && b.V() == y
    modifies c
    ensures c.Trim() && c.sign == ZPOS && c.V() == x * y
    ensures old(c.ClearAbove()) && !Comba(old(a.used), old(b.used)) ==> c.ClearAbove()
    ensures old(c.ClearAbove()) ==> ClearBut(c, old(a.used) + old(b.used))
  {
    MulNonneg(x, y);
    Mul(a, b, c);
    PlainIsExact(x, y, c.V());
    TrimmedNegative(c);
  }

  /** mp_sqr, by the rows of the schoolbook product. Like the squaring routines it stands
      for, it leaves no digit above the square. */
  method Sqr(a: MpInt, b: MpInt)
    requires a.Valid() && b.Valid()
    modifies b
    ensures b.Trim() && b.sign == ZPOS && b.Mag() == old(a.Mag()) * old(a.Mag()) && b.ClearAbove()
  {
    var digs := a.used + a.used + 1;
    LowProductExact(a.dp[..a.used], a.dp[..a.used], digs);
    var t := new MpInt.InitSize(digs);
    var d := AddRows(a.dp[..a.used], a.dp[..a.used], t.dp[..digs]);
    t.dp := d + t.dp[digs..];
    t.used := digs;
    assert t.dp[..digs] == d;
    Clamp(t);
    Exch(t, b);
  }

  lemma {:induction false} PowerPlusOne(n: nat, k: nat)
    requires 0 < k < n
    ensures (Power(n) + 1) % Power(k) == 1 && (Power(n) + 1) / Power(k) == Power(n - k)
    ensures Power(n - k) % Power(k) == if n - k < k then Power(n - k) else 0
  {
    BaseIsLarge();
    PowerAdd(n - k, k);
    PowerMonotone(1, k);
    assert Power(1) == BASE;
    DivModUnique(Power(n) + 1, Power(k), Power(n - k), 1);
    if n - k < k {
      PowerMonotone(n - k + 1, k);
      MulMonotone(2, BASE, Power(n - k));
      DivModUnique(Power(n - k), Power(k), 0, Power(n - k));
    } else {
      PowerAdd(n - k - k, k);
      DivModUnique(Power(n - k), Power(k), Power(n - k - k), 0);
    }
  }

  lemma {:induction false} DigitsOfPowerPlusOne(n: nat)
    requires n > 0
    ensures NumDigits(Power(n) + 1) == n + 1
  {
    BaseIsLarge();
    PowerMonotone(1, n);
    MulMonotone(2, BASE, Power(n));
    NumDigitsBelow(Power(n) + 1, n);
    NumDigitsBelow(Power(n) + 1, n + 1);
  }

  /** Operands of up to this many digits have parts below the cutoff. */
  const ONE_LEVEL: nat := 3 * (TOOM_MUL_CUTOFF - 4) + 2

  lemma {:induction false} PartsBelowCutoff(x: int, y: int)
    requires Size(x, y) <= ONE_LEVEL && !Plain(x, y)
    ensures PartsAgree(x, y)
  {
    PartsAreSmaller(x, y);
  }

  /** mp_mul is right exactly when Agrees says so, if the shorter operand has up to
      ONE_LEVEL digits. Beyond, a part may be a wrong product itself, and a wrong one could
      make up for another. */
  lemma {:induction false} ExactlyAgrees(x: int, y: int, z: int)
    requires Size(x, y) <= ONE_LEVEL && Multiplies(x, y, z)
    ensures z == x * y <==> Agrees(x, y)
  {
    if !Plain(x, y) { PartsBelowCutoff(x, y); }
  }

  lemma {:induction false} SlipOfPowerPlusOne(n: nat, x: int, cut: nat)
    requires x == Power(n) + 1 && 1 < cut && 2 * cut <= n && cut == Cut(x, -x)
    ensures Slips(x, -x)
  {
    PowerPlusOne(n, cut);
    var s, t := Split3(x, cut), Split3(-x, cut);
    assert s.lo == 1 && s.mid == 0 && t.lo == -1 && t.mid == 0;
    OneDigit();
    assert Misjudged(R0(s, t), R1(s, t), cut);
  }

  /** The smallest operands the Toom branch takes already show the slip: for
      x = BASE^349 + 1 mp_mul does not return x * -x. */
  lemma {:induction false} ToomCounterexample(n: nat, x: int, z: int)
    requires n == TOOM_MUL_CUTOFF - 1 && x == Power(n) + 1 && Multiplies(x, -x, z)
    ensures z != x * -x
  {
    DigitsOfPowerPlusOne(n);
    SlipOfPowerPlusOne(n, x, Cut(x, -x));
    PartsBelowCutoff(x, -x);
  }

  lemma OneDigit()
    ensures NumDigits(1) == 1
  {
    BaseIsLarge();
    DivModUnique(1, BASE, 0, 1);
  }
}
