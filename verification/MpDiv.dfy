/** mp_div: schoolbook long division with a guessed and corrected quotient digit. */
module MpDiv {
  import opened Arith
  import opened MpDigits
  import opened MpInts
  import opened MpAddSub
  import opened MpScale
  import opened MpShift
  import opened MpEstimate

  // ------------------------------------------------------- one quotient digit

  /** The divisor is normalised: its top digit t is at least a quarter of the base. */
  ghost predicate Normal(y: MpInt, t: nat)
    reads y
  {
    y.Trim() && y.used == t + 1 && BASE <= 4 * y.dp[t]
  }

  /** What is left of the dividend has at most i + 1 digits, and digit i can be
      read even where it lies above those in use. */
  ghost predicate Remaining(x: MpInt, i: nat)
    reads x
  {
    x.Trim() && x.ClearAbove() && x.sign == ZPOS && 1 <= i < |x.dp| && x.used <= i + 1
  }

  lemma {:induction false} RemainingValue(x: MpInt, i: nat)
    requires Remaining(x, i)
    ensures Digits(x.dp[..i + 1]) && Value(x.dp[..i + 1]) == x.Mag()
  {
    BaseIsLarge();
    ValueDropZeros(x.dp[..i + 1], x.used);
    assert x.dp[..i + 1][..x.used] == x.dp[..x.used];
  }

  /** The digit guessed from the two top digits of the dividend and the top digit
      of the divisor. */
  function FirstGuess(xi: nat, xi1: nat, yt: nat): (g: nat)
    requires yt > 0
    ensures g < BASE
    ensures xi == yt || g == BASE - 1 || xi * BASE + xi1 < (g + 1) * yt
    ensures xi != yt ==> g * yt <= xi * BASE + xi1
  {
    BaseIsLarge();
    MulNonneg(xi, BASE);
    var two: nat := xi * BASE + xi1;
    QuotientMonotone(0, two, yt);
    DivBounds(two, yt);
    MulDistrib(two / yt, 1, yt);
    if xi == yt then BASE - 1
    else if two / yt > BASE - 1 then MulMonotone(BASE - 1, two / yt, yt); BASE - 1
    else two / yt
  }

  /** The numbers one digit is decided on: dividend x, divisor y = p * (its top
      digit) and a bit, weight r, the digits looked at, and the two- and
      three-digit numbers they form. */
  datatype Sketch = Sketch(x: nat, y: nat, p: nat, r: nat, yt: nat, xi: nat, xi1: nat, d: nat, t: nat)

  /** The digits looked at bracket the numbers. */
  ghost predicate Brackets(v: Sketch) {
    var two, m := v.xi * BASE + v.xi1, v.p * v.r;
    && two * m <= v.x < (two + 1) * m
    && v.t * m <= v.x * BASE < (v.t + 1) * m
    && v.yt * v.p <= v.y <= (v.yt + 1) * v.p
    && v.d * v.p <= v.y * BASE <= (v.d + 1) * v.p
    && BASE <= 4 * v.yt && 0 < v.p <= v.y && 0 < v.r
    && v.xi1 < BASE && (v.xi > 0 ==> BASE * BASE <= v.t)
    && v.x < BASE * (v.y * v.r)
  }

  /** Digit g is not too small. */
  ghost predicate NotLow(v: Sketch, g: nat) { v.x < (g + 1) * (v.y * v.r) }

  /** Digit g is at most one too large. */
  ghost predicate NotHigh(v: Sketch, g: nat) { g * (v.y * v.r) < v.x + v.y * v.r }

  /** While the top digit is zero the guess stays below the two-digit quotient. */
  ghost predicate Modest(v: Sketch, g: nat) {
    v.xi == 0 ==> g * v.yt <= v.xi1
  }

  lemma GuessIsNotLow(v: Sketch)
    requires Brackets(v)
    ensures v.yt > 0 && NotLow(v, FirstGuess(v.xi, v.xi1, v.yt)) && Modest(v, FirstGuess(v.xi, v.xi1, v.yt))
  {
    BaseIsLarge();
    var g := FirstGuess(v.xi, v.xi1, v.yt);
    if v.xi * BASE + v.xi1 < (g + 1) * v.yt {
      MulNonneg(v.xi, BASE);
      GuessNotLow(v.x, v.y, v.p, v.r, v.yt, v.xi * BASE + v.xi1, g);
    }
    if g != BASE - 1 && v.xi == v.yt { assert false; }
  }

  lemma RejectedStep(v: Sketch, g: nat)
    requires Brackets(v) && g * v.d > v.t && Modest(v, g)
    ensures g > 0 && NotLow(v, g - 1) && Modest(v, g - 1)
  {
    RejectedIsHigh(v.x, v.y, v.p, v.r, v.d, v.t, g);
    MulDistrib(g - 1, 1, v.yt);
  }

  lemma AcceptedStep(v: Sketch, g: nat)
    requires Brackets(v) && g < BASE && Modest(v, g)
    requires g * v.d <= v.t || (v.xi == 0 && g * v.d < BASE * BASE)
    ensures NotHigh(v, g)
  {
    if g * v.d <= v.t {
      AcceptedIsClose(v.x, v.y, v.p, v.r, v.d, v.t, g);
    } else {
      BaseIsLarge();
      if g > 3 { MulMonotone(4, g, v.yt); }
      TinyIsClose(v.x, v.y, v.p, v.r, v.yt, v.xi1, g);
    }
  }

  /** Two digits read as a number. */
  function Join(high: nat, low: nat): nat {
    MulNonneg(high, BASE);
    high * BASE + low
  }

  /** The sketch of x and y for the digit with index i - t - 1. */
  ghost function SketchOf(x: MpInt, y: MpInt, i: nat, t: nat): Sketch
    reads x, y
    requires Remaining(x, i) && Normal(y, t) && t < i
  {
    var xi, xi1, yt := x.dp[i], x.dp[i - 1], y.dp[t];
    var xi2, yt1 := if i < 2 then 0 else x.dp[i - 2], if t < 1 then 0 else y.dp[t - 1];
    Sketch(x.Mag(), y.Mag(), Power(t), Power(i - t - 1), yt, xi, xi1, Join(yt, yt1), Join(Join(xi, xi1), xi2))
  }

  lemma {:induction false} SketchBrackets(x: MpInt, y: MpInt, i: nat, t: nat)
    requires Remaining(x, i) && Normal(y, t) && t < i && x.Mag() < y.Mag() * Power(i - t)
    ensures Brackets(SketchOf(x, y, i, t))
  {
    hide Pow2, Value;
    var v := SketchOf(x, y, i, t);
    SketchDividend(x, i, v.t);
    SketchDivisor(y, t);
    PowerAdd(t, i - t - 1);
    assert v.x < BASE * (v.y * v.r) by {
      MulAssoc(v.y, BASE, v.r);
      MulAssoc(BASE, v.y, v.r);
    }
    TopNotZero(v.xi, v.xi1, if i < 2 then 0 else x.dp[i - 2]);
  }

  lemma TopNotZero(xi: nat, xi1: nat, xi2: nat)
    ensures xi > 0 ==> BASE * BASE <= Join(Join(xi, xi1), xi2)
  {
    if xi > 0 {
      MulMonotone(1, xi, BASE);
      MulMonotone(BASE, Join(xi, xi1), BASE);
    }
  }

  lemma {:induction false} SketchDividend(x: MpInt, i: nat, top: nat)
    requires Remaining(x, i)
    requires top == (x.dp[i] * BASE + x.dp[i - 1]) * BASE + if i < 2 then 0 else x.dp[i - 2]
    ensures (x.dp[i] * BASE + x.dp[i - 1]) * Power(i - 1) <= x.Mag() < (x.dp[i] * BASE + x.dp[i - 1] + 1) * Power(i - 1)
    ensures top * Power(i - 1) <= x.Mag() * BASE < (top + 1) * Power(i - 1) && x.dp[i - 1] < BASE
  {
    RemainingValue(x, i);
    var s := x.dp[..i + 1];
    assert s[i - 1] == x.dp[i - 1] && s[i] == x.dp[i];
    assert BelowTop(s[..i]) == if i < 2 then 0 else x.dp[i - 2];
    TopTwo(s, i, Power(i - 1));
    TopThree(s, i, Power(i - 1), top);
  }

  lemma {:induction false} SketchDivisor(y: MpInt, t: nat)
    requires Normal(y, t)
    ensures y.dp[t] * Power(t) <= y.Mag() <= (y.dp[t] + 1) * Power(t) && Power(t) <= y.Mag()
    ensures var d := y.dp[t] * BASE + if t < 1 then 0 else y.dp[t - 1];
      d * Power(t) <= y.Mag() * BASE <= (d + 1) * Power(t)
  {
    var s := y.dp[..t + 1];
    TopTwoScaled(s, t, Power(t));
    ValueBound(s[..t]);
    ValueTop(s);
    MulDistrib(y.dp[t], 1, Power(t));
  }

  /** t1 = g * (y[t] y[t-1]) */
  method LeftHand(y: MpInt, t1: MpInt, t: nat, g: nat)
    requires Normal(y, t) && t1 != y && t1.Valid() && g < BASE
    modifies t1
    ensures t1.Trim() && t1.used <= 3
    ensures t1.Mag() == Join(y.dp[t], if t < 1 then 0 else y.dp[t - 1]) * g
  {
    BaseIsLarge();
    Zero(t1);
    t1.dp := t1.dp[0 := if t < 1 then 0 else y.dp[t - 1]][1 := y.dp[t]];
    t1.used := 2;
    TwoDigits(t1.dp[..2]);
    MulD(t1, g, t1);
  }

  lemma {:induction false} TwoDigits(s: seq<nat>)
    requires |s| == 2
    ensures Value(s) == Join(s[1], s[0])
  {
    assert s[..1][..0] == [];
    assert Power(1) == BASE && Power(0) == 1;
    assert Value(s[..1]) == s[0];
  }

  /** t2 = (x[i] x[i-1] x[i-2]), always with three digits in use. */
  method RightHand(x: MpInt, t2: MpInt, i: nat)
    requires Remaining(x, i) && t2 != x && t2.Valid()
    modifies t2`dp, t2`used
    ensures t2.Valid() && t2.used == 3
    ensures t2.Mag() == Join(Join(x.dp[i], x.dp[i - 1]), if i < 2 then 0 else x.dp[i - 2])
  {
    BaseIsLarge();
    RemainingValue(x, i);
    assert forall j :: 0 <= j <= i ==> x.dp[j] == x.dp[..i + 1][j];
    t2.dp := t2.dp[0 := if i < 2 then 0 else x.dp[i - 2]][1 := x.dp[i - 1]][2 := x.dp[i]];
    t2.used := 3;
    ThreeDigits(t2.dp[..3]);
  }

  lemma {:induction false} ThreeDigits(s: seq<nat>)
    requires |s| == 3
    ensures Value(s) == Join(Join(s[2], s[1]), s[0])
  {
    ValueLow(s);
    TwoDigits(s[1..]);
  }

  /** The do-while loop that corrects the guess: afterwards the digit is right or
      one too large. */
  method QuotientDigit(x: MpInt, y: MpInt, t1: MpInt, t2: MpInt, i: nat, t: nat, ghost v: Sketch) returns (g: nat)
    requires Remaining(x, i) && Normal(y, t) && t < i && x.Mag() < y.Mag() * Power(i - t)
    requires t1.Valid() && t2.Valid() && t1 != t2 && t1 !in {x, y} && t2 !in {x, y} && v == SketchOf(x, y, i, t)
    modifies t1, t2
    ensures g < BASE && NotLow(v, g) && NotHigh(v, g)
    ensures t1.Valid() && t2.Valid()
  {
    hide Pow2;
    SketchBrackets(x, y, i, t);
    GuessIsNotLow(v);
    var guess := FirstGuess(x.dp[i], x.dp[i - 1], y.dp[t]);
    g := (guess + 1) % BASE;
    Decremented(guess);
    var more := true;
    while more
      invariant Remaining(x, i) && Normal(y, t) && v == SketchOf(x, y, i, t) && t1.Valid() && t2.Valid()
      invariant more ==> NotLow(v, (g - 1) % BASE) && Modest(v, (g - 1) % BASE)
      invariant !more ==> g < BASE && NotLow(v, g) && NotHigh(v, g)
      decreases if more then 1 + (g - 1) % BASE else 0
    {
      g := (g - 1) % BASE;
      more := TooLarge(x, y, t1, t2, i, t, g, v);
    }
  }

  /** Compare g times the top of y with the top of x. */
  method TooLarge(x: MpInt, y: MpInt, t1: MpInt, t2: MpInt, i: nat, t: nat, g: nat, ghost v: Sketch)
    returns (more: bool)
    requires Remaining(x, i) && Normal(y, t) && t < i && v == SketchOf(x, y, i, t)
    requires t1.Valid() && t2.Valid() && t1 != t2 && t1 !in {x, y} && t2 !in {x, y}
    requires Brackets(v) && g < BASE && NotLow(v, g) && Modest(v, g)
    modifies t1, t2
    ensures more ==> g > 0 && (g - 1) % BASE == g - 1 && NotLow(v, g - 1) && Modest(v, g - 1)
    ensures !more ==> NotHigh(v, g)
    ensures t1.Valid() && t2.Valid()
  {
    LeftHand(y, t1, t, g);
    RightHand(x, t2, i);
    var o := CmpMag(t1, t2);
    more := o == GT;
    Compared(t1, t2, v, g, more);
  }

  lemma Decremented(guess: nat)
    requires guess < BASE
    ensures ((guess + 1) % BASE - 1) % BASE == guess
  {
    if guess == BASE - 1 {
      DivModUnique(guess + 1, BASE, 1, 0);
      DivModUnique(-1, BASE, -1, BASE - 1);
    } else {
      DivModUnique(guess + 1, BASE, 0, guess + 1);
      DivModUnique(guess, BASE, 0, guess);
    }
  }

  /** What the comparison of t1 and t2 says about the digit g. */
  lemma {:induction false} Compared(t1: MpInt, t2: MpInt, v: Sketch, g: nat, more: bool)
    requires t1.Trim() && t1.used <= 3 && t2.Valid() && t2.used == 3
    requires t1.Mag() == v.d * g && t2.Mag() == v.t && Brackets(v) && g < BASE && NotLow(v, g) && Modest(v, g)
    requires more <==> t1.used == 3 && t1.Mag() > t2.Mag()
    ensures more ==> g > 0 && (g - 1) % BASE == g - 1 && NotLow(v, g - 1) && Modest(v, g - 1)
    ensures !more ==> NotHigh(v, g)
  {
    if more {
      RejectedStep(v, g);
      DivModUnique(g - 1, BASE, 0, g - 1);
    } else {
      if t1.used < 3 {
        ValueBound(t1.dp[..t1.used]);
        PowerMonotone(t1.used, 2);
        assert Power(2) == BASE * (BASE * Power(0));
      }
      AcceptedStep(v, g);
    }
  }

  // ---------------------------------------------------------------- one step

  /** t1 = g * y * BASE^k. For g = 0 it keeps k leading zero digits. */
  method ScaledDivisor(y: MpInt, t1: MpInt, g: nat, k: nat)
    requires y.Trim() && y.sign == ZPOS && y.used > 0 && t1 != y && t1.Valid() && g < BASE
    modifies t1
    ensures t1.Valid() && t1.sign == ZPOS && t1.Mag() == g * (y.Mag() * Power(k))
    ensures g > 0 ==> t1.Trim()
    ensures g == 0 ==> t1.used == k
  {
    ghost var w := y.Mag();
    TrimmedNegative(y);
    MulD(y, g, t1);
    ScaledNonzero(w, g);
    TrimmedNegative(t1);
    Lshd(t1, k);
    ScaledProduct(w, g, Power(k));
  }

  lemma ScaledNonzero(w: nat, g: nat)
    requires w > 0
    ensures w * g >= 0 && (w * g == 0 <==> g == 0)
  {
    if g > 0 { MulPositive(w, g); }
  }

  lemma ScaledProduct(w: nat, g: nat, p: nat)
    ensures w * g * p == g * (w * p)
  {
    MulAssoc(g, w, p);
  }

  lemma MinusOne(g: nat, w: int)
    ensures (g - 1) * w == g * w - w
  {
  }

  /** x = x - g * w; if that was one too much, add w back. */
  method SubtractDigit(x: MpInt, y: MpInt, t1: MpInt, k: nat, g: nat) returns (g': nat)
    requires x.Trim() && x.ClearAbove() && x.sign == ZPOS && y.Trim() && y.sign == ZPOS && y.used > 0
    requires t1.Valid() && t1 != x && t1 != y && x != y && k < x.used && g < BASE
    requires x.Mag() < (g + 1) * (y.Mag() * Power(k)) && g * (y.Mag() * Power(k)) < x.Mag() + y.Mag() * Power(k)
    modifies x, t1
    ensures x.Trim() && x.ClearAbove() && x.sign == ZPOS && |old(x.dp)| <= |x.dp| && t1.Valid()
    ensures g' < BASE && x.Mag() == old(x.Mag()) - g' * (y.Mag() * Power(k)) && x.Mag() < y.Mag() * Power(k)
  {
    hide Pow2, Power, Value;
    ghost var w := y.Mag() * Power(k);
    MulDistrib(g, 1, w);
    ScaledDivisor(y, t1, g, k);
    if g > 0 { TrimmedOrdered(x, t1); }
    Sub(x, t1, x);
    TrimmedNegative(x);
    g' := g;
    if x.sign == NEG {
      g' := AddBack(x, y, t1, k, g);
      MinusOne(g, w);
    }
  }

  /** The add-back: the digit was one too large. */
  method AddBack(x: MpInt, y: MpInt, t1: MpInt, k: nat, g: nat) returns (g': nat)
    requires x.Trim() && x.ClearAbove() && y.Trim() && y.sign == ZPOS && y.used > 0
    requires t1.Valid() && t1 != x && t1 != y && x != y && 0 < g < BASE
    requires 0 - y.Mag() * Power(k) < x.V() < 0
    modifies x, t1
    ensures x.Trim() && x.ClearAbove() && x.sign == ZPOS && |old(x.dp)| <= |x.dp| && t1.Valid()
    ensures g' == g - 1 && x.Mag() == old(x.V()) + y.Mag() * Power(k)
  {
    Copy(y, t1);
    Lshd(t1, k);
    TrimmedOrdered(x, t1);
    Add(x, t1, x);
    TrimmedNegative(x);
    DivModUnique(g - 1, BASE, 0, g - 1);
    g' := (g - 1) % BASE;
  }

  // ---------------------------------------------------------------- the loop

  /** The digits of q from m on are found: x0 = q * y + x with x < y * BASE^m. */
  ghost predicate Dividing(x: MpInt, y: MpInt, q: MpInt, x0: nat, t: nat, m: nat)
    reads x, y, q
  {
    && x.Trim() && x.ClearAbove() && x.sign == ZPOS && Normal(y, t) && y.sign == ZPOS
    && q.Valid() && q.ClearAbove() && (forall j :: 0 <= j < m && j < q.used ==> q.dp[j] == 0)
    && x0 == Value(q.dp[..q.used]) * y.Mag() + x.Mag() && x.Mag() < y.Mag() * Power(m)
  }

  /** The remaining dividend fits its digits. */
  lemma {:induction false} DividendFits(x: MpInt, y: MpInt, t: nat, m: nat)
    requires x.Trim() && Normal(y, t) && x.Mag() < y.Mag() * Power(m)
    ensures x.used <= t + 1 + m
  {
    ValueBound(y.dp[..t + 1]);
    MulMonotone(y.Mag(), Power(t + 1), Power(m));
    PowerAdd(t + 1, m);
    UsedBound(x, t + 1 + m);
  }

  /** A dividend with too few digits has quotient digit zero. */
  lemma {:induction false} DigitIsZero(x: MpInt, y: MpInt, t: nat, m: nat)
    requires x.Trim() && Normal(y, t) && x.used < t + m + 1
    ensures x.Mag() < y.Mag() * Power(m)
  {
    ValueBound(x.dp[..x.used]);
    ValueTop(y.dp[..t + 1]);
    PowerMonotone(x.used, t + m);
    PowerAdd(t, m);
    MulMonotone(Power(t), y.Mag(), Power(m));
  }

  lemma FillQuotient(qv: nat, y: nat, x: nat, x0: nat, g: nat, p: nat, x': nat)
    requires x0 == qv * y + x && x' == x - g * (y * p)
    ensures x0 == (qv + g * p) * y + x'
  {
    MulDistrib(qv, g * p, y);
    MulAssoc(g, p, y);
  }

  /** One turn of the main loop: finds digit m = i - t - 1 of the quotient. */
  method DivideStep(x: MpInt, y: MpInt, q: MpInt, t1: MpInt, t2: MpInt, i: nat, t: nat, ghost x0: nat)
    requires t < i < |x.dp| && i - t - 1 < q.used && Dividing(x, y, q, x0, t, i - t)
    requires t1.Valid() && t2.Valid() && t1 != t2 && t1 !in {x, y, q} && t2 !in {x, y, q} && x != y && q !in {x, y}
    modifies x, q`dp, t1, t2
    ensures Dividing(x, y, q, x0, t, i - t - 1) && |old(x.dp)| <= |x.dp| && t1.Valid() && t2.Valid()
  {
    hide Pow2;
    if i > x.used {
      DigitIsZero(x, y, t, i - t - 1);
      return;
    }
    DividendFits(x, y, t, i - t);
    ghost var v := SketchOf(x, y, i, t);
    var g := QuotientDigit(x, y, t1, t2, i, t, v);
    FillDigit(x, y, q, t1, i - t - 1, t, g, x0);
  }

  /** Subtract and record a quotient digit. */
  method FillDigit(x: MpInt, y: MpInt, q: MpInt, t1: MpInt, k: nat, t: nat, g0: nat, ghost x0: nat)
    requires k < q.used && Dividing(x, y, q, x0, t, k + 1)
    requires t1.Valid() && t1 !in {x, y, q} && x != y && q !in {x, y} && k < x.used && g0 < BASE
    requires x.Mag() < (g0 + 1) * (y.Mag() * Power(k)) && g0 * (y.Mag() * Power(k)) < x.Mag() + y.Mag() * Power(k)
    modifies x, q`dp, t1
    ensures Dividing(x, y, q, x0, t, k) && |old(x.dp)| <= |x.dp| && t1.Valid()
  {
    hide Pow2, Power;
    ghost var d, xv := q.dp[..q.used], x.Mag();
    var g := SubtractDigit(x, y, t1, k, g0);
    ValueFill(d, k, g);
    FillQuotient(Value(d), y.Mag(), xv, x0, g, Power(k), x.Mag());
    q.dp := q.dp[k := g];
    assert q.dp[..q.used] == d[k := g];
  }

  /** Step 3: all quotient digits below n - t. */
  method DivideLoop(x: MpInt, y: MpInt, q: MpInt, n: nat, t: nat, ghost x0: nat)
    requires t <= n < |x.dp| && n - t <= q.used && Dividing(x, y, q, x0, t, n - t)
    requires x != y && q !in {x, y}
    modifies x, q`dp
    ensures Dividing(x, y, q, x0, t, 0)
  {
    hide Pow2;
    var t1 := new MpInt.Init();
    var t2 := new MpInt.Init();
    var i := n;
    while i >= t + 1
      invariant t <= i <= n < |x.dp| && Dividing(x, y, q, x0, t, i - t) && n - t <= q.used
      invariant fresh(t1) && fresh(t2) && t1.Valid() && t2.Valid()
    {
      DivideStep(x, y, q, t1, t2, i, t, x0);
      i := i - 1;
    }
  }

  // ------------------------------------------------------- the leading digit

  /** The shifted divisor is at least a quarter of BASE^(n+1). */
  lemma {:induction false} QuarterBound(y: nat, yt: nat, t: nat, n: nat)
    requires yt * Power(t) <= y && BASE <= 4 * yt && t <= n
    ensures Power(n + 1) <= 4 * (y * Power(n - t))
  {
    PowerAdd(t, n - t);
    MulMonotone(yt * Power(t), y, Power(n - t));
    MulAssoc(yt, Power(t), Power(n - t));
    MulMonotone(BASE, 4 * yt, Power(n));
    MulAssoc(4, yt, Power(n));
  }

  lemma NextMultiple(c: nat, w: nat)
    ensures (c + 1) * w == c * w + w
  {
  }

  /** Step 2: subtract the shifted divisor while it fits, counting in digit m. */
  method LeadingDigit(x: MpInt, y: MpInt, q: MpInt, m: nat, ghost top: nat) returns (ghost c: nat)
    requires x.Trim() && x.ClearAbove() && x.sign == ZPOS && x.Mag() < top
    requires y.Trim() && y.sign == ZPOS && y.Mag() > 0 && top <= 4 * y.Mag()
    requires m < |q.dp| && q.dp[m] == 0 && x != y && q !in {x, y}
    modifies x, q`dp
    ensures x.Trim() && x.ClearAbove() && x.sign == ZPOS && |old(x.dp)| <= |x.dp|
    ensures q.dp == old(q.dp)[m := c] && c < 4
    ensures old(x.Mag()) == c * y.Mag() + x.Mag() && x.Mag() < y.Mag()
  {
    ghost var w, x0 := y.Mag(), x.Mag();
    c := 0;
    var o := Cmp(x, y);
    while o != LT
      invariant x.Trim() && x.ClearAbove() && x.sign == ZPOS && |old(x.dp)| <= |x.dp|
      invariant o == Compare(x.V(), y.V()) && x0 == c * w + x.Mag() && c < 4
      invariant q.dp == old(q.dp)[m := c]
      decreases x.Mag()
    {
      q.dp := q.dp[m := q.dp[m] + 1];
      TrimmedOrdered(x, y);
      Sub(x, y, x);
      TrimmedNegative(x);
      NextMultiple(c, w);
      c := c + 1;
      CountBound(c, w, x0, x.Mag(), top);
      o := Cmp(x, y);
    }
  }

  lemma CountBound(c: nat, w: nat, x0: nat, x: nat, top: nat)
    requires x0 == c * w + x && x0 < top && top <= 4 * w
    ensures c < 4
  {
    if c >= 4 { MulMonotone(4, c, w); }
  }

  lemma {:induction false} LeadingValue(zeros: seq<nat>, m: nat, c: nat, y0: nat)
    requires m < |zeros| && forall j :: 0 <= j < |zeros| ==> zeros[j] == 0
    ensures Value(zeros[m := c]) * y0 == c * (y0 * Power(m))
  {
    hide Power;
    ValueZeros(zeros);
    ValueFill(zeros, m, c);
    MulAssoc(c, Power(m), y0);
  }

  /** y = y * BASE^m, the leading digit, and y shifted back. */
  method ShiftedLead(x: MpInt, y: MpInt, q: MpInt, m: nat, ghost top: nat) returns (ghost c: nat)
    requires x.Trim() && x.ClearAbove() && x.sign == ZPOS && x.Mag() < top
    requires y.Trim() && y.sign == ZPOS && y.used > 0 && top <= 4 * (y.Mag() * Power(m))
    requires m < |q.dp| && q.dp[m] == 0 && x != y && q !in {x, y}
    modifies x, y, q`dp
    ensures x.Trim() && x.ClearAbove() && x.sign == ZPOS && |old(x.dp)| <= |x.dp|
    ensures q.dp == old(q.dp)[m := c] && c < 4
    ensures y.Trim() && y.used == old(y.used) && y.sign == ZPOS && y.dp[..y.used] == old(y.dp[..y.used])
    ensures old(x.Mag()) == c * (y.Mag() * Power(m)) + x.Mag() && x.Mag() < y.Mag() * Power(m)
  {
    ghost var dy := y.dp[..y.used];
    Lshd(y, m);
    TrimmedNegative(y);
    c := LeadingDigit(x, y, q, m, top);
    Rshd(y, m);
    ShiftedBack(dy, y.dp[..y.used], m);
  }

  /** Step 2 as a whole. */
  method Lead(x: MpInt, y: MpInt, q: MpInt, n: nat, t: nat)
    requires t <= n && n + 1 == x.used && n - t < q.used && x != y && q !in {x, y}
    requires x.Trim() && x.ClearAbove() && x.sign == ZPOS && Normal(y, t) && y.sign == ZPOS
    requires q.used <= |q.dp| && MP_PREC <= |q.dp| && forall j :: 0 <= j < |q.dp| ==> q.dp[j] == 0
    modifies x, y, q`dp
    ensures Dividing(x, y, q, old(x.Mag()), t, n - t)
    ensures |old(x.dp)| <= |x.dp| && y.Mag() == old(y.Mag())
  {
    hide Pow2, Power;
    BaseIsLarge();
    ghost var zeros := q.dp;
    assert Power(n + 1) <= 4 * (y.Mag() * Power(n - t)) by {
      SketchDivisor(y, t);
      QuarterBound(y.Mag(), y.dp[t], t, n);
    }
    assert x.Mag() < Power(n + 1) by { ValueBound(x.dp[..x.used]); }
    ghost var c := ShiftedLead(x, y, q, n - t, Power(n + 1));
    assert y.dp[t] == y.dp[..y.used][t];
    LeadingValue(zeros[..q.used], n - t, c, y.Mag());
    assert q.dp[..q.used] == zeros[..q.used][n - t := c];
  }

  /** Shifting up and down again gives the same digits. */
  lemma ShiftedBack(d: seq<nat>, e: seq<nat>, m: nat)
    requires e == (seq(m, i => 0) + d)[m..]
    ensures e == d
  {
  }

  // ----------------------------------------------------------- normalisation

  lemma {:induction false} QuarterPowers(c: nat, n: nat)
    requires n == c * DIGIT_BIT
    ensures Pow2(DIGIT_BIT - 2) * Power(c) == Pow2(DIGIT_BIT - 2 + n) && Pow2(DIGIT_BIT - 1 + n) <= Power(c + 1)
  {
    PowerIsPow2(c);
    Pow2Add(DIGIT_BIT - 2, n);
    Pow2Add(DIGIT_BIT, n);
    assert Pow2(DIGIT_BIT + n) == 2 * Pow2(DIGIT_BIT - 1 + n);
  }

  lemma {:induction false} DigitCount(d: seq<nat>, c: nat)
    requires |d| > 0 && Digits(d) && d[|d| - 1] != 0 && Power(c) <= Value(d) < Power(c + 1)
    ensures |d| == c + 1
  {
    ValueBound(d);
    ValueTop(d);
    if |d| > c + 1 { PowerMonotone(c + 1, |d| - 1); }
    if |d| < c + 1 { PowerMonotone(|d|, c); }
  }

  /** A number with c * DIGIT_BIT + DIGIT_BIT - 1 bits has top digit at least BASE / 4. */
  lemma {:induction false} TopQuarter(d: seq<nat>, c: nat, n: nat)
    requires |d| > 0 && Digits(d) && d[|d| - 1] != 0
    requires n == c * DIGIT_BIT && Pow2(DIGIT_BIT - 2 + n) <= Value(d) < Pow2(DIGIT_BIT - 1 + n)
    ensures BASE <= 4 * d[|d| - 1]
  {
    var h, p := Pow2(DIGIT_BIT - 2), Power(c);
    assert h * p <= Value(d) < Power(c + 1) by { QuarterPowers(c, n); }
    assert |d| == c + 1 by {
      MulMonotone(1, h, p);
      DigitCount(d, c);
    }
    ValueBound(d[..c]);
    assert Value(d) < (d[c] + 1) * p by { MulDistrib(d[c], 1, p); }
    MulCancelLess(h, d[c] + 1, p);
    BaseIsLarge();
  }

  lemma {:induction false} NormalBits(r: nat, norm: nat, v: nat)
    requires r > 0 && Pow2(r - 1) <= v < Pow2(r)
    ensures Pow2(r - 1 + norm) <= v * Pow2(norm) < Pow2(r + norm)
  {
    Pow2Add(r - 1, norm);
    Pow2Add(r, norm);
    MulMonotone(Pow2(r - 1), v, Pow2(norm));
    MulMonotone(v + 1, Pow2(r), Pow2(norm));
    MulDistrib(v, 1, Pow2(norm));
  }

  lemma BitRest(r: nat, c: int, k: int)
    requires c == r / DIGIT_BIT && k == r % DIGIT_BIT
    ensures 0 <= c && 0 <= c * DIGIT_BIT && 0 <= k < DIGIT_BIT && r == c * DIGIT_BIT + k
  {
    DivMod(r, DIGIT_BIT);
    QuotientMonotone(0, r, DIGIT_BIT);
    MulNonneg(c, DIGIT_BIT);
  }

  /** The shift that leaves the top digit of y with DIGIT_BIT - 1 bits. */
  method ShiftCount(y: MpInt) returns (norm: nat, ghost c: nat, ghost n: nat)
    requires y.Trim() && y.used > 0
    ensures norm < DIGIT_BIT && n == c * DIGIT_BIT
    ensures Pow2(DIGIT_BIT - 2 + n) <= y.Mag() * Pow2(norm) < Pow2(DIGIT_BIT - 1 + n)
  {
    hide Pow2;
    var r := CountBits(y);
    TrimmedNegative(y);
    var k := r % DIGIT_BIT;
    BitRest(r, r / DIGIT_BIT, k);
    norm := if k < DIGIT_BIT - 1 then DIGIT_BIT - 1 - k else 0;
    c := r / DIGIT_BIT;
    n := c * DIGIT_BIT;
    NormalBits(r, norm, y.Mag());
    assert r + norm == DIGIT_BIT - 1 + n;
  }

  /** Shift both numbers so that the divisor is normalised. */
  method Normalise(x: MpInt, y: MpInt) returns (norm: nat)
    requires x.Trim() && x.ClearAbove() && x.sign == ZPOS && y.Trim() && y.sign == ZPOS && y.used > 0 && x != y
    modifies x, y
    ensures norm < DIGIT_BIT
    ensures x.Trim() && x.ClearAbove() && x.sign == ZPOS && x.Mag() == old(x.Mag()) * Pow2(norm)
    ensures y.sign == ZPOS && y.used > 0 && Normal(y, y.used - 1) && y.Mag() == old(y.Mag()) * Pow2(norm)
    ensures x.used <= old(x.used) + 1
  {
    ghost var c, n;
    norm, c, n := ShiftCount(y);
    NoDigits(norm);
    if norm > 0 {
      ShiftBoth(x, y, norm);
    }
    TopQuarterOf(y, c, n);
  }

  method ShiftBoth(x: MpInt, y: MpInt, norm: nat)
    requires x.Trim() && x.ClearAbove() && x.sign == ZPOS && y.Trim() && y.sign == ZPOS && x != y
    requires norm / DIGIT_BIT == 0
    modifies x, y
    ensures x.Trim() && x.ClearAbove() && x.sign == ZPOS && x.Mag() == old(x.Mag()) * Pow2(norm)
    ensures y.Trim() && y.sign == ZPOS && y.Mag() == old(y.Mag()) * Pow2(norm)
    ensures x.used <= old(x.used) + 1
  {
    MulNonneg(x.Mag(), Pow2(norm));
    MulNonneg(y.Mag(), Pow2(norm));
    Mul2d(x, norm, x);
    TrimmedNegative(x);
    Mul2d(y, norm, y);
    TrimmedNegative(y);
  }

  lemma NoDigits(norm: nat)
    requires norm < DIGIT_BIT
    ensures norm / DIGIT_BIT == 0 && (norm == 0 ==> Pow2(norm) == 1)
  {
    DivModUnique(norm, DIGIT_BIT, 0, norm);
  }

  lemma {:induction false} TopQuarterOf(y: MpInt, c: nat, n: nat)
    requires y.Trim() && n == c * DIGIT_BIT && Pow2(DIGIT_BIT - 2 + n) <= y.Mag() < Pow2(DIGIT_BIT - 1 + n)
    ensures y.used > 0 && Normal(y, y.used - 1)
  {
    TrimmedNegative(y);
    TopQuarter(y.dp[..y.used], c, n);
  }

  // --------------------------------------------------------------- the whole

  function Abs(x: int): nat { if x < 0 then -x else x }

  /** Quotient rounded towards zero. */
  function Quot(a: int, b: int): int
    requires b != 0
  {
    if (a < 0) == (b < 0) then Abs(a) / Abs(b) else -(Abs(a) / Abs(b))
  }

  /** The remainder that goes with it, with the sign of the dividend. */
  function Rem(a: int, b: int): int
    requires b != 0
  {
    if a < 0 then -(Abs(a) % Abs(b)) else Abs(a) % Abs(b)
  }

  /** Division with remainder: the equation, the size and the sign. */
  lemma QuotRem(a: int, b: int)
    requires b != 0
    ensures a == Quot(a, b) * b + Rem(a, b) && Abs(Rem(a, b)) < Abs(b)
    ensures Rem(a, b) != 0 ==> (Rem(a, b) < 0 <==> a < 0)
  {
    var q, r := Abs(a) / Abs(b), Abs(a) % Abs(b);
    DivMod(Abs(a), Abs(b));
    assert (-q) * b == -(q * b) && (-q) * -b == q * b && q * -b == -(q * b);
  }

  /** Nothing else satisfies those three conditions. */
  lemma QuotRemUnique(a: int, b: int, q: int, r: int)
    requires b != 0 && a == q * b + r && Abs(r) < Abs(b) && (r != 0 ==> (r < 0 <==> a < 0))
    ensures q == Quot(a, b) && r == Rem(a, b)
  {
    var s := if (a < 0) == (b < 0) then q else -q;
    assert (-q) * b == -(q * b) && (-q) * -b == q * b && q * -b == -(q * b);
    DivModUnique(Abs(a), Abs(b), s, Abs(r));
  }

  /** Scaling dividend and divisor scales the remainder only. */
  lemma Unscale(a: nat, b: nat, p: nat, q: nat, x: nat)
    requires 0 < b && 0 < p && a * p == q * (b * p) + x && x < b * p
    ensures q == a / b && x == a % b * p && x / p == a % b
  {
    var r := a - q * b;
    MulAssoc(q, b, p);
    MulDistrib(r, q * b, p);
    MulCancelLess(r, b, p);
    if r < 0 { MulMonotone(r, -1, p); }
    DivModUnique(a, b, q, r);
    DivModUnique(x, p, r, 0);
  }

  /** Steps 1 to 3 for |a| >= |b| > 0: the quotient and the scaled remainder. */
  method LongDivide(a: MpInt, b: MpInt) returns (q: MpInt, x: MpInt, norm: nat)
    requires a.Trim() && b.Trim() && b.used > 0 && 0 < b.Mag() <= a.Mag()
    ensures fresh(q) && fresh(x) && q != x && q.Valid() && q.sign == ZPOS && q.ClearAbove()
    ensures q.Mag() == a.Mag() / b.Mag()
    ensures x.Trim() && x.sign == ZPOS && x.ClearAbove() && x.Mag() / Pow2(norm) == a.Mag() % b.Mag()
  {
    hide Pow2, Power, Value;
    q := new MpInt.InitSize(a.used + 2);
    q.used := a.used + 2;
    x := InitCopy(a);
    var y := InitCopy(b);
    x.sign, y.sign := ZPOS, ZPOS;
    norm := LongDivision(x, y, q);
  }

  method LongDivision(x: MpInt, y: MpInt, q: MpInt) returns (norm: nat)
    requires x.Trim() && x.ClearAbove() && x.sign == ZPOS && y.Trim() && y.sign == ZPOS && y.used > 0
    requires x != y && q !in {x, y} && y.Mag() <= x.Mag() && 0 < y.Mag()
    requires q.used == x.used + 2 <= |q.dp| && MP_PREC <= |q.dp| && forall j :: 0 <= j < |q.dp| ==> q.dp[j] == 0
    modifies x, y, q`dp
    ensures q.Valid() && q.ClearAbove() && q.Mag() == old(x.Mag()) / old(y.Mag())
    ensures x.Trim() && x.sign == ZPOS && x.ClearAbove() && x.Mag() / Pow2(norm) == old(x.Mag()) % old(y.Mag())
  {
    hide Pow2, Value;
    ghost var av, bv := x.Mag(), y.Mag();
    norm := Normalise(x, y);
    ghost var p := Pow2(norm);
    assert y.Mag() <= x.Mag() by { MulMonotone(bv, av, p); }
    DigitsOrdered(x, y);
    var n, t := x.used - 1, y.used - 1;
    Lead(x, y, q, n, t);
    DivideLoop(x, y, q, n, t, av * p);
    Unscale(av, bv, p, q.Mag(), x.Mag());
  }

  /** mp_div: c = a / b and d = a mod b, either of which may be left out and may
      share storage with an operand. It fails exactly for b = 0. */
  method Div(a: MpInt, b: MpInt, c: MpInt?, d: MpInt?) returns (ok: bool)
    requires a.Trim() && b.Trim() && (c != null ==> c.Valid()) && (d != null ==> d.Valid())
    requires c == null || c != d
    modifies c, d
    ensures ok == (old(b.V()) != 0)
    ensures ok && c != null ==> c.Trim() && c.V() == Quot(old(a.V()), old(b.V()))
    ensures ok && d != null ==> d.Trim() && d.V() == Rem(old(a.V()), old(b.V()))
    ensures c != null && old(c.ClearAbove()) ==> c.ClearAbove()
    ensures d != null && old(d.ClearAbove()) ==> d.ClearAbove()
  {
    TrimmedNegative(a);
    TrimmedNegative(b);
    if b.used == 0 { return false; }
    var o := CmpMag(a, b);
    if o == LT {
      SmallDividend(a.V(), b.V());
      if d != null { Copy(a, d); }
      if c != null { Zero(c); }
      return true;
    }
    DivideLarge(a, b, c, d);
    return true;
  }

  /** A sign and a magnitude. */
  function Signed(s: Sign, m: int): int { if s == NEG then 0 - m else m }

  lemma SignsOfBoth(s: Sign, m: nat, t: Sign, n: nat)
    requires 0 < n <= m
    ensures m / n > 0 && Quot(Signed(s, m), Signed(t, n)) == Signed(if s == t then ZPOS else NEG, m / n)
    ensures m % n >= 0 && Rem(Signed(s, m), Signed(t, n)) == Signed(s, m % n)
  {
    DivMod(m, n);
    QuotientMonotone(n, m, n);
    DivModUnique(n, n, 1, 0);
  }

  /** The case |a| >= |b| > 0. */
  method DivideLarge(a: MpInt, b: MpInt, c: MpInt?, d: MpInt?)
    requires a.Trim() && b.Trim() && b.used > 0 && 0 < b.Mag() <= a.Mag()
    requires c == null || c != d
    modifies c, d
    ensures c != null ==> c.Trim() && c.ClearAbove() && c.V() == Quot(old(a.V()), old(b.V()))
    ensures d != null ==> d.Trim() && d.ClearAbove() && d.V() == Rem(old(a.V()), old(b.V()))
  {
    hide Pow2, Value, Abs;
    SignsOfBoth(a.sign, a.Mag(), b.sign, b.Mag());
    var neg := if a.sign == b.sign then ZPOS else NEG;
    var s := a.sign;
    var q, x, norm := LongDivide(a, b);
    x.sign := if x.used == 0 then ZPOS else s;
    if c != null { DeliverQuotient(q, neg, c); }
    if d != null { DeliverRemainder(x, norm, s, d); }
  }

  lemma SmallDividend(a: int, b: int)
    requires Abs(a) < Abs(b)
    ensures Quot(a, b) == 0 && Rem(a, b) == a
  {
    DivModUnique(Abs(a), Abs(b), 0, Abs(a));
  }

  /** Trim the quotient, hand it over and give it its sign. */
  method DeliverQuotient(q: MpInt, neg: Sign, c: MpInt)
    requires q.Valid() && q.ClearAbove() && q != c && q.Mag() > 0
    modifies q, c
    ensures c.Trim() && c.ClearAbove() && c.V() == Signed(neg, old(q.Mag()))
  {
    Clamp(q);
    TrimmedNegative(q);
    Exch(q, c);
    c.sign := neg;
  }

  /** Undo the normalisation of the remainder and hand it over. */
  method DeliverRemainder(x: MpInt, norm: nat, ghost s: Sign, d: MpInt)
    requires x.Trim() && x.ClearAbove() && x != d && (x.used > 0 ==> x.sign == s)
    modifies x, d
    ensures d.Trim() && d.ClearAbove() && d.V() == Signed(s, old(x.Mag()) / Pow2(norm))
  {
    Div2d(x, norm, x, null);
    TrimmedNegative(x);
    Exch(x, d);
  }
}
