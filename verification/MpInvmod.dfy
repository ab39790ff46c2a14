/** fast_mp_invmod: modular inverse by the binary extended Euclidean algorithm, for
    an odd modulus. */
module MpInvmod {
  import opened Arith
  import opened Modular
  import opened MpDigits
  import opened MpInts
  import opened MpShift
  import opened MpDiv
  import opened MpMul
  import opened MpMontgomery
  import opened MpMod

  // ---------------------------------------------------------------- divisors

  ghost predicate Divides(d: int, x: int)
    requires d > 0
  {
    x % d == 0
  }

  /** u and v have the same common divisors as n and y. */
  ghost predicate SameDivisors(u: int, v: int, n: int, y: int) {
    forall d :: d > 0 ==> (Divides(d, u) && Divides(d, v) <==> Divides(d, n) && Divides(d, y))
  }

  ghost predicate Coprime(x: int, y: int) {
    forall d :: d > 1 ==> !(Divides(d, x) && Divides(d, y))
  }

  lemma DividesCong(d: int, x: int)
    requires d > 0
    ensures Divides(d, x) <==> Cong(x, 0, d)
  {
    DivModUnique(0, d, 0, 0);
  }

  /** A divisor of an odd number is odd. */
  lemma OddDivisor(d: int, n: int)
    requires d > 0 && n % 2 == 1 && Divides(d, n)
    ensures d % 2 == 1
  {
    var k := n / d;
    DivMod(n, d);
    if d == 2 * (d / 2) { MulAssoc(k, d / 2, 2); }
  }

  /** Halving one number keeps the odd common divisors. */
  lemma HalvedDivisors(h: int, v: int, n: int, y: int)
    requires SameDivisors(2 * h, v, n, y) && n % 2 == 1
    ensures SameDivisors(h, v, n, y)
  {
    forall d | d > 0 ensures Divides(d, h) && Divides(d, v) <==> Divides(d, n) && Divides(d, y) {
      DividesCong(d, h);
      DividesCong(d, 2 * h);
      if Divides(d, h) {
        CongAdd(h, 0, h, 0, d);
      }
      if Divides(d, 2 * h) && Divides(d, v) {
        OddDivisor(d, n);
        CancelTwo(h, d);
      }
    }
  }

  /** So does subtracting the other number. */
  lemma SubtractedDivisors(u: int, v: int, n: int, y: int)
    requires SameDivisors(u, v, n, y)
    ensures SameDivisors(u - v, v, n, y)
  {
    forall d | d > 0 ensures Divides(d, u - v) && Divides(d, v) <==> Divides(d, n) && Divides(d, y) {
      DividesCong(d, u);
      DividesCong(d, v);
      DividesCong(d, u - v);
      if Divides(d, v) {
        if Divides(d, u) { CongAdd(u, 0, v, 0, d); }
        if Divides(d, u - v) { CongAdd(u - v, 0, v, 0, d); }
      }
    }
  }

  lemma SwappedDivisors(u: int, v: int, n: int, y: int)
    requires SameDivisors(u, v, n, y)
    ensures SameDivisors(v, u, n, y)
  {
  }

  /** When one number has become zero, the other is the greatest common divisor. */
  lemma LastDivisor(v: int, n: int, y: int)
    requires v > 0 && SameDivisors(0, v, n, y)
    ensures v == 1 <==> Coprime(n, y)
  {
    assert Divides(v, 0) && Divides(v, v) by { DivModUnique(0, v, 0, 0); DivModUnique(v, v, 1, 0); }
    if v == 1 {
      forall d | d > 1 ensures !(Divides(d, n) && Divides(d, y)) {
        DivModUnique(1, d, 0, 1);
        assert !Divides(d, v);
      }
    }
  }

  /** y and a are interchangeable when they agree modulo n. */
  lemma CoprimeCong(n: int, y: int, a: int)
    requires n > 0 && y == a % n
    ensures Coprime(n, y) <==> Coprime(n, a)
  {
    var k := a / n;
    DivMod(a, n);
    forall d | d > 1 && Divides(d, n) ensures Divides(d, y) <==> Divides(d, a) {
      var j := n / d;
      DivMod(n, d);
      MulAssoc(k, j, d);
      ModAddMultiple(y, k * j, d);
    }
  }

  // ---------------------------------------------------------------- parity

  /** mp_iseven: zero does not count as even. */
  method IsEven(a: MpInt) returns (r: bool)
    requires a.Trim()
    ensures r <==> a.V() != 0 && a.Mag() % 2 == 0
  {
    LowBit(a);
    TrimmedNegative(a);
    r := a.used > 0 && a.dp[0] % 2 == 0;
  }

  /** mp_isodd */
  method IsOdd(a: MpInt) returns (r: bool)
    requires a.Trim()
    ensures r <==> a.Mag() % 2 == 1
  {
    LowBit(a);
    TrimmedNegative(a);
    r := a.used > 0 && a.dp[0] % 2 == 1;
  }

  // ------------------------------------------------------------- the steps

  lemma MagParity(v: int, m: int)
    requires m == v || m == -v
    ensures m % 2 == v % 2
  {
  }

  lemma OddMinusOdd(b: int, n: int)
    requires b % 2 == 1 && n % 2 == 1
    ensures (b - n) % 2 == 0
  {
  }

  /** Halving the magnitude of an even number halves the number. */
  lemma HalfOf(v: int, m: int, v': int, m': int)
    requires m == Abs(v) && m % 2 == 0 && m' == m / 2 && m' == Abs(v') && (m' > 0 ==> (v' < 0 <==> v < 0))
    ensures 2 * v' == v
  {
  }

  /** B = B / 2 modulo the odd number x: made even first if necessary. */
  method HalveModulo(B: MpInt, x: MpInt)
    requires B.Trim() && x.Trim() && B != x && x.V() % 2 == 1 && x.V() > 0
    modifies B
    ensures B.Trim() && Cong(2 * B.V(), old(B.V()), x.V())
  {
    hide Value, Cong;
    ghost var b, n := B.V(), x.V();
    MagParity(b, B.Mag());
    CongSelf(b, n);
    var odd := IsOdd(B);
    if odd {
      Minus(B, x, B);
      OddMinusOdd(b, n);
      MagParity(B.V(), B.Mag());
      CongFrom(b, b - n, 1, n);
      CongFlip(b, b - n, n);
    }
    HalveEven(B);
  }

  method HalveEven(B: MpInt)
    requires B.Trim() && B.Mag() % 2 == 0
    modifies B
    ensures B.Trim() && 2 * B.V() == old(B.V())
  {
    hide Value;
    ghost var e, m := B.V(), B.Mag();
    TrimmedNegative(B);
    Div2(B, B);
    TrimmedNegative(B);
    HalfOf(e, m, B.V(), B.Mag());
  }

  lemma CongSelf(b: int, n: int)
    requires n > 0
    ensures Cong(b, b, n)
  {
  }

  lemma CongFlip(a: int, b: int, n: int)
    requires n > 0 && Cong(a, b, n)
    ensures Cong(b, a, n)
  {
  }

  /** The coefficient goes with the number: B y = u modulo n. */
  ghost predicate Tracks(B: int, y: int, u: int, n: int) {
    n > 0 && Cong(B * y, u, n)
  }

  lemma HalvedTracks(b: int, b': int, y: int, h: int, n: int)
    requires Tracks(b, y, 2 * h, n) && n % 2 == 1 && Cong(2 * b', b, n)
    ensures Tracks(b', y, h, n)
  {
    CongMul(2 * b', b, y, y, n);
    MulAssoc(2, b', y);
    CongAdd(2 * (b' * y), 2 * h, 2 * h, 2 * h, n);
    CancelTwo(b' * y - h, n);
    CongAdd(b' * y - h, 0, h, h, n);
  }

  lemma SubtractedTracks(b: int, d: int, y: int, u: int, v: int, n: int)
    requires Tracks(b, y, u, n) && Tracks(d, y, v, n)
    ensures Tracks(b - d, y, u - v, n)
  {
    CongAdd(b * y, u, d * y, v, n);
    MulDistrib(b, -d, y);
    assert (-d) * y == -(d * y);
  }

  /** Steps 4 and 5: while u is even, halve it and its coefficient. */
  method HalveWhileEven(u: MpInt, B: MpInt, x: MpInt, ghost y: int, ghost v: int, ghost n: int)
    requires u.Trim() && B.Trim() && x.Trim() && u != B && u != x && B != x && u.V() > 0 && x.V() == n && n % 2 == 1
    requires Tracks(B.V(), y, u.V(), n) && SameDivisors(u.V(), v, n, y)
    modifies u, B
    ensures u.Trim() && B.Trim() && 0 < u.V() <= old(u.V()) && u.V() == Odd(old(u.V()))
    ensures Tracks(B.V(), y, u.V(), n) && SameDivisors(u.V(), v, n, y)
  {
    hide Value, Tracks, SameDivisors;
    TrimmedNegative(u);
    var even := IsEven(u);
    while even
      invariant u.Trim() && B.Trim() && 0 < u.V() <= old(u.V()) && Odd(u.V()) == Odd(old(u.V()))
      invariant even <==> u.V() % 2 == 0
      invariant Tracks(B.V(), y, u.V(), n) && SameDivisors(u.V(), v, n, y)
      decreases u.V()
    {
      HalveOnce(u, B, x, y, v, n);
      TrimmedNegative(u);
      even := IsEven(u);
    }
  }

  method HalveOnce(u: MpInt, B: MpInt, x: MpInt, ghost y: int, ghost v: int, ghost n: int)
    requires u.Trim() && B.Trim() && x.Trim() && u != B && u != x && B != x && u.V() > 0 && x.V() == n && n % 2 == 1
    requires Tracks(B.V(), y, u.V(), n) && SameDivisors(u.V(), v, n, y) && u.Mag() % 2 == 0
    modifies u, B
    ensures u.Trim() && B.Trim() && u.V() > 0 && old(u.V()) == 2 * u.V()
    ensures Tracks(B.V(), y, u.V(), n) && SameDivisors(u.V(), v, n, y)
  {
    hide Value, SameDivisors;
    ghost var b := B.V();
    HalveEven(u);
    HalveModulo(B, x);
    HalvedTracks(b, B.V(), y, u.V(), n);
    HalvedDivisors(u.V(), v, n, y);
  }

  // ----------------------------------------------------------------- the loop

  /** One round on numbers: both halving loops, then the subtraction. */
  function Odd(x: nat): nat
    decreases x
  {
    if x > 0 && x % 2 == 0 then Odd(x / 2) else x
  }

  function NextU(u: nat, v: nat): nat { if Odd(u) >= Odd(v) then Odd(u) - Odd(v) else Odd(u) }
  function NextV(u: nat, v: nat): nat { if Odd(u) >= Odd(v) then Odd(v) else Odd(v) - Odd(u) }

  /** u and v after k rounds. */
  function RoundU(u: nat, v: nat, k: nat): nat {
    if k == 0 then u else NextU(RoundU(u, v, k - 1), RoundV(u, v, k - 1))
  }

  function RoundV(u: nat, v: nat, k: nat): nat {
    if k == 0 then v else NextV(RoundU(u, v, k - 1), RoundV(u, v, k - 1))
  }

  /** u and v are on their way to the greatest common divisor of n and y, with
      coefficients B and D. */
  ghost predicate Euclid(u: MpInt, v: MpInt, B: MpInt, D: MpInt, x: MpInt, n: int, y: int)
    reads u, v, B, D, x
  {
    && u.Trim() && v.Trim() && B.Trim() && D.Trim() && x.Trim() && x.V() == n && n % 2 == 1
    && u !in {v, B, D, x} && v !in {B, D, x} && B !in {D, x} && D != x
    && u.V() >= 0 && v.V() > 0 && Tracks(B.V(), y, u.V(), n) && Tracks(D.V(), y, v.V(), n)
    && SameDivisors(u.V(), v.V(), n, y)
  }

  /** Steps 4 and 5. */
  method HalveBoth(u: MpInt, v: MpInt, B: MpInt, D: MpInt, x: MpInt, ghost n: int, ghost y: int)
    requires Euclid(u, v, B, D, x, n, y) && u.V() > 0
    modifies u, v, B, D
    ensures Euclid(u, v, B, D, x, n, y) && 0 < u.V() <= old(u.V()) && v.V() <= old(v.V())
    ensures u.V() == Odd(old(u.V())) && v.V() == Odd(old(v.V()))
  {
    hide Value, Tracks, SameDivisors, Odd;
    HalveWhileEven(u, B, x, y, v.V(), n);
    SwappedDivisors(u.V(), v.V(), n, y);
    HalveWhileEven(v, D, x, y, u.V(), n);
    SwappedDivisors(v.V(), u.V(), n, y);
  }

  /** u = u - v and B = B - D */
  method SubtractPair(u: MpInt, v: MpInt, B: MpInt, D: MpInt, ghost n: int, ghost y: int)
    requires u.Trim() && v.Trim() && B.Trim() && D.Trim() && u !in {v, B, D} && B !in {v, D}
    requires Tracks(B.V(), y, u.V(), n) && Tracks(D.V(), y, v.V(), n) && SameDivisors(u.V(), v.V(), n, y)
    modifies u, B
    ensures u.Trim() && B.Trim() && u.V() == old(u.V()) - v.V()
    ensures Tracks(B.V(), y, u.V(), n) && SameDivisors(u.V(), v.V(), n, y)
  {
    hide Tracks, SameDivisors;
    SubtractedTracks(B.V(), D.V(), y, u.V(), v.V(), n);
    SubtractedDivisors(u.V(), v.V(), n, y);
    Minus(u, v, u);
    Minus(B, D, B);
  }

  /** Step 6. */
  method SubtractSmaller(u: MpInt, v: MpInt, B: MpInt, D: MpInt, x: MpInt, ghost n: int, ghost y: int)
    requires Euclid(u, v, B, D, x, n, y) && u.V() > 0
    modifies u, v, B, D
    ensures Euclid(u, v, B, D, x, n, y) && u.V() + v.V() < old(u.V()) + old(v.V())
    ensures old(u.V()) >= old(v.V()) ==> u.V() == old(u.V()) - old(v.V()) && v.V() == old(v.V())
    ensures old(u.V()) < old(v.V()) ==> u.V() == old(u.V()) && v.V() == old(v.V()) - old(u.V())
  {
    hide Value, Tracks, SameDivisors;
    var o := Cmp(u, v);
    if o != LT {
      SubtractPair(u, v, B, D, n, y);
    } else {
      SwappedDivisors(u.V(), v.V(), n, y);
      SubtractPair(v, u, D, B, n, y);
      SwappedDivisors(v.V(), u.V(), n, y);
    }
  }

  /** Steps 4 to 7, until u is zero, which takes k rounds. */
  method EuclidLoop(u: MpInt, v: MpInt, B: MpInt, D: MpInt, x: MpInt, ghost n: int, ghost y: int) returns (ghost k: nat)
    requires Euclid(u, v, B, D, x, n, y) && u.V() > 0
    modifies u, v, B, D
    ensures v.Trim() && D.Trim() && v.V() > 0 && Tracks(D.V(), y, v.V(), n) && SameDivisors(0, v.V(), n, y)
    ensures RoundU(old(u.V()), old(v.V()), k) == 0 && RoundV(old(u.V()), old(v.V()), k) == v.V()
  {
    hide Value, Tracks, SameDivisors, Odd;
    ghost var u0, v0 := u.V(), v.V();
    var more := true;
    k := 0;
    while more
      invariant Euclid(u, v, B, D, x, n, y) && (more <==> u.V() > 0)
      invariant u.V() == RoundU(u0, v0, k) && v.V() == RoundV(u0, v0, k)
      decreases u.V() + v.V(), more
    {
      HalveBoth(u, v, B, D, x, n, y);
      SubtractSmaller(u, v, B, D, x, n, y);
      TrimmedNegative(u);
      more := u.used != 0;
      k := k + 1;
    }
  }

  /** While D is negative, add b. */
  method MakePositive(D: MpInt, b: MpInt, ghost y: int, ghost n: int)
    requires D.Trim() && b.Trim() && D != b && b.V() == n && n > 0 && Tracks(D.V(), y, 1, n)
    modifies D
    ensures D.Trim() && D.V() >= 0 && Tracks(D.V(), y, 1, n)
  {
    TrimmedNegative(D);
    while D.sign == NEG
      invariant D.Trim() && Tracks(D.V(), y, 1, n) && (D.sign == NEG <==> D.V() < 0)
      decreases -D.V()
    {
      ghost var d := D.V();
      Plus(D, b, D);
      TrimmedNegative(D);
      MulDistrib(d, n, y);
      CongFrom((d + n) * y, d * y, y, n);
    }
  }

  // ---------------------------------------------------------------- the whole

  /** B = 0 and D = 1 */
  method Coefficients() returns (B: MpInt, D: MpInt)
    ensures fresh(B) && fresh(D) && B != D && B.Trim() && D.Trim() && B.V() == 0 && D.V() == 1
  {
    BaseIsLarge();
    DivModUnique(1, BASE, 0, 1);
    B := new MpInt.Init();
    D := new MpInt.Init();
    Set(D, 1);
  }

  /** Steps 1 to 3. */
  method Prepare(b: MpInt, y: MpInt) returns (x: MpInt, u: MpInt, v: MpInt, B: MpInt, D: MpInt)
    requires b.Trim() && y.Trim() && b.V() % 2 == 1 && 0 < y.V() < b.V()
    ensures fresh(u) && fresh(v) && fresh(B) && fresh(D) && Euclid(u, v, B, D, x, b.V(), y.V()) && u.V() > 0
  {
    hide Value, SameDivisors, Tracks, Pow2;
    B, D := Coefficients();
    x := InitCopy(b);
    u := InitCopy(b);
    v := InitCopy(y);
    StartEuclid(b.V(), y.V());
  }

  /** The inverse of y modulo the odd number b > 1, if there is one. */
  method InvertResidue(b: MpInt, y: MpInt) returns (ok: bool, D: MpInt)
    requires b.Trim() && y.Trim() && b != y && b.V() % 2 == 1 && 0 < y.V() < b.V()
    ensures fresh(D) && D.Trim() && ok == Coprime(b.V(), y.V())
    ensures ok ==> D.V() >= 0 && Cong(D.V() * y.V(), 1, b.V())
  {
    hide Value, SameDivisors, Coprime, RoundU, RoundV;
    ghost var n, yv := b.V(), y.V();
    var x, u, v, B;
    x, u, v, B, D := Prepare(b, y);
    ghost var k := EuclidLoop(u, v, B, D, x, n, yv);
    LastDivisor(v.V(), n, yv);
    BaseIsLarge();
    TrimmedNegative(v);
    var o := CmpD(v, 1);
    ok := o == EQ;
    if ok { MakePositive(D, b, yv, n); }
  }

  lemma StartEuclid(n: int, y: int)
    requires n > 0
    ensures Tracks(0, y, n, n) && Tracks(1, y, y, n) && SameDivisors(n, y, n, y)
  {
    CongFrom(n, 0, 1, n);
  }

  /** fast_mp_invmod. It succeeds exactly when b is odd and prime to a. For a >= 0 the
      result is the inverse of a; for a < 0 it gets the sign of a on top of being
      the inverse of the residue, and then a * c = -1 instead. */
  method FastInvmod(a: MpInt, b: MpInt, c: MpInt) returns (ok: bool)
    requires a.Trim() && b.Trim() && c.Valid() && b.V() >= 0
    requires b.V() % 2 == 1 ==> a.V() % b.V() != 0
    modifies c
    ensures ok == (old(b.V()) % 2 == 1 && Coprime(old(b.V()), old(a.V())))
    ensures ok ==> c.Trim() && (old(a.V()) >= 0 ==> c.V() >= 0)
    ensures ok ==> Cong(old(a.V()) * c.V(), if old(a.V()) >= 0 then 1 else -1, old(b.V()))
  {
    hide Coprime, Pow2;
    TrimmedNegative(a);
    TrimmedNegative(b);
    var even := IsEven(b);
    if even { return false; }
    ghost var av, n := a.V(), b.V();
    var y := new MpInt.Init();
    ok := Mod(a, b, y);
    if !ok { return; }
    DivMod(av, n);
    CoprimeCong(n, y.V(), av);
    var D;
    ok, D := InvertResidue(b, y);
    if ok {
      var neg := a.sign;
      InverseOfResidue(av, n, y.V(), D.V());
      DeliverSigned(D, neg, c);
    }
  }

  /** Hand a positive number over with the given sign. */
  method DeliverSigned(D: MpInt, neg: Sign, c: MpInt)
    requires D.Trim() && D.V() > 0 && D != c
    modifies D, c
    ensures c.Trim() && c.V() == if neg == NEG then -old(D.V()) else old(D.V())
  {
    TrimmedNegative(D);
    Exch(D, c);
    c.sign := neg;
  }

  /** An inverse of the residue is an inverse of the number. */
  lemma InverseOfResidue(a: int, n: int, y: int, d: int)
    requires n > 1 && y == a % n && d >= 0 && Cong(d * y, 1, n)
    ensures d > 0 && Cong(a * d, 1, n) && Cong(a * -d, -1, n)
  {
    CongMod(a, n);
    CongMul(d, d, a, y, n);
    if d == 0 {
      DivModUnique(0, n, 0, 0);
      DivModUnique(1, n, 0, 1);
    }
    CongAdd(0, 0, a * d, 1, n);
    assert a * -d == 0 - a * d;
  }

  // ------------------------------------------------------- multiples of b

  /** EuclidLoop ends after the first number of rounds that brings u to zero. For a multiple
      of b the residue is zero, and none does: the loop does not end. */
  lemma {:induction false} MultiplesNeverEnd(n: nat, k: nat)
    requires n % 2 == 1
    ensures RoundU(n, 0, k) == n && RoundV(n, 0, k) == 0
  {
    if k > 0 { MultiplesNeverEnd(n, k - 1); }
  }
}
