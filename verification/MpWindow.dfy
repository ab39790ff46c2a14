/** The sliding window over the bits of an exponent: which powers the exponentiation
    multiplies, as a function of the exponent alone. */
module MpWindow {
  import opened Arith

  /** e * 2^x */
  function ShiftUp(e: nat, x: nat): nat {
    if x == 0 then e else ShiftUp(e, x - 1) + ShiftUp(e, x - 1)
  }

  lemma {:induction false} ShiftedIsProduct(e: nat, x: nat)
    ensures ShiftUp(e, x) == e * Pow2(x)
  {
    if x > 0 {
      ShiftedIsProduct(e, x - 1);
      MulAssoc(e, 2, Pow2(x - 1));
    }
  }

  /** The number of bits of x. */
  function BitLength(x: nat): nat {
    if x == 0 then 0 else 1 + BitLength(x / 2)
  }

  lemma {:induction false} BitLengthIs(x: nat, r: nat)
    requires if x == 0 then r == 0 else r > 0 && Pow2(r - 1) <= x < Pow2(r)
    ensures BitLength(x) == r
  {
    if x > 1 {
      assert r > 1 by { assert Pow2(0) == 1 && Pow2(1) == 2; }
      assert Pow2(r) == 2 * Pow2(r - 1) && Pow2(r - 1) == 2 * Pow2(r - 2);
      BitLengthIs(x / 2, r - 1);
    }
  }

  /** The window size for an exponent of x bits. */
  function WindowSize(x: nat): (w: nat)
    ensures 2 <= w <= 8
  {
    if x <= 7 then 2 else if x <= 36 then 3 else if x <= 140 then 4 else if x <= 450 then 5
    else if x <= 1303 then 6 else if x <= 3529 then 7 else 8
  }

  // ------------------------------------------------------------------ parts of x

  /** x without its n lowest bits. */
  function Top(x: nat, n: nat): nat {
    if n == 0 then x else Top(x, n - 1) / 2
  }

  /** The w bits of x below the top ones that n lowest bits leave. */
  function Field(x: nat, n: nat, w: nat): nat
    requires w <= n
  {
    if w == 0 then 0 else 2 * Field(x, n, w - 1) + Top(x, n - w) % 2
  }

  lemma {:induction false} TopIsQuotient(x: nat, n: nat)
    ensures Top(x, n) == x / Pow2(n)
  {
    if n == 0 {
      assert Pow2(0) == 1;
    } else {
      TopIsQuotient(x, n - 1);
      DivDiv(x, Pow2(n - 1), 2);
      assert Pow2(n) == Pow2(n - 1) * 2;
    }
  }

  lemma {:induction false} TopAndField(x: nat, n: nat, w: nat)
    requires w <= n
    ensures Top(x, n - w) == ShiftUp(Top(x, n), w) + Field(x, n, w) && Field(x, n, w) < Pow2(w)
  {
    if w > 0 { TopAndField(x, n, w - 1); }
  }

  /** The only way to split the upper bits so that the lower part has w bits. */
  lemma {:induction false} FieldUnique(x: nat, n: nat, w: nat, e: nat, f: nat)
    requires w <= n && Top(x, n - w) == ShiftUp(e, w) + f && f < Pow2(w)
    ensures e == Top(x, n) && f == Field(x, n, w)
  {
    TopAndField(x, n, w);
    ShiftedIsProduct(e, w);
    ShiftedIsProduct(Top(x, n), w);
    DivModUnique(Top(x, n - w), Pow2(w), e, f);
    DivModUnique(Top(x, n - w), Pow2(w), Top(x, n), Field(x, n, w));
  }

  // ------------------------------------------------------------------- the pairs

  /** A pair of exponents: g^d is multiplied by g^e. */
  datatype Factors = Factors(d: nat, e: nat)

  /** The last n bits of x one by one: each squares, and a one multiplies by g as well. */
  function Singles(x: nat, n: nat): set<Factors> {
    if n == 0 then {}
    else (if Top(x, n - 1) % 2 == 1 then {Factors(2 * Top(x, n), 1)} else {}) + Singles(x, n - 1)
  }

  lemma SinglesStep(x: nat, n: nat)
    requires n > 0
    ensures Top(x, n - 1) == 2 * Top(x, n) + Top(x, n - 1) % 2
    ensures Singles(x, n)
         == (if Top(x, n - 1) % 2 == 1 then {Factors(2 * Top(x, n), 1)} else {}) + Singles(x, n - 1)
  {
  }

  /** From the last n bits of x: a zero only squares; a one opens a window of win bits, which
      squares as often and multiplies once; what is too short for a window goes bit by bit. */
  function Windows(x: nat, n: nat, win: nat): set<Factors>
    requires win > 0
  {
    if n == 0 then {}
    else if Top(x, n - 1) % 2 == 0 then Windows(x, n - 1, win)
    else if n < win then Singles(x, n)
    else {Factors(ShiftUp(Top(x, n), win), Field(x, n, win))} + Windows(x, n - win, win)
  }

  /** Each cell of the table above the first, up to hi, from the one before. */
  function CellPairs(lo: nat, hi: nat): set<Factors> {
    set d | lo <= d < hi - 1 :: Factors(d, 1)
  }

  lemma CellPairsStep(lo: nat, hi: nat)
    requires lo < hi
    ensures CellPairs(lo, hi + 1) == CellPairs(lo, hi) + {Factors(hi - 1, 1)}
  {
  }

  /** The upper half of the table. */
  function TablePairs(half: nat): set<Factors> { CellPairs(half, 2 * half) }

  /** All that is multiplied for the exponent x. */
  function Pairs(x: nat): set<Factors> {
    var win := WindowSize(BitLength(x));
    TablePairs(Pow2(win - 1)) + Windows(x, BitLength(x), win)
  }

  lemma PairsFor(x: nat, win: nat)
    requires win == WindowSize(BitLength(x))
    ensures Pairs(x) == TablePairs(Pow2(win - 1)) + Windows(x, BitLength(x), win)
  {
  }

  /** Leading zeros change nothing. */
  lemma {:induction false} LeadingZeros(x: nat, n: nat, win: nat)
    requires x < Pow2(n) && win > 0
    ensures Windows(x, n, win) == Windows(x, BitLength(x), win)
  {
    if n > 0 {
      if x < Pow2(n - 1) {
        TopIsQuotient(x, n - 1);
        DivModUnique(x, Pow2(n - 1), 0, x);
        LeadingZeros(x, n - 1, win);
      } else {
        BitLengthIs(x, n);
      }
    }
  }

  /** A window that is full: e are the bits before it and f those in it. */
  lemma {:induction false} FullWindow(x: nat, n: nat, win: nat, e: nat, f: nat)
    requires 0 < win <= n && Top(x, n - 1) % 2 == 1 && Top(x, n - win) == ShiftUp(e, win) + f && f < Pow2(win)
    ensures Windows(x, n, win) == {Factors(ShiftUp(e, win), f)} + Windows(x, n - win, win)
  {
    FieldUnique(x, n, win, e, f);
  }

  /** The product of each pair is on the way to x: the exponents of a window add up to the
      bits read so far. */
  lemma {:induction false} WindowsOnTheWay(x: nat, n: nat, win: nat, q: Factors)
    requires win > 0 && q in Windows(x, n, win)
    ensures exists k: nat :: k < n && q.d + q.e == Top(x, k)
    decreases n
  {
    if Top(x, n - 1) % 2 == 0 {
      WindowsOnTheWay(x, n - 1, win, q);
    } else if n < win {
      SinglesOnTheWay(x, n, q);
    } else if q in Windows(x, n - win, win) {
      WindowsOnTheWay(x, n - win, win, q);
    } else {
      TopAndField(x, n, win);
      assert q.d + q.e == Top(x, n - win);
    }
  }

  lemma {:induction false} SinglesOnTheWay(x: nat, n: nat, q: Factors)
    requires q in Singles(x, n)
    ensures exists k: nat :: k < n && q.d + q.e == Top(x, k)
  {
    if q in Singles(x, n - 1) {
      SinglesOnTheWay(x, n - 1, q);
    } else {
      assert q.d + q.e == Top(x, n - 1);
    }
  }
}
