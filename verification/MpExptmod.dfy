/** mp_exptmod_fast and s_mp_exptmod: a sliding window over the bits of the exponent,
    most significant first, on top of one of the reductions. mp_sqr is taken as mp_mul
    of a number with itself. */
module MpExptmod {
  import opened Arith
  import opened Modular
  import opened MpDigits
  import opened MpInts
  import opened MpSize
  import opened MpToomParts
  import opened MpMul
  import opened MpMontgomery
  import opened MpMod
  import opened MpReduce2k
  import opened MpWindow
  import opened MpRedux

  /** res = res^2, count times */
  method Square(res: MpInt, p: MpInt, red: Reducer, count: nat, ghost g: int, ghost e: nat)
    requires Modulus(p, red) && HoldsPower(res, g, e, p, red) && Apart(res, p, red)
    modifies res
    ensures HoldsPower(res, g, ShiftUp(e, count), p, red)
  {
    for x := 0 to count
      invariant HoldsPower(res, g, ShiftUp(e, x), p, red)
    {
      SquareOnce(res, p, red, g, ShiftUp(e, x));
    }
  }

  // ------------------------------------------------------------------- table

  /** Cells lo to hi are initialised, each with the form of a power of g. */
  ghost predicate Cells(m: map<nat, MpInt>, lo: nat, hi: nat, g: int, p: MpInt, red: Reducer)
    reads m.Values, p
  {
    forall x :: lo <= x < hi ==> x in m && HoldsPower(m[x], g, x, p, red)
  }

  /** The cells mp_exptmod_fast initialises: M[1] and the upper half. */
  ghost predicate Table(m: map<nat, MpInt>, win: nat, g: int, p: MpInt, red: Reducer)
    reads m.Values, p
    requires win >= 2
  {
    1 in m && HoldsPower(m[1], g, 1, p, red) && Cells(m, Pow2(win - 1), Pow2(win), g, p, red)
  }

  lemma CellsAdd(m: map<nat, MpInt>, lo: nat, hi: nat, g: int, p: MpInt, red: Reducer, cell: MpInt)
    requires Cells(m, lo, hi, g, p, red) && HoldsPower(cell, g, hi, p, red)
    ensures Cells(m[hi := cell], lo, hi + 1, g, p, red)
  {
    var m' := m[hi := cell];
    forall x | lo <= x < hi + 1 ensures x in m' && HoldsPower(m'[x], g, x, p, red) {
      if x != hi { assert x in m && HoldsPower(m[x], g, x, p, red); }
    }
  }

  /** M[2^(win-1)] by squaring M[1] win - 1 times. */
  method TopCell(m1: MpInt, win: nat, p: MpInt, red: Reducer, ghost g: int) returns (top: MpInt)
    requires Modulus(p, red) && HoldsPower(m1, g, 1, p, red) && win >= 2
    ensures fresh(top) && HoldsPower(top, g, Pow2(win - 1), p, red)
  {
    hide Pow2;
    top := InitCopy(m1);
    Square(top, p, red, win - 1, g, 1);
    ShiftedIsProduct(1, win - 1);
  }

  /** M[x] = M[x - 1] * M[1] */
  method NextCell(prev: MpInt, m1: MpInt, p: MpInt, red: Reducer, ghost g: int, ghost e: nat)
    returns (strayed: bool, cell: MpInt)
    requires Modulus(p, red) && HoldsPower(prev, g, e, p, red) && HoldsPower(m1, g, 1, p, red)
    ensures fresh(cell) && strayed == StraysOn({Factors(e, 1)}, g, p, red)
    ensures !strayed ==> HoldsPower(cell, g, e + 1, p, red)
  {
    cell := new MpInt.Init();
    strayed := MulRedux(prev, m1, cell, p, red, g, e, 1);
  }

  method AddCell(m: map<nat, MpInt>, half: nat, x: nat, p: MpInt, red: Reducer, ghost g: int)
    returns (strayed: bool, m': map<nat, MpInt>)
    requires Modulus(p, red) && 1 in m && HoldsPower(m[1], g, 1, p, red) && Cells(m, half, x, g, p, red) && 1 < half < x
    ensures strayed == StraysOn({Factors(x - 1, 1)}, g, p, red)
    ensures x in m' && fresh(m'[x]) && m' == m[x := m'[x]]
    ensures !strayed ==> HoldsPower(m'[1], g, 1, p, red) && Cells(m', half, x + 1, g, p, red)
  {
    hide HoldsPower, StraysOn;
    assert x - 1 in m && HoldsPower(m[x - 1], g, x - 1, p, red);
    var cell;
    strayed, cell := NextCell(m[x - 1], m[1], p, red, g, x - 1);
    m' := m[x := cell];
    if !strayed { CellsAdd(m, half, x, g, p, red, cell); }
  }

  /** The upper half of the table. */
  method BuildTable(m1: MpInt, win: nat, p: MpInt, red: Reducer, ghost g: int)
    returns (strayed: bool, m: map<nat, MpInt>)
    requires Modulus(p, red) && HoldsPower(m1, g, 1, p, red) && win >= 2
    ensures !strayed ==> Table(m, win, g, p, red)
    ensures forall x :: x in m ==> m[x] == m1 || fresh(m[x])
    ensures strayed == StraysOn(TablePairs(Pow2(win - 1)), g, p, red)
  {
    hide Value, Power, HoldsPower, StraysOn;
    var top := TopCell(m1, win, p, red, g);
    HalfIsMore(win);
    var half := Pow2(win - 1);
    m := map[1 := m1];
    CellsAdd(m, half, half, g, p, red, top);
    m := m[half := top];
    strayed, m := FillTable(m, half, 2 * half, p, red, g);
  }

  /** The cells above M[half]. */
  method FillTable(start: map<nat, MpInt>, half: nat, end: nat, p: MpInt, red: Reducer, ghost g: int)
    returns (strayed: bool, m: map<nat, MpInt>)
    requires Modulus(p, red) && 1 in start && HoldsPower(start[1], g, 1, p, red) && 1 < half && half + 1 < end
    requires start.Keys == {1, half} && Cells(start, half, half + 1, g, p, red)
    ensures !strayed ==> 1 in m && HoldsPower(m[1], g, 1, p, red) && Cells(m, half, end, g, p, red)
    ensures forall x :: x in m ==> (x in start && m[x] == start[x]) || fresh(m[x])
    ensures strayed == StraysOn(CellPairs(half, end), g, p, red)
  {
    hide HoldsPower, Pow2, StraysOn;
    m, strayed := start, false;
    StraysOnNone(g, p, red);
    assert CellPairs(half, half + 1) == {};
    for x := half + 1 to end
      invariant 1 in m && m[1] == start[1] && forall k :: k in m ==> (k in start && m[k] == start[k]) || fresh(m[k])
      invariant HoldsPower(m[1], g, 1, p, red) && Cells(m, half, x, g, p, red) && !strayed
      invariant !StraysOn(CellPairs(half, x), g, p, red)
    {
      CellPairsStep(half, x);
      StraysOnUnion(CellPairs(half, x), {Factors(x - 1, 1)}, g, p, red);
      strayed, m := AddCell(m, half, x, p, red, g);
      if strayed {
        StraysOnMore(CellPairs(half, x + 1), CellPairs(half, end), g, p, red);
        return;
      }
    }
  }

  lemma HalfIsMore(win: nat)
    requires win >= 2
    ensures 1 < Pow2(win - 1) && Pow2(win - 1) + 1 < Pow2(win)
  {
    assert Pow2(win) == 2 * Pow2(win - 1) && Pow2(win - 1) == 2 * Pow2(win - 2);
  }

  // -------------------------------------------------------- exponent bits

  /** The bits of the exponent x read so far: all but the lowest rem bits of the
      digits from k up. */
  function Prefix(x: seq<nat>, k: nat, rem: nat): int
    requires k <= |x|
  {
    Value(x[k..]) / Pow2(rem)
  }

  /** The buffer holds the rem unread bits of digit k at the top of a digit. */
  ghost predicate Buffered(x: seq<nat>, k: nat, rem: nat, buf: nat) {
    k <= |x| && rem <= DIGIT_BIT && buf % BASE == Value(x[k..]) % Pow2(rem) * Pow2(DIGIT_BIT - rem)
  }

  /** How many bits are unread. */
  function Unread(k: nat, rem: nat): nat { k * DIGIT_BIT + rem }

  lemma {:induction false} PrefixIsTop(x: seq<nat>, k: nat, rem: nat)
    requires k <= |x| && Digits(x)
    ensures Prefix(x, k, rem) == Top(Value(x), Unread(k, rem))
  {
    hide Value, Power;
    var v, t := Value(x), Value(x[k..]);
    ValueSplit(x, k);
    ValueBound(x[..k]);
    DivModUnique(v, Power(k), t, Value(x[..k]));
    PowerIsPow2(k);
    Pow2Add(k * DIGIT_BIT, rem);
    DivDiv(v, Power(k), Pow2(rem));
    TopIsQuotient(v, Unread(k, rem));
  }

  lemma {:induction false} LoadDigit(x: seq<nat>, k: nat)
    requires k < |x| && Digits(x)
    ensures Buffered(x, k, DIGIT_BIT, x[k]) && Prefix(x, k, DIGIT_BIT) == Prefix(x, k + 1, 0)
  {
    ValueLow(x[k..]);
    assert x[k..][1..] == x[k + 1..];
    var h := Value(x[k + 1..]);
    DivModUnique(Value(x[k..]), BASE, h, x[k]);
    DivModUnique(x[k], BASE, 0, x[k]);
    assert Pow2(0) == 1;
  }

  /** The top bit of the buffer is the next bit of the exponent. */
  lemma {:induction false} ReadBit(x: seq<nat>, k: nat, rem: nat, buf: nat, y: int, buf': int)
    requires Buffered(x, k, rem, buf) && rem > 0 && y == buf / Pow2(DIGIT_BIT - 1) % 2 && buf' == Wrap(2 * buf)
    ensures 0 <= y <= 1 && Prefix(x, k, rem - 1) == 2 * Prefix(x, k, rem) + y && Buffered(x, k, rem - 1, buf')
  {
    hide Digits;
    var v, q, s := Value(x[k..]), Pow2(rem - 1), Pow2(DIGIT_BIT - rem);
    assert q * s == Pow2(DIGIT_BIT - 1) by { Pow2Add(rem - 1, DIGIT_BIT - rem); }
    assert Pow2(rem) == 2 * q && Pow2(DIGIT_BIT - (rem - 1)) == 2 * s && BASE == 2 * (q * s);
    var s2 := Pow2(DIGIT_BIT - (rem - 1));
    assert q * s2 == BASE by { Pow2Add(rem - 1, DIGIT_BIT - (rem - 1)); }
    TopBitOf(v, q, s, s2, buf, y, buf');
  }

  lemma {:induction false} TopBitOf(v: nat, q: nat, s: nat, s2: nat, buf: nat, y: int, buf': int)
    requires q > 0 && s > 0 && 2 * (q * s) == BASE && s2 == 2 * s && q * s2 == BASE
    requires buf % BASE == v % (2 * q) * s && y == buf / (q * s) % 2 && buf' == Wrap(2 * buf)
    ensures 0 <= y <= 1 && v / q == 2 * (v / (2 * q)) + y && buf' % BASE == v % q * s2
  {
    var r := v % (2 * q);
    DivMod(v, 2 * q);
    var t := r / q;
    QuotientBetween(r, q, 0, 2);
    TopBit(buf, r, q, s, t, y);
    SplitBit(v, q, r, t);
    assert 0 <= r % q < q by { DivMod(r, q); }
    assert Wrap(2 * buf) % BASE == r % q * s2 by { NextBuffer(buf, r % q, q, s2); }
  }

  lemma SplitBit(v: nat, q: nat, r: int, t: int)
    requires q > 0 && r == v % (2 * q) && t == r / q
    ensures v / q == 2 * (v / (2 * q)) + t && v % q == r % q
  {
    var c := v / (2 * q);
    DivMod(v, 2 * q);
    DivMod(r, q);
    MulAssoc(c, 2, q);
    MulDistrib(2 * c, t, q);
    DivModUnique(v, q, 2 * c + t, r % q);
  }

  lemma TopBit(buf: nat, r: nat, q: nat, s: nat, t: nat, y: int)
    requires q > 0 && s > 0 && 2 * (q * s) == BASE && r < 2 * q && t == r / q && 0 <= t <= 1
    requires buf % BASE == r * s && y == buf / (q * s) % 2
    ensures y == t && Cong(2 * buf, r % q * (2 * s), BASE)
  {
    hide Pow2;
    var h, l, c := q * s, r % q, buf / BASE;
    DivMod(r, q);
    DivMod(buf, BASE);
    MulSum(r, t * q, l, s);
    MulAssoc(t, q, s);
    MulMonotone(l + 1, q, s);
    MulDistrib(l, 1, s);
    MulNonneg(l, s);
    assert buf == (2 * c + t) * h + l * s by {
      MulAssoc(c, 2, h);
      MulDistrib(2 * c, t, h);
    }
    DivModUnique(buf, h, 2 * c + t, l * s);
    DivModUnique(2 * c + t, 2, c, t);
    assert 2 * buf == l * (2 * s) + (2 * c + t) * BASE by {
      MulAssoc(2 * c + t, h, 2);
      MulAssoc(l, s, 2);
    }
    CongFrom(2 * buf, l * (2 * s), 2 * c + t, BASE);
  }

  lemma {:induction false} NextBuffer(buf: nat, l: int, q: nat, s2: nat)
    requires q * s2 == BASE && 0 <= l < q && Cong(2 * buf, l * s2, BASE)
    ensures Wrap(2 * buf) % BASE == l * s2
  {
    WrapCong(2 * buf, DIGIT_BIT);
    MulNonneg(l, s2);
    MulMonotone(l + 1, q, s2);
    MulDistrib(l, 1, s2);
    CongSmall(l * s2, Wrap(2 * buf), BASE);
  }

  // ------------------------------------------------------------- the window

  /** The window state: w are the bitcpy bits collected so far, kept at the top of
      bitbuf, and e the exponent before them. */
  ghost predicate Window(mode: int, bitcpy: nat, bitbuf: nat, win: nat, e: nat, w: nat) {
    && 0 <= mode <= 2 && bitcpy < win && (mode == 2 <==> bitcpy > 0) && (mode == 0 ==> e == 0)
    && (bitcpy == 0 ==> w == 0) && (bitcpy > 0 ==> Pow2(bitcpy - 1) <= w) && w < Pow2(bitcpy)
    && bitbuf == ShiftUp(w, win - bitcpy)
  }

  /** The exponent those stand for. */
  function Exponent(bitcpy: nat, e: nat, w: nat): nat { ShiftUp(e, bitcpy) + w }

  /** All but the last n bits of x are accounted for, and a window in progress began with a
      one. */
  ghost predicate Reading(x: nat, n: nat, bitcpy: nat, e: nat, w: nat) {
    Top(x, n) == Exponent(bitcpy, e, w) && (bitcpy > 0 ==> Top(x, n + bitcpy - 1) % 2 == 1)
  }

  /** A zero outside a window only squares. */
  lemma SkipBit(x: nat, n: nat, e: nat, win: nat)
    requires Reading(x, n + 1, 0, e, 0) && Top(x, n) % 2 == 0 && win > 0
    ensures Reading(x, n, 0, e + e, 0) && Windows(x, n + 1, win) == Windows(x, n, win)
  {
  }

  /** A bit goes into a window. */
  lemma FillBit(x: nat, n: nat, bitcpy: nat, e: nat, w: nat, y: nat)
    requires Reading(x, n + 1, bitcpy, e, w) && y == Top(x, n) % 2 && (bitcpy == 0 ==> w == 0 && y == 1)
    ensures Reading(x, n, bitcpy + 1, e, 2 * w + y)
  {
  }

  /** A full window is used up. */
  lemma {:induction false} CloseBit(x: nat, n: nat, win: nat, e: nat, w: nat)
    requires Reading(x, n, win, e, w) && w < Pow2(win) && win > 0
    ensures Windows(x, n + win, win) == {Factors(ShiftUp(e, win), w)} + Windows(x, n, win)
    ensures Reading(x, n, 0, ShiftUp(e, win) + w, 0)
  {
    FullWindow(x, n + win, win, e, w);
  }

  lemma ModulusPositive(p: MpInt, red: Reducer)
    requires Modulus(p, red)
    ensures p.Trim() && p.V() > 0
  {
  }

  lemma {:induction false} ShiftedOne(e: nat, x: nat)
    ensures ShiftUp(e, x + 1) == ShiftUp(2 * e, x)
  {
    if x > 0 { ShiftedOne(e, x - 1); }
  }

  lemma {:induction false} ShiftedSum(d: nat, e: nat, x: nat)
    ensures ShiftUp(d + e, x) == ShiftUp(d, x) + ShiftUp(e, x)
  {
    if x > 0 { ShiftedSum(d, e, x - 1); }
  }

  lemma {:induction false} ShiftedTwice(e: nat, x: nat, y: nat)
    ensures ShiftUp(ShiftUp(e, x), y) == ShiftUp(e, x + y)
  {
    if y > 0 { ShiftedTwice(e, x, y - 1); }
  }

  lemma {:induction false} ShiftedPow2(x: nat)
    ensures ShiftUp(1, x) == Pow2(x) && ShiftUp(0, x) == 0
  {
    if x > 0 { ShiftedPow2(x - 1); }
  }

  /** bitbuf |= y << (winsize - ++bitcpy); the bit is still clear, so this adds. */
  function AddBit(bitbuf: nat, bitcpy: nat, win: nat, y: nat): nat
    requires bitcpy < win
  {
    bitbuf + ShiftUp(y, win - (bitcpy + 1))
  }

  lemma {:induction false} WindowGrows(bitcpy: nat, bitbuf: nat, win: nat, e: nat, w: nat, y: nat)
    requires bitcpy < win && bitbuf == ShiftUp(w, win - bitcpy) && w < Pow2(bitcpy) && y <= 1
    requires (bitcpy == 0 ==> w == 0 && y == 1) && (bitcpy > 0 ==> Pow2(bitcpy - 1) <= w)
    ensures AddBit(bitbuf, bitcpy, win, y) == ShiftUp(2 * w + y, win - (bitcpy + 1))
    ensures Pow2(bitcpy) <= 2 * w + y < Pow2(bitcpy + 1)
    ensures Exponent(bitcpy + 1, e, 2 * w + y) == 2 * Exponent(bitcpy, e, w) + y
  {
    ShiftedOne(w, win - (bitcpy + 1));
    ShiftedSum(2 * w, y, win - (bitcpy + 1));
  }

  /** A full window: square winsize times and multiply by a table entry. */
  method CloseWindow(res: MpInt, m: map<nat, MpInt>, bitbuf: nat, win: nat, p: MpInt, red: Reducer, ghost g: int,
                     ghost e: nat)
    returns (strayed: bool)
    requires Modulus(p, red) && win >= 2 && Table(m, win, g, p, red) && res !in m.Values && Apart(res, p, red)
    requires HoldsPower(res, g, e, p, red) && Pow2(win - 1) <= bitbuf < Pow2(win)
    modifies res
    ensures strayed == StraysOn({Factors(ShiftUp(e, win), bitbuf)}, g, p, red)
    ensures res.Valid() && (!strayed ==> HoldsPower(res, g, ShiftUp(e, win) + bitbuf, p, red))
  {
    hide Pow2, StraysOn;
    Square(res, p, red, win, g, e);
    assert bitbuf in m && HoldsPower(m[bitbuf], g, bitbuf, p, red);
    strayed := MulRedux(res, m[bitbuf], res, p, red, g, ShiftUp(e, win), bitbuf);
  }

  /** What happens with the next bit y of the exponent. */
  method TakeBit(y: nat, mode: int, bitcpy: nat, bitbuf: nat, win: nat, res: MpInt, m: map<nat, MpInt>, p: MpInt,
                 red: Reducer, ghost g: int, ghost e: nat, ghost w: nat, ghost x: nat, ghost n: nat)
    returns (strayed: bool, mode': int, bitcpy': nat, bitbuf': nat, ghost e': nat, ghost w': nat)
    requires Window(mode, bitcpy, bitbuf, win, e, w) && Ready(res, m, win, p, red, g, e)
    requires Reading(x, n + 1, bitcpy, e, w) && y == Top(x, n) % 2
    modifies res
    ensures !strayed ==> Window(mode', bitcpy', bitbuf', win, e', w') && Ready(res, m, win, p, red, g, e')
    ensures !strayed ==> Reading(x, n, bitcpy', e', w')
    ensures strayed ==> StraysOn(Windows(x, n + 1 + bitcpy, win), g, p, red)
    ensures !strayed ==>
      StraysOn(Windows(x, n + 1 + bitcpy, win), g, p, red) == StraysOn(Windows(x, n + bitcpy', win), g, p, red)
  {
    hide Modulus, HoldsPower, Cells, StraysOn, Windows, Top, Reading;
    strayed, mode', bitcpy', bitbuf', e', w' := false, mode, bitcpy, bitbuf, e, w;
    if mode != 2 && y == 0 { SkipBit(x, n, e, win); }
    if mode == 0 && y == 0 {
      return;
    }
    if mode == 1 && y == 0 {
      SquareOnce(res, p, red, g, e);
      e' := e + e;
      return;
    }
    strayed, mode', bitcpy', bitbuf', e', w' := FillWindow(y, bitcpy, bitbuf, win, res, m, p, red, g, e, w, x, n);
  }

  /** A full window, as part of reading the exponent x. */
  method UseWindow(res: MpInt, m: map<nat, MpInt>, bitbuf: nat, win: nat, p: MpInt, red: Reducer, ghost g: int,
                   ghost e: nat, ghost x: nat, ghost n: nat)
    returns (strayed: bool)
    requires Ready(res, m, win, p, red, g, e) && Reading(x, n, win, e, bitbuf) && Pow2(win - 1) <= bitbuf < Pow2(win)
    modifies res
    ensures !strayed ==> Ready(res, m, win, p, red, g, ShiftUp(e, win) + bitbuf)
    ensures Reading(x, n, 0, ShiftUp(e, win) + bitbuf, 0)
    ensures strayed ==> StraysOn(Windows(x, n + win, win), g, p, red)
    ensures !strayed ==> StraysOn(Windows(x, n + win, win), g, p, red) == StraysOn(Windows(x, n, win), g, p, red)
  {
    hide Modulus, HoldsPower, Cells, StraysOn, Windows, Top, Reading, ShiftUp, Pow2;
    ModulusPositive(p, red);
    CloseBit(x, n, win, e, bitbuf);
    StraysOnUnion({Factors(ShiftUp(e, win), bitbuf)}, Windows(x, n, win), g, p, red);
    strayed := CloseWindow(res, m, bitbuf, win, p, red, g, e);
  }

  /** The bit goes into the window, which is used up when it is full. */
  method FillWindow(y: nat, bitcpy: nat, bitbuf: nat, win: nat, res: MpInt, m: map<nat, MpInt>, p: MpInt, red: Reducer,
                    ghost g: int, ghost e: nat, ghost w: nat, ghost x: nat, ghost n: nat)
    returns (strayed: bool, mode': int, bitcpy': nat, bitbuf': nat, ghost e': nat, ghost w': nat)
    requires Reading(x, n + 1, bitcpy, e, w) && y == Top(x, n) % 2
    requires bitcpy < win && bitbuf == ShiftUp(w, win - bitcpy) && w < Pow2(bitcpy)
    requires (bitcpy == 0 ==> w == 0 && y == 1) && (bitcpy > 0 ==> Pow2(bitcpy - 1) <= w)
    requires Ready(res, m, win, p, red, g, e)
    modifies res
    ensures !strayed ==> Window(mode', bitcpy', bitbuf', win, e', w') && Ready(res, m, win, p, red, g, e')
    ensures !strayed ==> Reading(x, n, bitcpy', e', w')
    ensures strayed ==> StraysOn(Windows(x, n + 1 + bitcpy, win), g, p, red)
    ensures !strayed ==>
      StraysOn(Windows(x, n + 1 + bitcpy, win), g, p, red) == StraysOn(Windows(x, n + bitcpy', win), g, p, red)
  {
    hide Modulus, HoldsPower, Cells, StraysOn, Windows, Top, Reading;
    FillBit(x, n, bitcpy, e, w, y);
    WindowGrows(bitcpy, bitbuf, win, e, w, y);
    strayed, bitbuf', bitcpy', mode' := false, AddBit(bitbuf, bitcpy, win, y), bitcpy + 1, 2;
    e', w' := e, 2 * w + y;
    if bitcpy' == win {
      strayed := UseWindow(res, m, bitbuf', win, p, red, g, e, x, n);
      e', w' := ShiftUp(e, win) + w', 0;
      bitcpy', bitbuf', mode' := 0, 0, 1;
      ShiftedPow2(win);
    }
  }

  /** The top of the main loop: fetch a digit if the buffer is empty, then a bit. */
  method NextBit(x: seq<nat>, k: nat, rem: nat, buf: nat) returns (more: bool, y: nat, k': nat, rem': nat, buf': nat)
    requires Digits(x) && Buffered(x, k, rem, buf) && rem < DIGIT_BIT
    ensures more == (rem > 0 || k > 0)
    ensures more ==> Buffered(x, k', rem', buf') && rem' < DIGIT_BIT && Unread(k, rem) == Unread(k', rem') + 1
    ensures more ==> y == Top(Value(x), Unread(k', rem')) % 2
    ensures more ==> k' < k || (k' == k && rem' < rem)
    ensures !more ==> Unread(k, rem) == 0
  {
    PrefixIsTop(x, k, rem);
    more, y, k', rem', buf' := true, 0, k, rem, buf;
    if rem == 0 {
      if k == 0 {
        return false, 0, k, rem, buf;
      }
      k' := k - 1;
      LoadDigit(x, k');
      buf' := x[k'];
      rem' := DIGIT_BIT;
    }
    var bit := buf' / Pow2(DIGIT_BIT - 1) % 2;
    ReadBit(x, k', rem', buf', bit, Wrap(2 * buf'));
    y, buf', rem' := bit, Wrap(2 * buf'), rem' - 1;
    PrefixIsTop(x, k', rem');
    OneLess(k, rem, k', rem');
  }

  lemma OneLess(k: nat, rem: nat, k': nat, rem': nat)
    requires (k' == k && rem == rem' + 1) || (k == k' + 1 && rem == 0 && rem' == DIGIT_BIT - 1)
    ensures Unread(k, rem) == Unread(k', rem') + 1
  {
    MulDistrib(k', 1, DIGIT_BIT);
  }

  /** The exponent is read down to bit rem of digit k, and accounted for. */
  ghost predicate Scanning(x: seq<nat>, k: nat, rem: nat, buf: nat, mode: int, bitcpy: nat, bitbuf: nat, win: nat,
                           e: nat, w: nat) {
    && Digits(x) && Buffered(x, k, rem, buf) && rem < DIGIT_BIT
    && Window(mode, bitcpy, bitbuf, win, e, w) && Reading(Value(x), Unread(k, rem), bitcpy, e, w)
  }

  /** The table is set up and res holds the form of g^e. */
  ghost predicate Ready(res: MpInt, m: map<nat, MpInt>, win: nat, p: MpInt, red: Reducer, g: int, e: nat)
    reads res, m.Values, p, Aux(red)
  {
    && Modulus(p, red) && win >= 2 && Table(m, win, g, p, red) && res !in m.Values && Apart(res, p, red)
    && res.Valid() && HoldsPower(res, g, e, p, red)
  }

  /** One turn of the main loop. */
  method ScanBit(x: seq<nat>, k: nat, rem: nat, buf: nat, mode: int, bitcpy: nat, bitbuf: nat, win: nat, res: MpInt,
                 m: map<nat, MpInt>, p: MpInt, red: Reducer, ghost g: int, ghost e: nat, ghost w: nat)
    returns (strayed: bool, more: bool, k': nat, rem': nat, buf': nat, mode': int, bitcpy': nat, bitbuf': nat,
             ghost e': nat, ghost w': nat)
    requires Scanning(x, k, rem, buf, mode, bitcpy, bitbuf, win, e, w) && Ready(res, m, win, p, red, g, e)
    modifies res
    ensures strayed ==> StraysOn(Windows(Value(x), Unread(k, rem) + bitcpy, win), g, p, red)
    ensures !strayed ==>
      (StraysOn(Windows(Value(x), Unread(k, rem) + bitcpy, win), g, p, red)
       == StraysOn(Windows(Value(x), Unread(k', rem') + bitcpy', win), g, p, red))
    ensures !strayed ==> Scanning(x, k', rem', buf', mode', bitcpy', bitbuf', win, e', w')
    ensures !strayed ==> Ready(res, m, win, p, red, g, e')
    ensures more ==> k' < k || (k' == k && rem' < rem)
    ensures more == (rem > 0 || k > 0)
    ensures !more ==> !strayed && Unread(k', rem') == 0 && k' == k && rem' == rem && mode' == mode
    ensures !more ==> res.V() == old(res.V())
  {
    hide Modulus, HoldsPower, Cells, Value, StraysOn, Windows, Top, Unread, Reading;
    strayed := false;
    var y;
    more, y, k', rem', buf' := NextBit(x, k, rem, buf);
    if more {
      strayed, mode', bitcpy', bitbuf', e', w' :=
        TakeBit(y, mode, bitcpy, bitbuf, win, res, m, p, red, g, e, w, Value(x), Unread(k', rem'));
    } else {
      k', rem', buf', mode', bitcpy', bitbuf', e', w' := k, rem, buf, mode, bitcpy, bitbuf, e, w;
    }
  }

  /** The main loop: reads the exponent bit by bit, most significant first. The
      unread digits are those below k; rem bits of digit k are still buffered. */
  method ReadExponent(x: seq<nat>, win: nat, res: MpInt, m: map<nat, MpInt>, p: MpInt, red: Reducer, ghost g: int)
    returns (strayed: bool, mode: int, bitcpy: nat, bitbuf: nat, ghost e: nat, ghost w: nat)
    requires Digits(x) && Ready(res, m, win, p, red, g, 0)
    modifies res
    ensures !strayed ==> Window(mode, bitcpy, bitbuf, win, e, w) && Ready(res, m, win, p, red, g, e)
    ensures !strayed ==> Reading(Value(x), 0, bitcpy, e, w)
    ensures strayed ==> StraysOn(Windows(Value(x), BitLength(Value(x)), win), g, p, red)
    ensures !strayed ==>
      (StraysOn(Windows(Value(x), BitLength(Value(x)), win), g, p, red)
       == StraysOn(Windows(Value(x), bitcpy, win), g, p, red))
    ensures x == [] ==> !strayed && mode == 0 && res.V() == old(res.V())
  {
    hide HoldsPower, Cells, Table, Value, Window, Exponent, Buffered, Prefix, StraysOn, Aux, Windows, Top, Unread;
    hide Reading;
    strayed, mode, bitcpy, bitbuf, e, w := false, 0, 0, 0, 0, 0;
    var k: nat, rem: nat, buf: nat, more := |x|, 0, 0, true;
    StartReading(x, win);
    while more
      invariant Scanning(x, k, rem, buf, mode, bitcpy, bitbuf, win, e, w) && Ready(res, m, win, p, red, g, e)
      invariant !strayed && (!more ==> Unread(k, rem) == 0)
      invariant StraysOn(Windows(Value(x), BitLength(Value(x)), win), g, p, red)
             == StraysOn(Windows(Value(x), Unread(k, rem) + bitcpy, win), g, p, red)
      invariant x == [] ==> k == 0 && rem == 0 && mode == 0 && res.V() == old(res.V())
      decreases more, k, rem
    {
      strayed, more, k, rem, buf, mode, bitcpy, bitbuf, e, w :=
        ScanBit(x, k, rem, buf, mode, bitcpy, bitbuf, win, res, m, p, red, g, e, w);
      if strayed { return; }
    }
  }

  lemma {:induction false} StartReading(x: seq<nat>, win: nat)
    requires win >= 2 && Digits(x)
    ensures Buffered(x, |x|, 0, 0) && Window(0, 0, 0, win, 0, 0) && Reading(Value(x), Unread(|x|, 0), 0, 0, 0)
    ensures Windows(Value(x), Unread(|x|, 0), win) == Windows(Value(x), BitLength(Value(x)), win)
    ensures x == [] ==> Unread(|x|, 0) == 0
  {
    hide Windows;
    assert x[|x|..] == [];
    BaseIsLarge();
    DivModUnique(0, BASE, 0, 0);
    ShiftedPow2(win);
    PrefixIsTop(x, |x|, 0);
    ValueBound(x);
    PowerIsPow2(|x|);
    LeadingZeros(Value(x), Unread(|x|, 0), win);
  }

  // ---------------------------------------------------------- leftover bits

  /** Bit win of the shifted window is its next bit. */
  lemma {:induction false} LeftoverBit(w: nat, win: nat, t: nat)
    requires t < win && w < Pow2(win)
    ensures var y := ShiftUp(w, win - t) / Pow2(win) % 2;
      0 <= y <= 1 && 0 <= w / Pow2(t + 1) && w / Pow2(t) == 2 * (w / Pow2(t + 1)) + y
  {
    var q, s := Pow2(t), Pow2(win - t);
    ShiftedIsProduct(w, win - t);
    assert Pow2(win) == q * s by { Pow2Add(t, win - t); }
    QuotientMonotone(0, w, 2 * q);
    var r := w % (2 * q);
    SplitBit(w, q, r, r / q);
    DivMod(w, 2 * q);
    QuotientBetween(r, q, 0, 2);
    assert w * s / (q * s) == w / q by {
      DivMod(w, q);
      MulSum(w, w / q * q, w % q, s);
      MulAssoc(w / q, q, s);
      MulMonotone(w % q + 1, q, s);
      MulDistrib(w % q, 1, s);
      MulNonneg(w % q, s);
      MulPositive(q, s);
      DivModUnique(w * s, q * s, w / q, w % q * s);
    }
    DivModUnique(w / q, 2, w / (2 * q), r / q);
  }

  /** One leftover bit: square, and multiply by M[1] if it is set. */
  method LeftoverStep(res: MpInt, m1: MpInt, bit: bool, p: MpInt, red: Reducer, ghost g: int, ghost e: nat)
    returns (strayed: bool)
    requires Modulus(p, red) && HoldsPower(res, g, e, p, red) && HoldsPower(m1, g, 1, p, red) && res != m1
    requires Apart(res, p, red)
    modifies res
    ensures strayed == (bit && StraysOn({Factors(2 * e, 1)}, g, p, red))
    ensures res.Valid() && (!strayed ==> HoldsPower(res, g, 2 * e + if bit then 1 else 0, p, red))
  {
    hide Pow2, StraysOn;
    strayed := false;
    SquareOnce(res, p, red, g, e);
    if bit {
      strayed := MulRedux(res, m1, res, p, red, g, e + e, 1);
    }
  }

  /** x bits of the window are used up and t are left. */
  ghost predicate Leftover(bitbuf: nat, f: nat, win: nat, t: nat, x: nat, e: nat, w: nat) {
    t <= win && bitbuf == ShiftUp(w, win - t) && f == ShiftUp(e, x) + w / Pow2(t)
  }

  /** If bits remain in the window, square and multiply bit by bit. */
  method FinishWindow(res: MpInt, m1: MpInt, bitcpy: nat, bitbuf0: nat, win: nat, p: MpInt, red: Reducer, ghost g: int,
                      ghost e: nat, ghost w: nat)
    returns (strayed: bool)
    requires Modulus(p, red) && HoldsPower(res, g, e, p, red) && HoldsPower(m1, g, 1, p, red) && res != m1
    requires Apart(res, p, red)
    requires bitcpy < win && w < Pow2(bitcpy) && bitbuf0 == ShiftUp(w, win - bitcpy)
    modifies res
    ensures strayed == StraysOn(Singles(Exponent(bitcpy, e, w), bitcpy), g, p, red)
    ensures res.Valid() && (!strayed ==> HoldsPower(res, g, Exponent(bitcpy, e, w), p, red))
  {
    hide Value;
    HoldsValid(res, g, e, p, red);
    hide HoldsPower, Exp, Leftover, ShiftUp, Exponent, Pow2, StraysOn, Aux, Top, Singles;
    strayed := false;
    var bitbuf: nat := bitbuf0;
    ghost var f: nat := e;
    ghost var v := Exponent(bitcpy, e, w);
    StraysOnNone(g, p, red);
    assert Singles(v, 0) == {} by { SinglesNone(v); }
    LeftoverStart(bitbuf, win, bitcpy, e, w);
    for x := 0 to bitcpy
      invariant res.Valid() && !strayed
      invariant HoldsPower(res, g, f, p, red) && Leftover(bitbuf, f, win, bitcpy - x, x, e, w)
      invariant StraysOn(Singles(v, bitcpy), g, p, red) == StraysOn(Singles(v, bitcpy - x), g, p, red)
    {
      LeftoverSingle(bitbuf, f, win, bitcpy, x, e, w);
      StraysOnUnion({Factors(2 * f, 1)}, Singles(v, bitcpy - x - 1), g, p, red);
      bitbuf := 2 * bitbuf;
      var y := bitbuf / Pow2(win) % 2;
      strayed := LeftoverStep(res, m1, y != 0, p, red, g, f);
      if strayed { return; }
      f := 2 * f + y;
    }
    LeftoverEnd(bitbuf, f, win, bitcpy, e, w);
  }

  lemma {:induction false} LeftoverStart(bitbuf: nat, win: nat, bitcpy: nat, e: nat, w: nat)
    requires bitcpy < win && w < Pow2(bitcpy) && bitbuf == ShiftUp(w, win - bitcpy)
    ensures Leftover(bitbuf, e, win, bitcpy, 0, e, w) && w < Pow2(win)
  {
    Pow2Monotone(bitcpy, win);
    DivModUnique(w, Pow2(bitcpy), 0, w);
  }

  lemma {:induction false} LeftoverNext(bitbuf: nat, f: nat, win: nat, t: nat, x: nat, e: nat, w: nat)
    requires Leftover(bitbuf, f, win, t, x, e, w) && t > 0 && w < Pow2(win)
    ensures var y := 2 * bitbuf / Pow2(win) % 2;
      0 <= y <= 1 && Leftover(2 * bitbuf, 2 * f + y, win, t - 1, x + 1, e, w)
  {
    LeftoverBit(w, win, t - 1);
  }

  /** The exponent so far is the upper part of the whole. */
  lemma {:induction false} LeftoverTop(bitbuf: nat, f: nat, win: nat, bitcpy: nat, x: nat, e: nat, w: nat)
    requires x <= bitcpy && Leftover(bitbuf, f, win, bitcpy - x, x, e, w)
    ensures f == Top(Exponent(bitcpy, e, w), bitcpy - x)
  {
    var t, v := bitcpy - x, Exponent(bitcpy, e, w);
    var q := Pow2(t);
    ShiftedTwice(e, x, t);
    ShiftedIsProduct(ShiftUp(e, x), t);
    DivMod(w, q);
    MulDistrib(ShiftUp(e, x), w / q, q);
    DivModUnique(v, q, f, w % q);
    TopIsQuotient(v, t);
  }

  lemma SinglesNone(x: nat)
    ensures Singles(x, 0) == {}
  {
  }

  /** One leftover bit, and what it multiplies. */
  lemma {:induction false} LeftoverSingle(bitbuf: nat, f: nat, win: nat, bitcpy: nat, x: nat, e: nat, w: nat)
    requires x < bitcpy && Leftover(bitbuf, f, win, bitcpy - x, x, e, w) && w < Pow2(win)
    ensures var y := 2 * bitbuf / Pow2(win) % 2;
      && 0 <= y <= 1 && Leftover(2 * bitbuf, 2 * f + y, win, bitcpy - x - 1, x + 1, e, w)
      && Singles(Exponent(bitcpy, e, w), bitcpy - x)
         == (if y != 0 then {Factors(2 * f, 1)} else {}) + Singles(Exponent(bitcpy, e, w), bitcpy - x - 1)
  {
    hide Leftover, Top, Exponent, Pow2, Singles;
    LeftoverNext(bitbuf, f, win, bitcpy - x, x, e, w);
    LeftoverTop(bitbuf, f, win, bitcpy, x, e, w);
    LeftoverTop(2 * bitbuf, 2 * f + 2 * bitbuf / Pow2(win) % 2, win, bitcpy, x + 1, e, w);
    SinglesStep(Exponent(bitcpy, e, w), bitcpy - x);
  }

  lemma LeftoverEnd(bitbuf: nat, f: nat, win: nat, x: nat, e: nat, w: nat)
    requires Leftover(bitbuf, f, win, 0, x, e, w)
    ensures f == Exponent(x, e, w)
  {
    assert Pow2(0) == 1;
  }

  lemma HoldsValid(v: MpInt, g: int, e: nat, p: MpInt, red: Reducer)
    requires HoldsPower(v, g, e, p, red)
    ensures v.Valid()
  {
  }

  // ---------------------------------------------------------------- the whole

  /** Square, multiply and reduce through the whole exponent. */
  method Raise(m1: MpInt, x: MpInt, win: nat, res: MpInt, p: MpInt, red: Reducer, ghost g: int) returns (strayed: bool)
    requires x.Trim() && Modulus(p, red) && win >= 2 && HoldsPower(m1, g, 1, p, red) && HoldsPower(res, g, 0, p, red)
    requires Apart(res, p, red) && res != m1 && res != x
    modifies res
    ensures win == WindowSize(BitLength(x.Mag())) ==> strayed == StraysOn(Pairs(x.Mag()), g, p, red)
    ensures !red.Montgomery? ==> !strayed
    ensures !strayed ==> HoldsPower(res, g, x.Mag(), p, red)
    ensures !strayed && x.used == 0 ==> res.V() == old(res.V())
  {
    hide Power, Exp, Modulus, HoldsPower, Value, StraysOn, Windows, TablePairs, Pow2, BitLength, WindowSize, Pairs;
    HoldsValid(res, g, 0, p, red);
    ModulusPositive(p, red);
    if win == WindowSize(BitLength(x.Mag())) { PairsFor(x.Mag(), win); }
    ghost var v, half := x.Mag(), Pow2(win - 1);
    StraysOnUnion(TablePairs(half), Windows(v, BitLength(v), win), g, p, red);
    NeverStrays(TablePairs(half) + Windows(v, BitLength(v), win), g, p, red);
    var m;
    strayed, m := BuildTable(m1, win, p, red, g);
    if strayed { return; }
    strayed := RaiseBy(x.dp[..x.used], win, res, m, p, red, g);
  }

  /** The exponent itself, with the table at hand. */
  method RaiseBy(x: seq<nat>, win: nat, res: MpInt, m: map<nat, MpInt>, p: MpInt, red: Reducer, ghost g: int)
    returns (strayed: bool)
    requires Digits(x) && Ready(res, m, win, p, red, g, 0)
    modifies res
    ensures strayed == StraysOn(Windows(Value(x), BitLength(Value(x)), win), g, p, red)
    ensures !strayed ==> HoldsPower(res, g, Value(x), p, red)
    ensures !strayed && x == [] ==> res.V() == old(res.V())
  {
    ModulusPositive(p, red);
    hide Modulus, HoldsPower, Value, StraysOn, Windows, Pow2, Reading, Singles, BitLength, Cells, Exponent;
    StraysOnNone(g, p, red);
    var mode, bitcpy, bitbuf;
    ghost var e, w;
    strayed, mode, bitcpy, bitbuf, e, w := ReadExponent(x, win, res, m, p, red, g);
    if strayed { return; }
    WindowRest(Value(x), bitcpy, win, e, w);
    if mode == 2 && bitcpy > 0 {
      strayed := FinishWindow(res, m[1], bitcpy, bitbuf, win, p, red, g, e, w);
    }
  }

  lemma NeverStrays(qs: set<Factors>, g: int, p: MpInt, red: Reducer)
    requires p.used <= |p.dp| && p.V() > 0
    ensures !red.Montgomery? ==> !StraysOn(qs, g, p, red)
  {
  }

  /** With everything read, what is left in the window goes bit by bit. */
  lemma WindowRest(x: nat, bitcpy: nat, win: nat, e: nat, w: nat)
    requires bitcpy < win && Reading(x, 0, bitcpy, e, w)
    ensures x == Exponent(bitcpy, e, w) && Exponent(0, e, 0) == e
    ensures bitcpy == 0 ==> Windows(x, bitcpy, win) == {}
    ensures bitcpy > 0 ==> Windows(x, bitcpy, win) == Singles(x, bitcpy)
  {
  }

  // ------------------------------------------------------------- in Montgomery form

  /** res = BASE^k modulo p, the form of one. */
  method FormOfOne(p: MpInt, red: Reducer, ghost g: int) returns (res: MpInt)
    requires Modulus(p, red) && red.Montgomery?
    ensures fresh(res) && HoldsPower(res, g, 0, p, red) && res.V() == Power(p.used) % p.V()
  {
    OddIsNormalized(p);
    res := new MpInt.Init();
    CalcNormalization(res, p);
    DivMod(Power(p.used), p.V());
  }

  /** Every residue is the form of some number. */
  lemma {:induction false} FormOfSome(v: int, n: int, k: nat) returns (a: int)
    requires n > 1 && n % 2 == 1 && 0 <= v < n
    ensures Form(v, Exp(a, 1), n, k)
  {
    PowerIsPow2(k);
    a := HalfOf(v, n, k * DIGIT_BIT);
    assert Exp(a, 1) == a * Exp(a, 0);
  }

  /** v divided by 2^t modulo an odd number. */
  lemma {:induction false} HalfOf(v: int, n: int, t: nat) returns (a: int)
    requires n > 1 && n % 2 == 1
    ensures Cong(v, a * Pow2(t), n)
  {
    if t == 0 {
      a := v;
      assert Pow2(0) == 1;
    } else {
      var b := HalfOf(v, n, t - 1);
      a := b * ((n + 1) / 2);
      var p := Pow2(t - 1);
      assert Pow2(t) == 2 * p;
      CongFrom(b * (n + 1), b, b, n) by { MulDistribLeft(n, 1, b); }
      CongMul(b * (n + 1), b, p, p, n);
      MulAssoc(a, 2, p);
      MulAssoc(b, (n + 1) / 2, 2);
    }
  }

  /** M[1] = g * res mod p. If mp_mul gets the product right, this is the form of g; if
      not, it is the form of another number g'. */
  method FormOf(g: MpInt, res: MpInt, p: MpInt, red: Reducer) returns (m1: MpInt, ghost g': int)
    requires g.Trim() && Modulus(p, red) && red.Montgomery? && HoldsPower(res, g.V(), 0, p, red)
    requires res.V() == Power(p.used) % p.V()
    ensures fresh(m1) && HoldsPower(m1, g', 1, p, red) && StartsWith(g.V(), g', p.V(), p.used)
  {
    hide Value, Multiplies;
    ghost var n, r := p.V(), Power(p.used);
    var t := new MpInt.Init();
    Mul(g, res, t);
    m1 := new MpInt.Init();
    ghost var z := t.V();
    var ok := Mod(t, p, m1);
    DivMod(z, n);
    CongMod(z, n);
    if Agrees(g.V(), res.V()) {
      g' := g.V();
      AgreesMeans(g.V(), res.V(), z);
      CongMod(r, n);
      CongMul(g.V(), g.V(), res.V(), r, n);
    } else {
      g' := FormOfSome(m1.V(), n, p.used);
    }
    assert Exp(g', 1) == g' * Exp(g', 0);
  }

  lemma AgreesMeans(x: int, y: int, z: int)
    requires Multiplies(x, y, z) && Agrees(x, y)
    ensures z == x * y
  {
  }

  /** M[1] is the form of h: that of g if mp_mul gets g * (BASE^k mod n) right, else that of
      whatever it makes of it. */
  ghost predicate StartsWith(g: int, h: int, n: int, k: nat)
    requires n > 0
  {
    && (Agrees(g, Power(k) % n) ==> h == g)
    && exists z :: Multiplies(g, Power(k) % n, z) && Cong(h * Power(k), z, n)
  }

  /** The last reduction takes the result out of Montgomery form. */
  method Unform(res: MpInt, p: MpInt, red: Reducer, ghost g: int, ghost e: nat)
    requires Modulus(p, red) && red.Montgomery? && HoldsPower(res, g, e, p, red) && Apart(res, p, red)
    modifies res
    ensures res.Trim() && res.V() == Exp(g, e) % p.V()
  {
    hide Value, Exp;
    ghost var v, n, k := res.V(), p.V(), p.used;
    TrimmedNegative(res);
    MulMonotone(1, Power(k), n);
    ReduxMontgomery(res, p, red.rho);
    FormUndone(res.V(), v, Exp(g, e), n, k);
  }

  /** The exponentiation of g to x modulo n, a number of k digits, strays. */
  ghost predicate ExptStrays(g: int, x: nat, n: int, k: nat)
    requires n > 0
  {
    StraysIn(Pairs(x), g, n, k)
  }

  /** g^x mod p in a fresh integer, by way of Montgomery form. */
  method PowerMontgomery(g: MpInt, x: MpInt, p: MpInt, red: Reducer)
    returns (strayed: bool, res: MpInt, ghost h: int)
    requires g.Trim() && x.Trim() && Modulus(p, red) && red.Montgomery?
    ensures fresh(res) && StartsWith(g.V(), h, p.V(), p.used)
    ensures strayed == ExptStrays(h, x.Mag(), p.V(), p.used)
    ensures !strayed ==> res.Trim() && res.V() == Exp(h, x.Mag()) % p.V()
  {
    hide Value, HoldsPower, Exp, Agrees, Pow2, StartsWith, StraysIn, Pairs;
    var bits := CountBits(x);
    TrimmedNegative(x);
    BitLengthIs(x.Mag(), bits);
    var win := WindowSize(bits);
    res := FormOfOne(p, red, g.V());
    var m1;
    m1, h := FormOf(g, res, p, red);
    OneHolds(res, g.V(), h, p, red);
    strayed := Raise(m1, x, win, res, p, red, h);
    if strayed { return; }
    Unform(res, p, red, h, x.Mag());
  }

  /** The form of one is that of any power zero. */
  lemma OneHolds(v: MpInt, g: int, h: int, p: MpInt, red: Reducer)
    requires HoldsPower(v, g, 0, p, red) && red.Montgomery?
    ensures HoldsPower(v, h, 0, p, red)
  {
    assert Exp(g, 0) == Exp(h, 0);
  }

  // ------------------------------------------------------------- which runs stray

  /** The form of g is zero, or so short that mp_mul takes it to the comba multiplier. */
  ghost predicate ShortForm(g: int, k: nat, n: int)
    requires n > 0
  {
    g == 0 || Comba(k, NumDigits(FormOfPower(g, 1, n, k)))
  }

  /** The comba multiplier takes shorter operands too. */
  lemma CombaShorter(m: nat, m': nat, n: nat)
    requires Comba(m, n) && m' <= m
    ensures Comba(m', n)
  {
  }

  /** Then every exponentiation strays, at the first product of table cells. */
  lemma {:induction false} ShortFormStrays(g: int, x: nat, n: int, k: nat)
    requires 0 < n <= Power(k) && k >= WORD_TERMS && ShortForm(g, k, n)
    ensures ExptStrays(g, x, n, k)
  {
    hide Power, Pow2;
    var half := Pow2(WindowSize(BitLength(x)) - 1);
    var q := Factors(half, 1);
    HalfIsMore(WindowSize(BitLength(x)));
    assert q in TablePairs(half);
    NumDigitsBelow(FormOfPower(g, half, n, k), k);
    if g == 0 {
      ZeroForm(half, n, k);
      ZeroForm(1, n, k);
    } else {
      CombaShorter(k, NumDigits(FormOfPower(g, half, n, k)), NumDigits(FormOfPower(g, 1, n, k)));
    }
    assert ShortFactors(q, g, n, k);
  }

  lemma ZeroForm(e: nat, n: int, k: nat)
    requires e > 0 && n > 0
    ensures FormOfPower(0, e, n, k) == 0
  {
    assert Exp(0, e) == 0 * Exp(0, e - 1);
    DivModUnique(0, n, 0, 0);
  }

  // ------------------------------------------------------------- on plain residues

  /** res = 1 and M[1] = g mod p. */
  method PlainStart(g: MpInt, p: MpInt, red: Reducer) returns (res: MpInt, m1: MpInt)
    requires g.Trim() && Modulus(p, red) && !red.Montgomery?
    ensures fresh(res) && fresh(m1) && res != m1 && HoldsPower(res, g.V(), 0, p, red)
    ensures HoldsPower(m1, g.V(), 1, p, red)
    ensures res.V() == 1
  {
    hide Value, Pow2, Pair, Lacking;
    BaseIsLarge();
    DivModUnique(1, BASE, 0, 1);
    res := new MpInt.Init();
    Set(res, 1);
    m1 := new MpInt.Init();
    var ok := Mod(g, p, m1);
    StartHolds(g.V(), m1.V(), p, red);
  }

  lemma {:induction false} StartHolds(g: int, v: int, p: MpInt, red: Reducer)
    requires Modulus(p, red) && !red.Montgomery? && v == g % p.V()
    ensures ResidueOf(1, g, 0, p, red) && ResidueOf(v, g, 1, p, red)
  {
    var n := p.V();
    assert Power(0) == 1 && Exp(g, 0) == 1 && Exp(g, 1) == g * Exp(g, 0);
    DivMod(g, n);
    CongMod(g, n);
    if FactorCut(p.Mag(), red) {
      LackingIsCut(p);
      BaseIsLarge();
      ModMultiple(g, n, BASE);
    }
  }

  /** g^x in a fresh integer, reduced modulo p except for a one modulo one. */
  method PowerPlain(g: MpInt, x: MpInt, p: MpInt, red: Reducer) returns (res: MpInt)
    requires g.Trim() && x.Trim() && Modulus(p, red) && !red.Montgomery?
    ensures fresh(res) && res.Trim() && ResidueOf(res.V(), g.V(), x.Mag(), p, red)
    ensures p.V() == 1 && x.used == 0 ==> res.V() == 1
  {
    hide Value, Exp, Pair;
    var bits := CountBits(x);
    var win := WindowSize(bits);
    var m1;
    res, m1 := PlainStart(g, p, red);
    var strayed := Raise(m1, x, win, res, p, red, g.V());
  }

  // ------------------------------------------------------------------ entry points

  /** mp_exptmod_fast with redmode 0, Montgomery reduction: y = h^x mod p. It fails exactly
      for even p. It strays exactly when the modulus has WORD_TERMS digits or more and some
      pair of powers that the sliding window multiplies is short in Montgomery form. Here h
      is g if mp_mul gets g * (BASE^k mod p) right, which it does unless g is negative and
      both are long. */
  method ExptmodFast(g: MpInt, x: MpInt, p: MpInt, y: MpInt) returns (ok: bool, strayed: bool, ghost h: int)
    requires g.Trim() && x.Trim() && p.Trim() && y.Valid() && p.sign == ZPOS && p.V() != 1
    requires p.used > 0 || p.dp[0] % 2 == 0
    modifies y
    ensures ok == (old(p.V()) % 2 == 1)
    ensures !ok ==> !strayed
    ensures ok ==> old(p.V()) > 1 && StartsWith(old(g.V()), h, old(p.V()), old(p.used))
    ensures ok ==> strayed == ExptStrays(h, old(x.Mag()), old(p.V()), old(p.used))
    ensures ok && !strayed ==> y.Trim() && y.V() == Exp(h, old(x.Mag())) % old(p.V())
  {
    hide StartsWith, ExptStrays, Exp;
    strayed, h := false, 0;
    var rho;
    ok, rho := Setup(p);
    if !ok { return; }
    var res;
    strayed, res, h := PowerMontgomery(g, x, p, Montgomery(rho));
    if strayed { return; }
    Exch(res, y);
  }

  /** With g = 0 and x = 3 the stray digit w reaches the answer: it is M[3] after one
      reduction, the result after another, and out of form after a third. Unless w is
      zero, the answer is not zero. */
  lemma {:induction false} StrayAnswer(w: nat, m3: int, z: int, y: int, n: int, k: nat)
    requires n > BASE && n % 2 == 1 && 0 < w < BASE
    requires Reduced(m3, w, n, k) && Reduced(z, Power(k) % n * m3, n, k) && Reduced(y, z, n, k)
    ensures y != Exp(0, 3) % n
  {
    assert Exp(0, 3) == 0 * Exp(0, 2);
    DivModUnique(0, n, 0, 0);
    if y == 0 {
      var r := Power(k);
      CongSmall(z, 0, n);
      CongMod(r, n);
      CongMul(r % n, r, m3, m3, n);
      CancelPower(0, m3, n, k);
      CongSmall(m3, 0, n);
      CongSmall(w, 0, n);
    }
  }

  /** That run: M[3] is a zero product with a stray digit, res the form of one. Unless
      the product of the two strays again, the answer is not 0^3. */
  method CubeOfZero(m3: MpInt, res: MpInt, p: MpInt, rho: nat, ghost w: nat) returns (again: bool)
    requires Modulus(p, Montgomery(rho)) && p.used >= WORD_TERMS && m3 != res && m3 != p && res != p
    requires LeftOver(m3, 0, w) && w > 0 && res.Trim() && res.ClearAbove() && res.V() == Power(p.used) % p.V()
    modifies m3, res
    ensures !again ==> res.Trim() && res.V() != Exp(0, 3) % p.V()
  {
    hide Value, Pair, Lacking, Reduced, Exp;
    TrimmedNegative(m3);
    assert Power(0) == 1;
    ReduceStray(m3, p, rho, 0, w);
    again := Comba(res.used, m3.used);
    if again { return; }
    ghost var v := m3.V();
    DivMod(Power(p.used), p.V());
    ghost var z := TimesReduced(m3, res, p, rho);
    StrayAnswer(w, v, z, res.V(), p.V(), p.used);
  }

  lemma ReducedRange(y: int, x: int, n: int, k: nat)
    requires Reduced(y, x, n, k)
    ensures 0 <= y < n
  {
  }

  /** res * m, reduced and then reduced once more out of form. */
  method TimesReduced(m: MpInt, res: MpInt, p: MpInt, rho: nat) returns (ghost z: int)
    requires Modulus(p, Montgomery(rho)) && p.used >= WORD_TERMS && m != res && res != p
    requires m.Trim() && res.Trim() && res.ClearAbove() && !Comba(res.used, m.used)
    requires 0 <= m.V() < p.V() && 0 <= res.V() < p.V()
    modifies res
    ensures res.Trim() && Reduced(z, old(res.V() * m.V()), p.V(), p.used) && Reduced(res.V(), z, p.V(), p.used)
  {
    hide Value, Power, Pair, Lacking, Reduced;
    ghost var u, v := res.V(), m.V();
    ProductReducible(u, v, p.dp[..p.used]);
    MulNatural(res, m, res, u, v);
    ReduxMontgomery(res, p, rho);
    z := res.V();
    ReducedRange(z, u * v, p.V(), p.used);
    SmallReducible(z, p);
    TrimmedNegative(res);
    ReduxMontgomery(res, p, rho);
  }

  lemma SmallReducible(z: int, p: MpInt)
    requires p.Valid() && 0 <= z < p.Mag()
    ensures z < p.Mag() * Power(p.used)
  {
    PowerMonotone(0, p.used);
    MulMonotone(1, Power(p.used), p.Mag());
  }
}
