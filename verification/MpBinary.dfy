/** mp_to_unsigned_bin and mp_read_unsigned_bin: magnitudes as big-endian bytes. */
module MpBinary {
  import opened ByteNumbers
  import opened Arith
  import opened MpDigits
  import opened MpInts
  import opened MpShift
  import opened MpRadix

  /** The bytes of a number, the highest first and never zero. */
  function BytesOf(v: nat): seq<Byte> {
    if v == 0 then [] else BytesOf(v / 256) + [v % 256]
  }

  /** The number that the bytes stand for. */
  function FromBytes(s: seq<Byte>): nat {
    if s == [] then 0 else FromBytes(s[..|s| - 1]) * 256 + s[|s| - 1]
  }

  /** Reading back what was written gives the number. */
  lemma {:induction false} BinaryRoundTrip(v: nat)
    ensures FromBytes(BytesOf(v)) == v
  {
    if v > 0 {
      BinaryRoundTrip(v / 256);
      assert BytesOf(v)[..|BytesOf(v)| - 1] == BytesOf(v / 256);
    }
  }

  /** Byte i from the end has the weight 256^i. */
  lemma {:induction false} BytesByPlace(v: nat, i: nat)
    requires i < |BytesOf(v)|
    ensures BytesOf(v)[|BytesOf(v)| - 1 - i] == v / Pow256(i) % 256
  {
    if i == 0 {
      assert v / 1 == v;
    } else {
      BytesByPlace(v / 256, i - 1);
      DivDiv(v, 256, Pow256(i - 1));
    }
  }

  lemma Pow2Byte(n: nat)
    requires n > 0
    ensures Pow2(8 * n) == 256 * Pow2(8 * (n - 1))
  {
    Pow2Add(8, 8 * (n - 1));
    assert Pow2(8) == 256 by { Pow2Add(4, 4); assert Pow2(4) == 16; }
  }

  /** How many bytes a number takes. */
  lemma {:induction false} BytesLength(v: nat, n: nat)
    requires n == |BytesOf(v)|
    ensures v < Pow2(8 * n) && (n > 0 ==> Pow2(8 * (n - 1)) <= v)
  {
    if v > 0 {
      BytesLength(v / 256, n - 1);
      Pow2Byte(n);
      if n > 1 { Pow2Byte(n - 1); }
    }
  }

  /** mp_unsigned_bin_size is the number of bytes written. */
  method UnsignedBinSize(a: MpInt) returns (n: nat)
    requires a.Trim()
    ensures n == |BytesOf(a.Mag())|
  {
    var size := CountBits(a);
    n := size / 8 + if size % 8 != 0 then 1 else 0;
    TrimmedNegative(a);
    SizeIsLength(a.Mag(), size, n);
  }

  lemma {:induction false} SizeIsLength(v: nat, size: nat, n: nat)
    requires (size == 0 ==> v == 0) && (size > 0 ==> Pow2(size - 1) <= v < Pow2(size))
    requires n == size / 8 + if size % 8 != 0 then 1 else 0
    ensures n == |BytesOf(v)|
  {
    var m := |BytesOf(v)|;
    BytesLength(v, m);
    if size > 0 {
      if m > n { Pow2Monotone(size, 8 * (m - 1)); }
      if m < n { Pow2Monotone(8 * m, size - 1); }
    }
  }

  // -------------------------------------------------------------------- writing

  /** The base is a multiple of 256. */
  lemma BaseBytes() returns (c: nat)
    ensures BASE == c * 256 && c >= 256
  {
    BaseIsLarge();
    EightBits();
    Pow2Add(DIGIT_BIT - 8, 8);
    c := Pow2(DIGIT_BIT - 8);
  }

  lemma {:induction false} LowByte(a: MpInt)
    requires a.Trim() && a.used > 0
    ensures a.dp[0] % 256 == a.Mag() % 256
  {
    var d := a.dp[..a.used];
    ValueLow(d);
    var c := BaseBytes();
    var h := Value(d[1..]);
    MulAssoc(h, c, 256);
    ModAddMultiple(d[0], h * c, 256);
  }

  /** mp_to_unsigned_bin */
  method ToUnsignedBin(a: MpInt) returns (b: seq<Byte>)
    requires a.Trim()
    ensures b == BytesOf(a.Mag())
  {
    hide Pow2, Power;
    var t := InitCopy(a);
    ghost var v := a.Mag();
    b := [];
    TrimmedNegative(t);
    while t.used != 0
      invariant t.Trim() && (t.used == 0 <==> t.Mag() == 0) && BytesOf(t.Mag()) + Reversed(b) == BytesOf(v)
      decreases t.Mag()
    {
      ghost var m := t.Mag();
      LowByte(t);
      var x: Byte := t.dp[0] % 256;
      Div2d(t, 8, t, null);
      EightBits();
      TrimmedNegative(t);
      ReversedAppend(b, x);
      assert BytesOf(m) == BytesOf(m / 256) + [x];
      assert BytesOf(m / 256) + ([x] + Reversed(b)) == BytesOf(v);
      b := b + [x];
    }
    b := Reverse(b);
  }

  lemma EightBits()
    ensures Pow2(8) == 256
  {
    Pow2Add(4, 4);
    assert Pow2(4) == 16;
  }

  // -------------------------------------------------------------------- reading

  /** Bitwise or. */
  function Or(x: nat, y: nat): nat {
    if x == 0 then y else if y == 0 then x
    else (if x % 2 == 1 || y % 2 == 1 then 1 else 0) + 2 * Or(x / 2, y / 2)
  }

  /** Where no bits meet, or is addition. */
  lemma {:induction false} OrIsAdd(x: nat, y: nat, k: nat)
    requires x % Pow2(k) == 0 && y < Pow2(k)
    ensures Or(x, y) == x + y
    decreases k
  {
    if x != 0 && y != 0 {
      var p := Pow2(k - 1);
      assert Pow2(k) == 2 * p;
      DivMod(x, 2 * p);
      var q := x / (2 * p);
      MulAssoc(q, 2, p);
      MulAssoc(q, p, 2);
      assert x == 2 * (q * p);
      DivModUnique(x, 2, q * p, 0);
      DivModUnique(q * p, p, q, 0);
      OrIsAdd(x / 2, y / 2, k - 1);
    }
  }

  /** One digit in use beyond the shifted number, and room to shift again. */
  ghost predicate Loose(a: MpInt)
    reads a
  {
    a.Valid() && a.ClearAbove() && a.sign == ZPOS && a.Mag() * 256 < Power(a.used)
  }

  /** The shift makes room for a byte at the low end, without running out of digits at
      the high end. */
  method ShiftByte(a: MpInt)
    requires Loose(a)
    modifies a
    ensures a.Trim() && a.ClearAbove() && a.sign == ZPOS && a.Mag() == old(a.Mag()) * 256 && a.used < |a.dp|
    ensures a.dp[0] % 256 == 0 && a.Mag() % 256 == 0
  {
    hide Value, Power, Pow2;
    ghost var m: nat, n := a.Mag(), a.used;
    EightBits();
    DivModUnique(m * 256, 256, m, 0);
    Mul2d(a, 8, a);
    TrimmedNegative(a);
    UsedBound(a, n);
    if a.used > 0 { LowByte(a); }
  }

  /** One byte more: shift and OR it in. */
  method TakeByte(a: MpInt, b: Byte)
    requires Loose(a)
    modifies a
    ensures Loose(a) && a.Mag() == old(a.Mag()) * 256 + b
  {
    hide Value, Power, Pow2, Or;
    ShiftByte(a);
    EightBits();
    OrIsAdd(a.dp[0], b, 8);
    ghost var d, v := a.dp, a.Mag();
    a.dp := a.dp[0 := Or(a.dp[0], b)];
    a.used := a.used + 1;
    ByteIn(d, a.dp, a.used, v, b);
  }

  lemma MultipleGap(v: nat, p: nat)
    requires v % 256 == 0 && p % 256 == 0 && v < p
    ensures v + 256 <= p
  {
  }

  /** The byte fits into digit 0, and the number into the digits. */
  lemma {:induction false} ByteIn(d: seq<nat>, d': seq<nat>, n: nat, v: nat, b: Byte)
    requires 0 < n <= |d| && d[n - 1] == 0 && (forall i :: 0 <= i < n ==> d[i] < BASE) && v == Value(d[..n - 1])
    requires d[0] % 256 == 0 && |d'| == |d| && d'[0] == d[0] + b && (forall i :: 0 < i < |d| ==> d'[i] == d[i])
    requires v % 256 == 0
    ensures d'[0] < BASE && Value(d'[..n]) == v + b && (v + b) * 256 < Power(n)
  {
    assert d[0] + 256 <= BASE by { BaseMultiple(); MultipleGap(d[0], BASE); }
    assert Value(d'[..n]) == v + b by {
      var s, x: nat := d[..n], d'[0];
      ValueUpdate(s, 0, x);
      assert d'[..n] == s[0 := x] && Power(0) == 1;
      ValueStep(d, n - 1);
    }
    ValueBound(d[..n - 1]);
    BytePower(n - 1, v, b);
  }

  lemma BaseMultiple()
    ensures BASE % 256 == 0 && BASE >= 0x1_0000
  {
    var c := BaseBytes();
    DivModUnique(BASE, 256, c, 0);
  }

  lemma GapArith(v: nat, p: nat, b: Byte, base: nat)
    requires v < p && base >= 0x1_0000 && v % 256 == 0 && (p == 1 || p % 256 == 0)
    ensures (v + b) * 256 < base * p
  {
    if p == 1 {
      MulMonotone(0x1_0000, base, p);
    } else {
      MultipleGap(v, p);
      MulMonotone(256, base, p);
    }
  }

  lemma {:induction false} BytePower(k: nat, v: nat, b: Byte)
    requires v < Power(k) && v % 256 == 0
    ensures (v + b) * 256 < Power(k + 1)
  {
    BaseMultiple();
    if k > 0 { PowerBytes(k); }
    GapArith(v, Power(k), b, BASE);
  }

  lemma {:induction false} PowerBytes(k: nat)
    requires k > 0
    ensures Power(k) % 256 == 0
  {
    var c := BaseBytes();
    var p := Power(k - 1);
    assert Power(k) == BASE * p;
    MulAssoc(c, 256, p);
    MulAssoc(c, p, 256);
    DivModUnique(Power(k), 256, c * p, 0);
  }

  /** mp_read_unsigned_bin */
  method ReadUnsignedBin(a: MpInt, b: seq<Byte>)
    requires a.Valid()
    modifies a
    ensures a.Trim() && a.V() == FromBytes(b)
  {
    Grow(a, 2);
    Zero(a);
    assert Power(0) == 1;
    var i := 0;
    while i < |b|
      invariant 0 <= i <= |b| && Loose(a) && a.Mag() == FromBytes(b[..i])
    {
      TakeByte(a, b[i]);
      assert b[..i + 1][..i] == b[..i];
      i := i + 1;
    }
    assert b[..|b|] == b;
    Clamp(a);
  }
}
