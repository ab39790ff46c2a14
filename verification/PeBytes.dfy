/** Little-endian 32-bit words in a sequence of bytes. */
module PeBytes {
  import opened ByteNumbers
  import opened Arith

  type U32 = x: int | 0 <= x < 0x1_0000_0000

  const WRAP: int := 0x1_0000_0000

  function Word(a: int, b: int, c: int, d: int): int {
    a + 0x100 * b + 0x1_0000 * c + 0x100_0000 * d
  }

  function At32(s: seq<Byte>, o: nat): U32
    requires o + 4 <= |s|
  {
    Word(s[o], s[o + 1], s[o + 2], s[o + 3])
  }

  /** The weight of byte j of a word, counted from the low end. */
  function Scale(j: nat): int
    requires j <= 4
  {
    if j == 0 then 1 else if j == 1 then 0x100 else if j == 2 then 0x1_0000 else if j == 3 then 0x100_0000 else WRAP
  }

  function ByteOf(v: int, j: nat): Byte
    requires j < 4
  {
    v / Scale(j) % 0x100
  }

  function Put32(s: seq<Byte>, o: nat, v: U32): seq<Byte>
    requires o + 4 <= |s|
  {
    s[o := ByteOf(v, 0)][o + 1 := ByteOf(v, 1)][o + 2 := ByteOf(v, 2)][o + 3 := ByteOf(v, 3)]
  }

  /** A byte depends only on the bytes up to it. */
  lemma ByteOfLow(v: int, j: nat)
    requires j < 4
    ensures ByteOf(v, j) == v % Scale(j + 1) / Scale(j)
  {
    var c, m := Scale(j), Scale(j + 1);
    var q, r := v % m / c, v % m % c;
    assert v == (0x100 * (v / m) + q) * c + r;
    DivModUnique(v, c, 0x100 * (v / m) + q, r);
    DivModUnique(v / c, 0x100, v / m, q);
  }

  lemma WordBytes(a: Byte, b: Byte, c: Byte, d: Byte)
    ensures var v := Word(a, b, c, d);
            v % 0x100 == a && v % 0x1_0000 == a + 0x100 * b && v % 0x100_0000 == a + 0x100 * b + 0x1_0000 * c
            && 0 <= v < WRAP && v % WRAP == v
  {
    var v := Word(a, b, c, d);
    DivModUnique(v, 0x100, b + 0x100 * c + 0x1_0000 * d, a);
    DivModUnique(v, 0x1_0000, c + 0x100 * d, a + 0x100 * b);
    DivModUnique(v, 0x100_0000, d, a + 0x100 * b + 0x1_0000 * c);
    DivModUnique(v, WRAP, 0, v);
  }

  lemma At32Bytes(s: seq<Byte>, o: nat, j: nat)
    requires o + 4 <= |s| && j < 4
    ensures ByteOf(At32(s, o), j) == s[o + j]
  {
    hide ByteOf;
    var a: int, b: int, c: int, d: int := s[o], s[o + 1], s[o + 2], s[o + 3];
    WordBytes(a, b, c, d);
    ByteOfLow(At32(s, o), j);
    if j == 0 { DivModUnique(a, 1, a, 0); }
    if j == 1 { DivModUnique(a + 0x100 * b, 0x100, b, a); }
    if j == 2 { DivModUnique(a + 0x100 * b + 0x1_0000 * c, 0x1_0000, c, a + 0x100 * b); }
    if j == 3 { DivModUnique(Word(a, b, c, d), 0x100_0000, d, a + 0x100 * b + 0x1_0000 * c); }
  }

  lemma BytesWord(v: U32)
    ensures Word(ByteOf(v, 0), ByteOf(v, 1), ByteOf(v, 2), ByteOf(v, 3)) == v
  {
    DivDiv(v, 0x100, 0x100);
    DivDiv(v, 0x1_0000, 0x100);
    DivDiv(v, 0x100_0000, 0x100);
  }

  lemma PutAt(s: seq<Byte>, o: nat, v: U32)
    requires o + 4 <= |s|
    ensures At32(Put32(s, o, v), o) == v
    ensures forall k :: 0 <= k < |s| && !(o <= k < o + 4) ==> Put32(s, o, v)[k] == s[k]
  {
    hide ByteOf;
    var t := Put32(s, o, v);
    assert t[o] == ByteOf(v, 0) && t[o + 1] == ByteOf(v, 1) && t[o + 2] == ByteOf(v, 2) && t[o + 3] == ByteOf(v, 3);
    BytesWord(v);
  }

  /** Subtraction works from the low end up: byte j of x - d depends only on bytes 0
      to j of x. */
  lemma SubtractLow(x: int, y: int, d: int, j: nat)
    requires j < 4 && x % Scale(j + 1) == y % Scale(j + 1)
    ensures ByteOf((x - d) % WRAP, j) == ByteOf((y - d) % WRAP, j)
  {
    var m := Scale(j + 1);
    WrapKeepsLow(x - d, j);
    WrapKeepsLow(y - d, j);
    ByteOfLow((x - d) % WRAP, j);
    ByteOfLow((y - d) % WRAP, j);
    DivMod(x, m);
    DivMod(y, m);
    MulDistrib(x / m - y / m, y / m, m);
    ModAddMultiple(y - d, x / m - y / m, m);
  }

  lemma WrapKeepsLow(x: int, j: nat)
    requires j < 4
    ensures x % WRAP % Scale(j + 1) == x % Scale(j + 1)
  {
    var m, q := Scale(j + 1), Scale(3 - j);
    assert WRAP == q * m;
    ModOfMod(x, q, m);
  }

  /** Words that agree in bytes 0 to j agree modulo the weight above byte j. */
  lemma At32Low(s: seq<Byte>, o: nat, t: seq<Byte>, u: nat, j: nat)
    requires o + 4 <= |s| && u + 4 <= |t| && j < 4 && s[o..o + j + 1] == t[u..u + j + 1]
    ensures At32(s, o) % Scale(j + 1) == At32(t, u) % Scale(j + 1)
  {
    WordBytes(s[o], s[o + 1], s[o + 2], s[o + 3]);
    WordBytes(t[u], t[u + 1], t[u + 2], t[u + 3]);
    forall i | 0 <= i <= j ensures s[o..][i] == t[u..][i] {
      assert s[o..o + j + 1][i] == t[u..u + j + 1][i];
    }
    assert s[o] == s[o..][0] && t[u] == t[u..][0];
    if j >= 1 { assert s[o + 1] == s[o..][1] && t[u + 1] == t[u..][1]; }
    if j >= 2 { assert s[o + 2] == s[o..][2] && t[u + 2] == t[u..][2]; }
    if j >= 3 { assert s[o + 3] == s[o..][3] && t[u + 3] == t[u..][3]; }
  }

  lemma SubtractAdded(x: U32, d: int)
    ensures ((x + d) % WRAP - d) % WRAP == x && ((x - d) % WRAP + d) % WRAP == x
  {
  }
}
