/** A virtual address space as the checked copy routines see it, and little-endian
    numbers in it. */
module TvSpace {
  import opened ByteNumbers
  import opened Arith

  /** The bytes that can be read, and which of them can be written. */
  datatype Space = Space(bytes: map<nat, Byte>, writable: set<nat>)

  predicate CanRead(s: Space, va: nat, n: nat) {
    forall k :: va <= k < va + n ==> k in s.bytes
  }

  predicate CanWrite(s: Space, va: nat, n: nat) {
    forall k :: va <= k < va + n ==> k in s.bytes && k in s.writable
  }

  function Peek(s: Space, k: nat): Byte {
    if k in s.bytes then s.bytes[k] else 0
  }

  function Load(s: Space, va: nat, n: nat): (r: seq<Byte>)
    ensures |r| == n
  {
    seq<Byte>(n, i requires 0 <= i < n => Peek(s, va + i))
  }

  function Store(s: Space, va: nat, data: seq<Byte>): Space {
    s.(bytes := map k | k in s.bytes :: if va <= k < va + |data| then data[k - va] else s.bytes[k])
  }

  // ------------------------------------------------------------------- copying

  lemma StoreKeepsAccess(s: Space, va: nat, data: seq<Byte>, a: nat, n: nat)
    ensures CanRead(Store(s, va, data), a, n) <==> CanRead(s, a, n)
    ensures CanWrite(Store(s, va, data), a, n) <==> CanWrite(s, a, n)
  {
    assert Store(s, va, data).bytes.Keys == s.bytes.Keys;
  }

  lemma PeekStore(s: Space, va: nat, data: seq<Byte>, k: nat)
    requires va <= k < va + |data| ==> k in s.bytes
    ensures Peek(Store(s, va, data), k) == if va <= k < va + |data| then data[k - va] else Peek(s, k)
  {
  }

  lemma LoadElsewhere(s: Space, va: nat, data: seq<Byte>, a: nat, n: nat)
    requires a + n <= va || va + |data| <= a
    ensures Load(Store(s, va, data), a, n) == Load(s, a, n)
  {
    var x, y := Load(Store(s, va, data), a, n), Load(s, a, n);
    forall i | 0 <= i < n ensures x[i] == y[i] {
      PeekStore(s, va, data, a + i);
    }
  }

  lemma LoadBack(s: Space, va: nat, data: seq<Byte>)
    requires CanWrite(s, va, |data|)
    ensures Load(Store(s, va, data), va, |data|) == data
  {
    var r := Load(Store(s, va, data), va, |data|);
    forall i | 0 <= i < |data| ensures r[i] == data[i] {
      PeekStore(s, va, data, va + i);
    }
  }

  lemma LoadSplit(s: Space, a: nat, n: nat, m: nat)
    ensures Load(s, a, n + m) == Load(s, a, n) + Load(s, a + n, m)
  {
    var x, y, z := Load(s, a, n + m), Load(s, a, n), Load(s, a + n, m);
    forall i | 0 <= i < n + m ensures x[i] == (y + z)[i] {
      if i >= n { assert a + n + (i - n) == a + i; }
    }
  }

  lemma LoadSlice(s: Space, a: nat, n: nat, i: nat, j: nat)
    requires i <= j <= n
    ensures Load(s, a, n)[i..j] == Load(s, a + i, j - i)
  {
    LoadSplit(s, a, i, j - i);
    LoadSplit(s, a, j, n - j);
  }

  /** Writing right behind what is there appends to it. */
  lemma Append(s: Space, a: nat, n: nat, data: seq<Byte>)
    requires CanWrite(s, a + n, |data|)
    ensures Load(Store(s, a + n, data), a, n + |data|) == Load(s, a, n) + data
  {
    LoadSplit(Store(s, a + n, data), a, n, |data|);
    LoadElsewhere(s, a + n, data, a, n);
    LoadBack(s, a + n, data);
  }

  /** Writing right before what is there puts it in front. */
  lemma Prepend(s: Space, a: nat, n: nat, data: seq<Byte>)
    requires |data| <= a && CanWrite(s, a - |data|, |data|)
    ensures Load(Store(s, a - |data|, data), a - |data|, |data| + n) == data + Load(s, a, n)
  {
    var t := Store(s, a - |data|, data);
    LoadSplit(t, a - |data|, |data|, n);
    LoadElsewhere(s, a - |data|, data, a, n);
    LoadBack(s, a - |data|, data);
  }

  /** Two adjoining writes are one. */
  lemma StoreTwice(s: Space, a: nat, x: seq<Byte>, y: seq<Byte>)
    ensures Store(Store(s, a, x), a + |x|, y) == Store(s, a, x + y)
  {
    var t, u := Store(Store(s, a, x), a + |x|, y), Store(s, a, x + y);
    assert t.bytes.Keys == u.bytes.Keys;
  }

  lemma SplitAccess(s: Space, a: nat, n: nat, m: nat)
    ensures CanRead(s, a, n + m) <==> CanRead(s, a, n) && CanRead(s, a + n, m)
    ensures CanWrite(s, a, n + m) <==> CanWrite(s, a, n) && CanWrite(s, a + n, m)
  {
  }

  // ------------------------------------------------------------------- numbers

  /** The n low bytes of a number. */
  function Encode(v: nat, n: nat): (r: seq<Byte>)
    ensures |r| == n
    decreases n
  {
    if n == 0 then [] else [v % 256] + Encode(v / 256, n - 1)
  }

  function Decode(s: seq<Byte>): nat {
    if s == [] then 0 else s[0] + 256 * Decode(s[1..])
  }

  lemma {:induction false} DecodeEncode(v: nat, n: nat)
    requires v < Pow256(n)
    ensures Decode(Encode(v, n)) == v
    decreases n
  {
    if n > 0 {
      DecodeEncode(v / 256, n - 1);
      assert Encode(v, n)[1..] == Encode(v / 256, n - 1);
    }
  }

  lemma {:induction false} EncodeDecode(s: seq<Byte>)
    ensures Encode(Decode(s), |s|) == s && Decode(s) < Pow256(|s|)
  {
    if s != [] {
      EncodeDecode(s[1..]);
      var d: int := Decode(s[1..]);
      DivModUnique(Decode(s), 256, d, s[0]);
      assert s == [s[0]] + s[1..];
    }
  }

  /** The low byte comes first. */
  lemma {:induction false} EncodeByte(v: nat, n: nat, k: nat)
    requires k < n
    ensures Encode(v, n)[k] == v / Pow256(k) % 256
    decreases n
  {
    if k == 0 {
      assert v / 1 == v;
    } else {
      EncodeByte(v / 256, n - 1, k - 1);
      assert Encode(v, n)[1..] == Encode(v / 256, n - 1);
      DivDiv(v, 256, Pow256(k - 1));
    }
  }
}
