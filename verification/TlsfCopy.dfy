/** The bytes of payload words, and the byte copy realloc performs. */
module TlsfCopy {
  import opened ByteNumbers
  import opened Arith
  import opened TlsfMapping

  lemma {:induction false} Pow256Add(j: nat, k: nat)
    ensures Pow256(j + k) == Pow256(j) * Pow256(k)
  {
    if j > 0 {
      Pow256Add(j - 1, k);
      assert Pow256(j + k) == 256 * Pow256(j + k - 1);
    }
  }

  /** Byte k of a little-endian word. */
  function ByteOf(w: int, k: nat): int {
    w / Pow256(k) % 256
  }

  /** dst with its low k bytes replaced by those of src. */
  function MergeLow(dst: int, src: int, k: nat): int {
    dst / Pow256(k) * Pow256(k) + src % Pow256(k)
  }

  /** A byte below k depends only on the value modulo 256^k. */
  lemma LowByte(w: int, q: int, r: int, k: nat, j: nat)
    requires j < k && w == q * Pow256(k) + r
    ensures ByteOf(w, j) == ByteOf(r, j)
  {
    var p := Pow256(j);
    var m := Pow256(k - j - 1);
    Pow256Add(j, k - j);
    assert Pow256(k) == p * (256 * m);
    Regroup(q, p, m);
    ShiftedQuotient(w, 256 * (q * m), p, r);
    var d := r / p;
    DivModUnique(256 * (q * m) + d, 256, q * m + d / 256, d % 256);
  }

  lemma Regroup(q: int, p: int, m: int)
    ensures q * (p * (256 * m)) == 256 * (q * m) * p
  {
  }

  lemma ShiftedQuotient(w: int, t: int, p: int, r: int)
    requires 0 < p && w == t * p + r
    ensures w / p == t + r / p
  {
    DivBounds(r, p);
    MulDistrib(t, r / p, p);
    DivModUnique(w, p, t + r / p, r % p);
  }

  lemma MergedByte(dst: int, src: int, k: nat, j: nat)
    requires j < k
    ensures ByteOf(MergeLow(dst, src, k), j) == ByteOf(src, j)
  {
    LowByte(MergeLow(dst, src, k), dst / Pow256(k), src % Pow256(k), k, j);
    assert src == src / Pow256(k) * Pow256(k) + src % Pow256(k);
    LowByte(src, src / Pow256(k), src % Pow256(k), k, j);
  }

  /** Byte i of the payload at word address ptr. */
  function PayloadByte(mem: seq<int>, ptr: int, i: nat): int
    requires 0 <= ptr && ptr + i / WORD < |mem|
  {
    ByteOf(mem[ptr + i / WORD], i % WORD)
  }

  /** Words that hold n bytes. */
  function WordsFor(n: nat): nat {
    (n + WORD - 1) / WORD
  }

  /** memcpy of n bytes between two disjoint payloads. */
  method MemCopy(mem: seq<int>, dst: int, src: int, n: nat) returns (m: seq<int>)
    requires 0 <= dst && 0 <= src && dst + WordsFor(n) <= |mem| && src + WordsFor(n) <= |mem|
    requires dst + WordsFor(n) <= src || src + WordsFor(n) <= dst
    ensures |m| == |mem|
    ensures forall w :: 0 <= w < |mem| && !(dst <= w < dst + WordsFor(n)) ==> m[w] == mem[w]
    ensures forall i :: 0 <= i < n ==> i / WORD < WordsFor(n) && PayloadByte(m, dst, i) == PayloadByte(mem, src, i)
  {
    WordsForBounds(n);
    var full, rest := n / WORD, n % WORD;
    m := CopyWords(mem, dst, src, full);
    if rest != 0 {
      m := m[dst + full := MergeLow(m[dst + full], m[src + full], rest)];
    }
    CopiedBytes(mem, m, dst, src, n);
  }

  lemma CopiedBytes(mem: seq<int>, m: seq<int>, dst: int, src: int, n: nat)
    requires 0 <= dst && 0 <= src && dst + WordsFor(n) <= |mem| && src + WordsFor(n) <= |mem| && |m| == |mem|
    requires n / WORD <= WordsFor(n) && (n % WORD != 0 ==> n / WORD < WordsFor(n))
    requires forall v :: dst <= v < dst + n / WORD ==> m[v] == mem[v - dst + src]
    requires n % WORD != 0 ==> m[dst + n / WORD] == MergeLow(mem[dst + n / WORD], mem[src + n / WORD], n % WORD)
    ensures forall i :: 0 <= i < n ==> i / WORD < WordsFor(n) && PayloadByte(m, dst, i) == PayloadByte(mem, src, i)
  {
    forall i | 0 <= i < n ensures i / WORD < WordsFor(n) && PayloadByte(m, dst, i) == PayloadByte(mem, src, i) {
      ByteIndex(n, i);
      if i / WORD == n / WORD {
        MergedByte(mem[dst + n / WORD], mem[src + n / WORD], n % WORD, i % WORD);
      }
    }
  }

  /** Word-wise part of the copy. */
  method CopyWords(mem: seq<int>, dst: int, src: int, n: nat) returns (m: seq<int>)
    requires 0 <= dst && 0 <= src && dst + n <= |mem| && src + n <= |mem|
    requires dst + n <= src || src + n <= dst
    ensures |m| == |mem|
    ensures forall v :: 0 <= v < |mem| && !(dst <= v < dst + n) ==> m[v] == mem[v]
    ensures forall v :: dst <= v < dst + n ==> m[v] == mem[v - dst + src]
  {
    m := mem;
    for k := 0 to n
      invariant |m| == |mem|
      invariant forall v :: 0 <= v < |mem| && !(dst <= v < dst + k) ==> m[v] == mem[v]
      invariant forall v :: dst <= v < dst + k ==> m[v] == mem[v - dst + src]
    {
      m := m[dst + k := m[src + k]];
    }
  }

  lemma WordsForBounds(n: nat)
    ensures WordsFor(n) == n / WORD + (if n % WORD == 0 then 0 else 1)
  {
    if WORD == 4 { } else { }
  }

  lemma ByteIndex(n: nat, i: nat)
    requires i < n
    ensures i / WORD < WordsFor(n) && i / WORD <= n / WORD
    ensures i / WORD == n / WORD ==> i % WORD < n % WORD
  {
    if WORD == 4 { } else { }
  }
}
