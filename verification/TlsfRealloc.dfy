/** tlsf_realloc, and writes by callers to their own payloads. */
module TlsfRealloc {
  import opened Wrappers
  import opened Arith
  import opened TlsfMapping
  import opened TlsfShape
  import opened TlsfLists
  import opened TlsfMemory
  import opened TlsfSteps
  import opened TlsfPool
  import opened TlsfFreeList
  import opened TlsfBlocks
  import opened TlsfSettle
  import opened TlsfTrim
  import opened TlsfCopy
  import opened Tlsf

  /** mem' differs from mem only inside the payload of block a. */
  ghost predicate OnlyPayload(mem: seq<int>, mem': seq<int>, g: Shape, a: int)
    requires a in g
  {
    |mem'| == |mem| && forall w :: 0 <= w < |mem| && !(a + 2 <= w <= Next(g, a)) ==> mem'[w] == mem[w]
  }

  /** Whatever a caller stores in a live payload, the pool stays at rest and no
      other live payload changes. */
  lemma PayloadWrite(mem: seq<int>, mem': seq<int>, heads: Heads, g: Shape, clock: nat, end: int, a: int)
    requires Sound(mem, heads, g, clock, end) && SettledExcept(g, end, -1)
    requires a in Live(g, end) && OnlyPayload(mem, mem', g, a)
    ensures Sound(mem', heads, g, clock, end) && Preserves(mem, g, mem', g, a)
  {
    assert Fits(g, end, a) && QuietAt(g, a, -1);
    forall b | b in g ensures HdrOk(mem', g, b) {
      assert HdrOk(mem, g, b);
      OutsidePayload(g, end, a, b, b + 1);
      if g[b].linked {
        assert Fits(g, end, b);
        OutsidePayload(g, end, a, b, Next(g, b));
      }
    }
    forall x | x in g && g[x].listed
      ensures x + 3 < |mem| && FIRST <= x && mem'[x + 2] == mem[x + 2] && mem'[x + 3] == mem[x + 3] {
      assert NodeOk(mem, heads, g, clock, x) && FlagOk(g, end, x);
      OutsidePayload(g, end, a, x, x + 2);
      OutsidePayload(g, end, a, x, x + 3);
    }
    FrameLists(mem, heads, g, clock, mem', g);
    forall b | b in g && !g[b].free && b != a ensures Kept(mem, g, mem', g, b) {
      Separate(g, end, a, b);
    }
  }

  /** A caller stores a word in its own payload. */
  method UserWrite(p: Pool, ptr: int, w: int, v: int)
    requires p.Valid() && ptr - 2 in Live(p.g, p.end) && ptr <= w <= Next(p.g, ptr - 2)
    modifies p`mem
    ensures p.Valid() && Preserves(old(p.mem), old(p.g), p.mem, p.g, ptr - 2)
    ensures 0 <= w < |old(p.mem)| && p.mem == old(p.mem)[w := v]
  {
    p.Reads(ptr - 2);
    p.Reads(Next(p.g, ptr - 2));
    PayloadWrite(p.mem, p.mem[w := v], p.heads, p.g, p.clock, p.end, ptr - 2);
    p.mem := p.mem[w := v];
  }

  // ------------------------------------------------------------ growing in place

  /** Take over the free successor: the merge and mark steps of tlsf_realloc. */
  method Expand(p: Pool, a: int)
    requires p.Valid() && a in Live(p.g, p.end) && Next(p.g, a) in p.g && p.g[Next(p.g, a)].free
    modifies p`mem, p`heads, p`slBitmap, p`flBitmap, p`g
    ensures p.Valid() && a in Live(p.g, p.end)
    ensures p.g[a].size == old(p.g)[a].size + old(p.g)[Next(old(p.g), a)].size + 1
    ensures Preserves(old(p.mem), old(p.g), p.mem, p.g, a)
    ensures SamePayload(old(p.mem), p.mem, a, old(p.g)[a].size)
  {
    ghost var m0, g0 := p.mem, p.g;
    ExpandSettles(g0, p.end, a);
    p.Reads(a);
    assert QuietAt(p.g, a, -1);
    assert Fits(p.g, p.end, Next(p.g, a)) && QuietAt(p.g, Next(p.g, a), -1);
    BlockMergeNext(p, a);
    ghost var m1, g1 := p.mem, p.g;
    BlockMarkAsUsed(p, a);
    PreservesTrans(m0, g0, m1, g1, p.mem, p.g, a);
    assert p.g == Expanded(g0, a);
    assert Kept(m1, g1, p.mem, p.g, a);
  }

  // --------------------------------------------------------------- moving

  /** The first n bytes behind two pointers agree. */
  ghost predicate SameBytes(mem: seq<int>, ptr: int, mem': seq<int>, ptr': int, n: nat) {
    && 0 <= ptr && ptr + WordsFor(n) <= |mem| && 0 <= ptr' && ptr' + WordsFor(n) <= |mem'|
    && forall i :: 0 <= i < n ==> i / WORD < WordsFor(n) && PayloadByte(mem', ptr', i) == PayloadByte(mem, ptr, i)
  }

  lemma SameBytesOfWords(mem: seq<int>, mem': seq<int>, ptr: int, n: nat)
    requires 0 <= ptr && |mem'| == |mem| && ptr + WordsFor(n) <= |mem|
    requires forall w :: ptr <= w < ptr + WordsFor(n) ==> mem'[w] == mem[w]
    ensures SameBytes(mem, ptr, mem', ptr, n)
  {
    forall i | 0 <= i < n ensures i / WORD < WordsFor(n) && PayloadByte(mem', ptr, i) == PayloadByte(mem, ptr, i) {
      ByteIndex(n, i);
    }
  }

  lemma WordsForBytes(n: nat, size: nat)
    requires n <= Bytes(size)
    ensures WordsFor(n) <= size
  {
    if WORD == 4 { } else { }
  }

  lemma SameBytesTrans(m0: seq<int>, p0: int, m1: seq<int>, p1: int, m2: seq<int>, p2: int, n: nat)
    requires SameBytes(m0, p0, m1, p1, n) && SameBytes(m1, p1, m2, p2, n)
    ensures SameBytes(m0, p0, m2, p2, n)
  {
    forall i | 0 <= i < n ensures i / WORD < WordsFor(n) && PayloadByte(m2, p2, i) == PayloadByte(m0, p0, i) {
      assert PayloadByte(m1, p1, i) == PayloadByte(m0, p0, i);
    }
  }

  /** The bytes of a kept block are kept. */
  lemma KeptBytes(mem: seq<int>, g: Shape, mem': seq<int>, g': Shape, end: int, a: int, n: nat)
    requires Tiled(g, end) && |mem| == end + 2 && a in g && a != end && Kept(mem, g, mem', g', a)
    requires n <= Bytes(g[a].size)
    ensures SameBytes(mem, a + 2, mem', a + 2, n)
  {
    WordsForBytes(n, g[a].size);
    assert Fits(g, end, a) && Fits(g, end, Next(g, a));
    SameBytesOfWords(mem, mem', a + 2, n);
  }

  /** Copy the old contents into a fresh block. */
  method CopyInto(p: Pool, dst: int, src: int, n: nat)
    requires p.Valid() && dst - 2 in Live(p.g, p.end) && src - 2 in Live(p.g, p.end) && dst != src
    requires n <= Bytes(p.g[dst - 2].size) && n <= Bytes(p.g[src - 2].size)
    modifies p`mem
    ensures p.Valid() && Preserves(old(p.mem), old(p.g), p.mem, p.g, dst - 2)
    ensures SameBytes(old(p.mem), src, p.mem, dst, n)
  {
    p.Reads(dst - 2);
    p.Reads(src - 2);
    p.Reads(Next(p.g, dst - 2));
    p.Reads(Next(p.g, src - 2));
    Separate(p.g, p.end, dst - 2, src - 2);
    WordsForBytes(n, p.g[dst - 2].size);
    WordsForBytes(n, p.g[src - 2].size);
    var m := MemCopy(p.mem, dst, src, n);
    PayloadWrite(p.mem, m, p.heads, p.g, p.clock, p.end, dst - 2);
    p.mem := m;
  }

  /** A live block changed hands from a to b; everything else is untouched. */
  ghost predicate Moved(mem: seq<int>, g: Shape, mem': seq<int>, g': Shape, end: int, a: int, b: int) {
    && Live(g', end) == Live(g, end) - {a} + {b} && (b == a || b !in Live(g, end))
    && forall c :: c in Live(g, end) && c != a ==> Kept(mem, g, mem', g', c)
  }

  lemma MovedFrom(m0: seq<int>, g0: Shape, m1: seq<int>, g1: Shape, m2: seq<int>, m3: seq<int>, g3: Shape, end: int,
                  a: int, b: int)
    requires Allocated(m0, g0, m1, g1, end, b) && Preserves(m1, g1, m2, g1, b) && Released(m2, g1, m3, g3, end, a)
    requires a in Live(g0, end)
    ensures Moved(m0, g0, m3, g3, end, a, b)
  {
    forall c | c in Live(g0, end) && c != a ensures Kept(m0, g0, m3, g3, c) {
      assert Kept(m0, g0, m1, g1, c);
      assert c in Live(g1, end) && c != b;
      assert Kept(m1, g1, m2, g1, c);
      assert Kept(m2, g1, m3, g3, c);
    }
  }

  /** The reallocate-and-copy branch of tlsf_realloc. */
  method MoveBlock(p: Pool, ptr: int, size: nat) returns (r: Option<int>)
    requires p.Valid() && ptr - 2 in Live(p.g, p.end) && 0 < size < BLOCK_SIZE_MAX
    requires AdjustRequestSize(size, WORD) <= SEARCH_LIMIT
    modifies p`mem, p`heads, p`slBitmap, p`flBitmap, p`g, p`clock
    ensures p.Valid()
    ensures var c := MappingSearch(AdjustRequestSize(size, WORD));
            r.None? <==> !Available(old(p.g), c.0, c.1)
    ensures r.None? ==> p.mem == old(p.mem) && p.g == old(p.g)
    ensures r.Some? ==>
              && r.value - 2 in p.g && size <= Bytes(p.g[r.value - 2].size)
              && p.g[r.value - 2].size < RequestWords(size) + 4
              && Moved(old(p.mem), old(p.g), p.mem, p.g, p.end, ptr - 2, r.value - 2)
              && SameBytes(old(p.mem), ptr, p.mem, r.value, Min(Bytes(old(p.g)[ptr - 2].size), size))
  {
    ghost var m0, g0 := p.mem, p.g;
    p.Reads(ptr - 2);
    var minsize := Min(Bytes(p.BlockSize(ptr - 2)), size);
    r := Malloc(p, size);
    if r.Some? {
      Relocate(p, ptr, r.value, minsize, m0, g0);
    }
  }

  /** Copy to the new block and free the old one. */
  method Relocate(p: Pool, src: int, dst: int, n: nat, ghost m0: seq<int>, ghost g0: Shape)
    requires p.Valid() && src - 2 in Live(g0, p.end) && Allocated(m0, g0, p.mem, p.g, p.end, dst - 2)
    requires Tiled(g0, p.end) && |m0| == p.end + 2
    requires n <= Bytes(p.g[dst - 2].size) && n <= Bytes(g0[src - 2].size)
    modifies p`mem, p`heads, p`slBitmap, p`flBitmap, p`g, p`clock
    ensures p.Valid() && Moved(m0, g0, p.mem, p.g, p.end, src - 2, dst - 2)
    ensures dst - 2 in p.g && p.g[dst - 2].size == old(p.g)[dst - 2].size
    ensures SameBytes(m0, src, p.mem, dst, n)
  {
    ghost var m1, g1 := p.mem, p.g;
    assert Kept(m0, g0, m1, g1, src - 2);
    KeptBytes(m0, g0, m1, g1, p.end, src - 2, n);
    CopyInto(p, dst, src, n);
    ghost var m2 := p.mem;
    Free(p, Some(src));
    assert Kept(m2, g1, p.mem, p.g, dst - 2);
    KeptBytes(m2, g1, p.mem, p.g, p.end, dst - 2, n);
    SameBytesTrans(m0, src, m1, src, m2, dst, n);
    SameBytesTrans(m0, src, m2, dst, p.mem, dst, n);
    MovedFrom(m0, g0, m1, g1, m2, p.mem, p.g, p.end, src - 2, dst - 2);
  }

  // ---------------------------------------------------------------- realloc

  /** The block and its free successor together hold n words. */
  ghost predicate FitsInPlace(g: Shape, a: int, n: nat)
    requires a in g
  {
    n <= g[a].size || (Next(g, a) in g && g[Next(g, a)].free && n <= g[a].size + g[Next(g, a)].size + 1)
  }

  /** The trim-in-place branch of tlsf_realloc. */
  method ResizeInPlace(p: Pool, ptr: int, size: nat, adjust: nat)
    requires p.Valid() && ptr - 2 in Live(p.g, p.end) && MIN_SIZE <= adjust && size <= Bytes(adjust)
    requires FitsInPlace(p.g, ptr - 2, adjust)
    modifies p`mem, p`heads, p`slBitmap, p`flBitmap, p`g, p`clock
    ensures p.Valid() && ptr - 2 in Live(p.g, p.end) && size <= Bytes(p.g[ptr - 2].size)
    ensures p.g[ptr - 2].size < adjust + 4
    ensures Preserves(old(p.mem), old(p.g), p.mem, p.g, ptr - 2)
    ensures SameBytes(old(p.mem), ptr, p.mem, ptr, Min(Bytes(old(p.g)[ptr - 2].size), size))
  {
    ghost var m0, g0 := p.mem, p.g;
    var a := ptr - 2;
    p.Reads(a);
    ghost var cur := p.g[a].size;
    if adjust > p.BlockSize(a) {
      Expand(p, a);
    } else {
      forall x | x in p.g && !p.g[x].free && x != a ensures Kept(m0, g0, p.mem, p.g, x) { }
      p.Reads(Next(p.g, a));
    }
    ghost var m1, g1 := p.mem, p.g;
    BlockTrimUsed(p, a, adjust);
    PreservesTrans(m0, g0, m1, g1, p.mem, p.g, a);
    ghost var n := Min(Bytes(cur), size);
    WordsForBytes(n, cur);
    WordsForBytes(n, adjust);
    SameBytesOfWords(m0, p.mem, ptr, n);
  }

  lemma MovedInPlace(mem: seq<int>, g: Shape, mem': seq<int>, g': Shape, end: int, a: int)
    requires Preserves(mem, g, mem', g', a) && a in Live(g, end) && a in Live(g', end)
    ensures Moved(mem, g, mem', g', end, a, a)
  {
    forall c | c in Live(g, end) && c != a ensures c in Live(g', end) && Kept(mem, g, mem', g', c) {
      assert Kept(mem, g, mem', g', c);
    }
  }

  /** tlsf_realloc of a live pointer to a non-zero size. */
  method ReallocLive(p: Pool, ptr: int, size: nat) returns (r: Option<int>)
    requires p.Valid() && ptr - 2 in Live(p.g, p.end) && 0 < size < BLOCK_SIZE_MAX
    requires AdjustRequestSize(size, WORD) <= SEARCH_LIMIT || FitsInPlace(p.g, ptr - 2, RequestWords(size))
    modifies p`mem, p`heads, p`slBitmap, p`flBitmap, p`g, p`clock
    ensures p.Valid()
    ensures var c := MappingSearch(AdjustRequestSize(size, WORD));
            r.None? <==> !FitsInPlace(old(p.g), ptr - 2, RequestWords(size)) && !Available(old(p.g), c.0, c.1)
    ensures FitsInPlace(old(p.g), ptr - 2, RequestWords(size)) ==> r == Some(ptr)
    ensures r.None? ==> p.mem == old(p.mem) && p.g == old(p.g)
    ensures r.Some? ==>
              && r.value - 2 in p.g && size <= Bytes(p.g[r.value - 2].size)
              && p.g[r.value - 2].size < RequestWords(size) + 4
              && Moved(old(p.mem), old(p.g), p.mem, p.g, p.end, ptr - 2, r.value - 2)
              && SameBytes(old(p.mem), ptr, p.mem, r.value, Min(Bytes(old(p.g)[ptr - 2].size), size))
  {
    hide Pow2, Available;
    ghost var m0, g0 := p.mem, p.g;
    var a := ptr - 2;
    p.Reads(a);
    var next := p.BlockNext(a);
    p.Reads(next);
    var cursize := p.BlockSize(a);
    var combined := cursize + p.BlockSize(next) + 1;
    var adjust := RequestWords(size);
    if adjust > cursize && (!p.BlockIsFree(next) || adjust > combined) {
      r := MoveBlock(p, ptr, size);
    } else {
      ResizeInPlace(p, ptr, size, adjust);
      MovedInPlace(m0, g0, p.mem, p.g, p.end, a);
      r := Some(ptr);
    }
  }

  /** tlsf_realloc: a null pointer means malloc, a zero size means free. */
  method Realloc(p: Pool, ptr: Option<int>, size: nat) returns (r: Option<int>)
    requires p.Valid()
    requires ptr.Some? ==> ptr.value - 2 in Live(p.g, p.end) && size < BLOCK_SIZE_MAX
    requires
      || AdjustRequestSize(size, WORD) <= SEARCH_LIMIT
      || (ptr.Some? && FitsInPlace(p.g, ptr.value - 2, RequestWords(size)))
    modifies p`mem, p`heads, p`slBitmap, p`flBitmap, p`g, p`clock
    ensures p.Valid()
    ensures ptr.Some? && size == 0 ==> r.None? && Released(old(p.mem), old(p.g), p.mem, p.g, p.end, ptr.value - 2)
    ensures r.None? && !(ptr.Some? && size == 0) ==> p.mem == old(p.mem) && p.g == old(p.g)
    ensures r.Some? ==> r.value - 2 in p.g && size <= Bytes(p.g[r.value - 2].size)
    ensures r.Some? ==> p.g[r.value - 2].size < RequestWords(size) + 4
    ensures r.Some? && ptr.None? ==> Allocated(old(p.mem), old(p.g), p.mem, p.g, p.end, r.value - 2)
    ensures r.Some? && ptr.Some? ==>
              && Moved(old(p.mem), old(p.g), p.mem, p.g, p.end, ptr.value - 2, r.value - 2)
              && SameBytes(old(p.mem), ptr.value, p.mem, r.value, Min(Bytes(old(p.g)[ptr.value - 2].size), size))
  {
    hide Pow2, Moved, SameBytes, Allocated, Released;
    r := None;
    if ptr.Some? && size == 0 {
      Free(p, ptr);
    } else if ptr.None? {
      r := Malloc(p, size);
    } else {
      r := ReallocLive(p, ptr.value, size);
    }
  }
}
