/** The allocator's public operations. A pointer is the word address of a
    block's payload, two words past the block. */
module Tlsf {
  import opened Wrappers
  import opened Arith
  import opened TlsfMapping
  import opened TlsfShape
  import opened TlsfLists
  import opened TlsfMemory
  import opened TlsfPool
  import opened TlsfFreeList
  import opened TlsfBlocks
  import opened TlsfSettle
  import opened TlsfTrim

  /** The blocks in the hands of callers. */
  ghost function Live(g: Shape, end: int): set<int> {
    set a | a in g && !g[a].free && a != end
  }

  // --------------------------------------------------------- request sizes

  /** align_up for a power of two. */
  function AlignUp(x: nat, align: nat): nat
    requires align > 0
  {
    (x + align - 1) / align * align
  }

  lemma AlignUpBounds(x: nat, align: nat)
    requires align > 0
    ensures x <= AlignUp(x, align) < x + align && AlignUp(x, align) % align == 0
  {
    DivBounds(x + align - 1, align);
    DivModUnique(AlignUp(x, align), align, (x + align - 1) / align, 0);
  }

  /** adjust_request_size, in bytes. */
  function AdjustRequestSize(size: nat, align: nat): nat
    requires align > 0
  {
    if 0 < size < BLOCK_SIZE_MAX then
      var aligned := AlignUp(size, align);
      if aligned > Bytes(MIN_SIZE) then aligned else Bytes(MIN_SIZE)
    else 0
  }

  /** A rounded request in words; zero when the request cannot be served. */
  function RequestWords(size: nat): (n: nat)
    ensures n == 0 <==> size == 0 || size >= BLOCK_SIZE_MAX
    ensures n != 0 ==> MIN_SIZE <= n && size <= Bytes(n)
    ensures Bytes(n) == AdjustRequestSize(size, WORD)
  {
    AlignUpBounds(size, WORD);
    AdjustRequestSize(size, WORD) / WORD
  }

  // --------------------------------------------------- locating and preparing

  /** block_locate_free */
  method BlockLocateFree(p: Pool, size: nat) returns (b: Option<int>)
    requires p.Valid() && Bytes(size) <= SEARCH_LIMIT
    modifies p`mem, p`heads, p`slBitmap, p`flBitmap, p`g
    ensures b.None? <==> size == 0 || !Available(old(p.g), MappingSearch(Bytes(size)).0, MappingSearch(Bytes(size)).1)
    ensures b.None? ==> p.Valid() && p.mem == old(p.mem) && p.g == old(p.g)
    ensures b.Some? ==>
              && Taken(p, b.value) && !p.g[b.value].prevFree && p.g[b.value].size >= size
              && b.value in old(p.g) && p.g == Unlisted(old(p.g), b.value)
              && LowestFit(old(p.g), MappingSearch(Bytes(size)).0, MappingSearch(Bytes(size)).1, b.value)
              && Preserves(old(p.mem), old(p.g), p.mem, p.g, -1)
  {
    b := None;
    if size != 0 {
      var fl, sl;
      b, fl, sl := FindFit(p, size);
      if b.Some? {
        p.Reads(b.value);
        assert p.BlockSize(b.value) >= size;
        TakeSettles(p.g, p.end, b.value);
        RemoveFreeBlock(p, b.value, fl, sl);
      }
    }
  }

  /** The class search for a non-zero request, with the guarantee that lets
      block_locate_free skip any comparison of sizes. */
  method FindFit(p: Pool, size: nat) returns (b: Option<int>, fl: int, sl: int)
    requires p.Valid() && Bytes(size) <= SEARCH_LIMIT
    ensures b.None? <==> !Available(p.g, MappingSearch(Bytes(size)).0, MappingSearch(Bytes(size)).1)
    ensures b.Some? ==>
              b.value in p.g && p.g[b.value].listed && p.g[b.value].size >= size && Class(p.g[b.value].size) == (fl, sl)
    ensures b.Some? ==> LowestFit(p.g, MappingSearch(Bytes(size)).0, MappingSearch(Bytes(size)).1, b.value)
  {
    MappingSearchInRange(Bytes(size));
    var c := MappingSearch(Bytes(size));
    b, fl, sl := SearchSuitableBlock(p, c.0, c.1);
    if b.Some? {
      GoodFitWords(size, p.g[b.value].size);
    }
  }

  /** Unlisting a free block leaves it the only unfiled one, its neighbours used. */
  lemma TakeSettles(g: Shape, end: int, a: int)
    requires Tiled(g, end) && SettledExcept(g, end, -1) && a in g && g[a].listed
    ensures a != end && g[a].free && !g[a].prevFree && Next(g, a) in g && !g[Next(g, a)].free
    ensures SettledExcept(Unlisted(g, a), end, a)
  {
    assert Fits(g, end, a) && FlagOk(g, end, a) && QuietAt(g, a, -1);
    if a != FIRST {
      assert Fits(g, end, g[a].prev) && QuietAt(g, g[a].prev, -1);
    }
    var g' := Unlisted(g, a);
    forall b | b in g' ensures FlagOk(g', end, b) {
      assert FlagOk(g, end, b);
    }
    forall b | b in g' && b != a ensures QuietAt(g', b, a) {
      assert Fits(g, end, b) && QuietAt(g, b, -1);
    }
  }

  /** block_prepare_used */
  method BlockPrepareUsed(p: Pool, a: int, size: nat) returns (ptr: int)
    requires Taken(p, a) && MIN_SIZE <= size <= p.g[a].size
    modifies p`mem, p`heads, p`slBitmap, p`flBitmap, p`g, p`clock
    ensures p.Valid() && ptr == a + 2 && a in p.g && !p.g[a].free
    ensures Next(Trimmed(old(p.g), a, size, old(p.clock)), a) in Trimmed(old(p.g), a, size, old(p.clock))
    ensures p.g == MarkedUsed(Trimmed(old(p.g), a, size, old(p.clock)), a)
    ensures p.g[a].size == if old(p.g)[a].size >= size + 4 then size else old(p.g)[a].size
    ensures Preserves(old(p.mem), old(p.g), p.mem, p.g, a)
  {
    ghost var m0, g0 := p.mem, p.g;
    BlockTrimFree(p, a, size);
    ghost var m1, g1 := p.mem, p.g;
    PreservesMore(m0, g0, m1, g1, p.end, a);
    MarkUsedSettles(p.g, p.end, a);
    BlockMarkAsUsed(p, a);
    PreservesTrans(m0, g0, m1, g1, p.mem, p.g, a);
    ptr := a + 2;
  }

  /** A block came into use: exactly one more live block, all others untouched. */
  ghost predicate Allocated(mem: seq<int>, g: Shape, mem': seq<int>, g': Shape, end: int, a: int) {
    && Live(g', end) == Live(g, end) + {a} && a !in Live(g, end) && a in g'
    && forall b :: b in Live(g, end) ==> Kept(mem, g, mem', g', b)
  }

  lemma AllocatedFrom(mem: seq<int>, g: Shape, mem': seq<int>, g': Shape, end: int, a: int)
    requires Preserves(mem, g, mem', g', a) && a in g' && !g'[a].free && a != end
    requires a in g ==> g[a].free
    ensures Allocated(mem, g, mem', g', end, a)
  {
    forall b | b in Live(g, end) ensures b in Live(g', end) && Kept(mem, g, mem', g', b) {
      assert Kept(mem, g, mem', g', b);
    }
  }

  /** n words of the free block at a came into use. What is left over is a free block of its
      own if it can be one, else it stays with the block; and no other block has changed. */
  ghost predicate CutFrom(g: Shape, g': Shape, a: int, n: nat) {
    && a in g && g[a].free && a in g' && !g'[a].free
    && (forall b :: b in g && b != a ==> b in g' && g'[b].size == g[b].size && g'[b].free == g[b].free)
    && (g[a].size < n + 4 ==> g'.Keys == g.Keys && g'[a].size == g[a].size)
    && (g[a].size >= n + 4 ==>
          && g'.Keys == g.Keys + {a + 1 + n} && g'[a].size == n
          && g'[a + 1 + n].free && g'[a + 1 + n].size == g[a].size - n - 1)
  }

  lemma CutByTrimming(g: Shape, end: int, a: int, n: nat, clock: nat)
    requires Tiled(g, end) && a in g && a != end && g[a].free && MIN_SIZE <= n && Next(g, a) in g
    requires var t := Trimmed(Unlisted(g, a), a, n, clock); a in t && Next(t, a) in t
    ensures CutFrom(g, MarkedUsed(Trimmed(Unlisted(g, a), a, n, clock), a), a, n)
  {
    if g[a].size >= n + 4 { Interior(g, end, a, a + 1 + n); }
  }

  /** tlsf_malloc */
  method Malloc(p: Pool, size: nat) returns (r: Option<int>)
    requires p.Valid() && AdjustRequestSize(size, WORD) <= SEARCH_LIMIT
    modifies p`mem, p`heads, p`slBitmap, p`flBitmap, p`g, p`clock
    ensures p.Valid()
    ensures var c := MappingSearch(AdjustRequestSize(size, WORD));
            r.None? <==> size == 0 || size >= BLOCK_SIZE_MAX || !Available(old(p.g), c.0, c.1)
    ensures r.None? ==> p.mem == old(p.mem) && p.g == old(p.g)
    ensures var c := MappingSearch(AdjustRequestSize(size, WORD));
            r.Some? ==> LowestFit(old(p.g), c.0, c.1, r.value - 2)
    ensures r.Some? ==>
              && r.value - 2 in p.g && size <= Bytes(p.g[r.value - 2].size)
              && CutFrom(old(p.g), p.g, r.value - 2, RequestWords(size))
              && Allocated(old(p.mem), old(p.g), p.mem, p.g, p.end, r.value - 2)
  {
    hide CutFrom, LowestFit, Available, Allocated, Flags, ListsOk;
    ghost var m0, g0 := p.mem, p.g;
    var adjust := RequestWords(size);
    var b := BlockLocateFree(p, adjust);
    r := None;
    if b.Some? {
      var a := b.value;
      ghost var m1, g1 := p.mem, p.g;
      ghost var clock := p.clock;
      var ptr := BlockPrepareUsed(p, a, adjust);
      CutByTrimming(g0, p.end, a, adjust, clock);
      PreservesMore(m0, g0, m1, g1, p.end, a);
      PreservesTrans(m0, g0, m1, g1, p.mem, p.g, a);
      AllocatedFrom(m0, g0, p.mem, p.g, p.end, a);
      r := Some(ptr);
    }
  }

  // ------------------------------------------------------------------- free

  /** A block went out of use: exactly one live block fewer, all others untouched. */
  ghost predicate Released(mem: seq<int>, g: Shape, mem': seq<int>, g': Shape, end: int, a: int) {
    && a in Live(g, end) && Live(g', end) == Live(g, end) - {a}
    && forall b :: b in Live(g, end) && b != a ==> Kept(mem, g, mem', g', b)
  }

  lemma ReleasedFrom(mem: seq<int>, g: Shape, mem': seq<int>, g': Shape, end: int, a: int)
    requires Preserves(mem, g, mem', g', a) && a in Live(g, end)
    requires a in g' ==> g'[a].free
    ensures Released(mem, g, mem', g', end, a)
  {
    forall b | b in Live(g, end) && b != a ensures b in Live(g', end) && Kept(mem, g, mem', g', b) {
      assert Kept(mem, g, mem', g', b);
    }
  }

  /** tlsf_free. Freeing a null pointer does nothing. */
  method Free(p: Pool, ptr: Option<int>)
    requires p.Valid() && (ptr.Some? ==> ptr.value - 2 in Live(p.g, p.end))
    modifies p`mem, p`heads, p`slBitmap, p`flBitmap, p`g, p`clock
    ensures p.Valid()
    ensures ptr.None? ==> p.mem == old(p.mem) && p.g == old(p.g)
    ensures ptr.Some? ==> Released(old(p.mem), old(p.g), p.mem, p.g, p.end, ptr.value - 2)
  {
    if ptr.Some? { FreeLive(p, ptr.value); }
  }

  /** tlsf_free of a live pointer. */
  method FreeLive(p: Pool, ptr: int)
    requires p.Valid() && ptr - 2 in Live(p.g, p.end)
    modifies p`mem, p`heads, p`slBitmap, p`flBitmap, p`g, p`clock
    ensures p.Valid() && Released(old(p.mem), old(p.g), p.mem, p.g, p.end, ptr - 2)
  {
    ghost var m0, g0 := p.mem, p.g;
    var a := ptr - 2;
    MarkFreeSettles(p.g, p.end, a);
    BlockMarkAsFree(p, a);
    ghost var m1, g1 := p.mem, p.g;
    var b := Coalesce(p, a);
    ghost var m2, g2 := p.mem, p.g;
    PreservesMore(m1, g1, m2, g2, p.end, a);
    PreservesTrans(m0, g0, m1, g1, m2, g2, a);
    FreeStaysFree(m1, g1, m2, g2, p.end, a);
    ReleasedFrom(m0, g0, p.mem, p.g, p.end, a);
  }

  lemma FreeStaysFree(mem: seq<int>, g: Shape, mem': seq<int>, g': Shape, end: int, a: int)
    requires Tiled(g', end) && Preserves(mem, g, mem', g', -1) && a in g && g[a].free
    ensures a in g' ==> g'[a].free
  {
    assert a in g' ==> Fits(g', end, a);
  }

  /** The merge and insert steps of tlsf_free. */
  method Coalesce(p: Pool, a: int) returns (b: int)
    requires p.Inv() && SettledExcept(p.g, p.end, a) && a in p.g && a != p.end && p.g[a].free
    modifies p`mem, p`heads, p`slBitmap, p`flBitmap, p`g, p`clock
    ensures p.Valid() && Preserves(old(p.mem), old(p.g), p.mem, p.g, -1)
  {
    ghost var m0, g0 := p.mem, p.g;
    b := MergeBack(p, a);
    ghost var m1, g1 := p.mem, p.g;
    FileTail(p, b);
    PreservesTrans(m0, g0, m1, g1, p.mem, p.g, -1);
  }

  method MergeBack(p: Pool, a: int) returns (b: int)
    requires p.Inv() && SettledExcept(p.g, p.end, a) && a in p.g && a != p.end && p.g[a].free
    modifies p`mem, p`heads, p`slBitmap, p`flBitmap, p`g
    ensures p.Inv() && Preserves(old(p.mem), old(p.g), p.mem, p.g, -1)
    ensures SettledExcept(p.g, p.end, b) && b in p.g && b != p.end && p.g[b].free && !p.g[b].prevFree
  {
    assert Fits(p.g, p.end, a) && FlagOk(p.g, p.end, a);
    if p.g[a].prevFree { MergePrevSettles(p.g, p.end, a); }
    b := BlockMergePrev(p, a);
    assert Fits(p.g, p.end, b) && FlagOk(p.g, p.end, b);
  }
}
