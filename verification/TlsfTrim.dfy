/** Trimming blocks to size and returning the excess to the free lists. */
module TlsfTrim {
  import opened TlsfMapping
  import opened TlsfShape
  import opened TlsfLists
  import opened TlsfMemory
  import opened TlsfPool
  import opened TlsfFreeList
  import opened TlsfBlocks
  import opened TlsfSettle

  /** A free block that is in no list, before a used block. */
  ghost predicate Taken(p: Pool, a: int)
    reads p
  {
    && p.Inv() && SettledExcept(p.g, p.end, a)
    && a in p.g && a != p.end && p.g[a].free && Next(p.g, a) in p.g && !p.g[Next(p.g, a)].free
  }

  predicate BlockCanSplit(p: Pool, a: int, size: nat)
    reads p
    requires 0 <= a && a + 1 < |p.mem|
  {
    p.BlockSize(a) >= 4 + size
  }

  /** The shape after trimming: what can stand alone is a listed free block of its own. */
  ghost function Trimmed(g: Shape, a: int, size: nat, clock: nat): Shape
    requires a in g && Next(g, a) in g
  {
    if g[a].size >= size + 4 then Inserted(TrimmedFree(g, a, size), a + 1 + size, clock) else g
  }

  /** block_trim_free */
  method BlockTrimFree(p: Pool, a: int, size: nat)
    requires Taken(p, a) && MIN_SIZE <= size <= p.g[a].size
    modifies p`mem, p`heads, p`slBitmap, p`flBitmap, p`g, p`clock
    ensures p.Inv() && SettledExcept(p.g, p.end, a) && a in p.g && p.g[a].free
    ensures p.g == Trimmed(old(p.g), a, size, old(p.clock))
    ensures p.g[a].size == if old(p.g)[a].size >= size + 4 then size else old(p.g)[a].size
    ensures Preserves(old(p.mem), old(p.g), p.mem, p.g, -1)
  {
    ghost var m0, g0 := p.mem, p.g;
    p.Reads(a);
    if BlockCanSplit(p, a, size) {
      CutTrailing(p, a, size);
    } else {
      forall x | x in p.g && !p.g[x].free && x != -1 ensures Kept(m0, g0, p.mem, p.g, x) { }
    }
  }

  method CutTrailing(p: Pool, a: int, size: nat)
    requires Taken(p, a) && MIN_SIZE <= size && size + 4 <= p.g[a].size
    modifies p`mem, p`heads, p`slBitmap, p`flBitmap, p`g, p`clock
    ensures p.Inv() && SettledExcept(p.g, p.end, a)
    ensures p.g == Trimmed(old(p.g), a, size, old(p.clock))
    ensures Preserves(old(p.mem), old(p.g), p.mem, p.g, -1)
  {
    hide BitsOk, Dims, ListsOk, Preserves, Tiled, Bytes, Fits;
    ghost var m0, g0 := p.mem, p.g;
    var r := CutFree(p, a, size);
    ghost var m1, g1 := p.mem, p.g;
    TrimFreeSettles(g0, p.end, a, size, p.clock, r, r);
    BlockInsert(p, r);
    PreservesTrans(m0, g0, m1, g1, p.mem, p.g, -1);
  }

  /** The split, link and flag updates shared by both trims of a free block. */
  method CutFree(p: Pool, a: int, size: nat) returns (r: int)
    requires Taken(p, a) && MIN_SIZE <= size && size + 4 <= p.g[a].size
    modifies p`mem, p`g
    ensures p.Inv() && r == a + 1 + size && Flags(p.g, p.end)
    ensures Next(old(p.g), a) in old(p.g) && p.g == TrimmedFree(old(p.g), a, size) && r in p.g && r != p.end
    ensures Preserves(old(p.mem), old(p.g), p.mem, p.g, -1)
  {
    ghost var m0, g0 := p.mem, p.g;
    SplitTiles(g0, p.end, a, size, true);
    TrimFreeFlags(g0, p.end, a, size);
    ghost var flag;
    r, flag := BlockSplit(p, a, size);
    ghost var m1, g1 := p.mem, p.g;
    PreservesShift(m0, g0, m1, g1, a, -1);
    var next := p.BlockLinkNext(a);
    ghost var m2, g2 := p.mem, p.g;
    PreservesShift(m1, g1, m2, g2, a, -1);
    PreservesTrans(m0, g0, m1, g1, m2, g2, -1);
    p.BlockSetPrevFree(r);
    PreservesTrans(m0, g0, m2, g2, p.mem, p.g, -1);
    p.Reads(r);
    assert p.g == TrimmedFree(g0, a, size);
  }

  /** block_trim_free_leading: keeps the second part, files the first. */
  method BlockTrimFreeLeading(p: Pool, a: int, size: nat) returns (r: int)
    requires Taken(p, a) && !p.g[a].prevFree && 4 <= size
    modifies p`mem, p`heads, p`slBitmap, p`flBitmap, p`g, p`clock
    ensures p.Inv() && Preserves(old(p.mem), old(p.g), p.mem, p.g, -1)
    ensures old(p.g)[a].size >= size + 4 ==>
              r == a + size && Taken(p, r) && p.g[r].size == old(p.g)[a].size - size
    ensures old(p.g)[a].size < size + 4 ==> r == a && p.g == old(p.g) && p.mem == old(p.mem)
  {
    ghost var m0, g0 := p.mem, p.g;
    p.Reads(a);
    r := a;
    if BlockCanSplit(p, a, size) {
      r := CutLeading(p, a, size);
    } else {
      forall x | x in p.g && !p.g[x].free && x != -1 ensures Kept(m0, g0, p.mem, p.g, x) { }
    }
  }

  method CutLeading(p: Pool, a: int, size: nat) returns (r: int)
    requires Taken(p, a) && !p.g[a].prevFree && 4 <= size && size + 4 <= p.g[a].size
    modifies p`mem, p`heads, p`slBitmap, p`flBitmap, p`g, p`clock
    ensures Preserves(old(p.mem), old(p.g), p.mem, p.g, -1)
    ensures r == a + size && Taken(p, r) && p.g[r].size == old(p.g)[a].size - size
  {
    hide BitsOk, Dims, ListsOk, Preserves, Tiled, Bytes, Fits;
    ghost var m0, g0 := p.mem, p.g;
    r := CutFree(p, a, size - 1);
    ghost var m1, g1 := p.mem, p.g;
    TrimFreeSettles(g0, p.end, a, size - 1, p.clock, a, r);
    TailOf(g0, p.end, a, size - 1, p.clock, r);
    BlockInsert(p, a);
    PreservesTrans(m0, g0, m1, g1, p.mem, p.g, -1);
  }

  /** block_trim_used */
  method BlockTrimUsed(p: Pool, a: int, size: nat)
    requires p.Valid() && a in p.g && a != p.end && !p.g[a].free && MIN_SIZE <= size <= p.g[a].size
    modifies p`mem, p`heads, p`slBitmap, p`flBitmap, p`g, p`clock
    ensures p.Valid() && a in p.g && !p.g[a].free
    ensures p.g[a].size == if old(p.g)[a].size >= size + 4 then size else old(p.g)[a].size
    ensures Preserves(old(p.mem), old(p.g), p.mem, p.g, a)
    ensures SamePayload(old(p.mem), p.mem, a, size)
  {
    ghost var m0, g0 := p.mem, p.g;
    p.Reads(a);
    ghost var n := Next(p.g, a);
    p.Reads(n);
    if BlockCanSplit(p, a, size) {
      var r := CutUsed(p, a, size);
      ghost var m1, g1 := p.mem, p.g;
      FileTail(p, r);
      PreservesMore(m1, g1, p.mem, p.g, p.end, a);
      PreservesTrans(m0, g0, m1, g1, p.mem, p.g, a);
      assert Kept(m1, g1, p.mem, p.g, a) by { assert a != -1; }
    } else {
      forall x | x in p.g && !p.g[x].free && x != a ensures Kept(m0, g0, p.mem, p.g, x) { }
    }
  }

  lemma PreservesMore(mem: seq<int>, g: Shape, mem': seq<int>, g': Shape, end: int, x: int)
    requires Tiled(g, end) && Tiled(g', end) && Preserves(mem, g, mem', g', -1)
    ensures Preserves(mem, g, mem', g', x)
  {
    KeepsMore(mem, g, mem', g', end, x);
    forall b | b in g' && !g'[b].free && b != x ensures b in g && !g[b].free {
      assert Fits(g', end, b);
    }
  }

  method CutUsed(p: Pool, a: int, size: nat) returns (r: int)
    requires p.Valid() && a in p.g && a != p.end && !p.g[a].free && MIN_SIZE <= size && size + 4 <= p.g[a].size
    modifies p`mem, p`g
    ensures p.Inv() && r == a + 1 + size && a in p.g && !p.g[a].free && p.g[a].size == size
    ensures r in p.g && r != p.end && p.g[r].free && !p.g[r].prevFree && SettledExcept(p.g, p.end, r)
    ensures Preserves(old(p.mem), old(p.g), p.mem, p.g, a)
    ensures SamePayload(old(p.mem), p.mem, a, size)
  {
    hide HeaderFree, BitsOk, Dims;
    ghost var m0, g0 := p.mem, p.g;
    TrimUsedSettles(g0, p.end, a, size);
    SplitTiles(g0, p.end, a, size, false);
    p.Reads(a);
    assert QuietAt(g0, a, -1);
    ghost var flag;
    r, flag := BlockSplit(p, a, size);
    ghost var m1, g1 := p.mem, p.g;
    p.Reads(a);
    p.BlockSetPrevUsed(r);
    PreservesMore(m1, g1, p.mem, p.g, p.end, a);
    PreservesTrans(m0, g0, m1, g1, p.mem, p.g, a);
    assert p.g == SplitShape(g0, a, size, false);
    p.Reads(r);
    p.Reads(a);
    assert Kept(m1, g1, p.mem, p.g, a);
  }

  /** A free, unfiled block behind a used one: coalesce it with its successor
      and put it into its list. */
  method FileTail(p: Pool, r: int)
    requires p.Inv() && SettledExcept(p.g, p.end, r)
    requires r in p.g && r != p.end && p.g[r].free && !p.g[r].prevFree
    modifies p`mem, p`heads, p`slBitmap, p`flBitmap, p`g, p`clock
    ensures p.Valid() && Preserves(old(p.mem), old(p.g), p.mem, p.g, -1)
  {
    ghost var m0, g0 := p.mem, p.g;
    p.Reads(r);
    ghost var n := Next(p.g, r);
    assert QuietAt(p.g, n, r);
    if g0[n].free { MergeNextSettles(g0, p.end, r); }
    BlockMergeNext(p, r);
    ghost var m1, g1 := p.mem, p.g;
    PreservesShift(m0, g0, m1, g1, r, -1);
    InsertSettles(p.g, p.end, r, p.clock);
    BlockInsert(p, r);
    PreservesTrans(m0, g0, m1, g1, p.mem, p.g, -1);
  }
}
