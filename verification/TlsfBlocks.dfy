/** Splitting, absorbing, merging and trimming blocks. */
module TlsfBlocks {
  import opened TlsfMapping
  import opened TlsfShape
  import opened TlsfMemory
  import opened TlsfSteps
  import opened TlsfPool
  import opened TlsfFreeList

  function Unlisted(g: Shape, a: int): Shape
    requires a in g
  {
    g[a := g[a].(listed := false)]
  }

  // ------------------------------------------------------ marking free, used

  function MarkedFree(g: Shape, a: int): Shape
    requires a in g && Next(g, a) in g
  {
    g[Next(g, a) := g[Next(g, a)].(prevFree := true)][a := g[a].(free := true, linked := true)]
  }

  function MarkedUsed(g: Shape, a: int): Shape
    requires a in g && Next(g, a) in g
  {
    g[Next(g, a) := g[Next(g, a)].(prevFree := false)][a := g[a].(free := false, linked := false)]
  }

  /** block_mark_as_free */
  method BlockMarkAsFree(p: Pool, a: int)
    requires p.Inv() && a in p.g && a != p.end
    modifies p`mem, p`g
    ensures p.Inv() && Next(old(p.g), a) in old(p.g) && p.g == MarkedFree(old(p.g), a)
    ensures Preserves(old(p.mem), old(p.g), p.mem, p.g, a)
  {
    ghost var m0, g0 := p.mem, p.g;
    var next := p.BlockLinkNext(a);
    ghost var m1, g1 := p.mem, p.g;
    p.BlockSetPrevFree(next);
    ghost var m2, g2 := p.mem, p.g;
    KeepsMore(m1, g1, m2, g2, p.end, a);
    PreservesTrans(m0, g0, m1, g1, m2, g2, a);
    p.BlockSetFree(a);
    PreservesTrans(m0, g0, m2, g2, p.mem, p.g, a);
  }

  /** block_mark_as_used */
  method BlockMarkAsUsed(p: Pool, a: int)
    requires p.Inv() && a in p.g && a != p.end
    modifies p`mem, p`g
    ensures p.Inv() && Next(old(p.g), a) in old(p.g) && p.g == MarkedUsed(old(p.g), a)
    ensures Preserves(old(p.mem), old(p.g), p.mem, p.g, a)
    ensures !old(p.g)[a].free ==> Kept(old(p.mem), old(p.g), p.mem, p.g, a)
  {
    ghost var m0, g0 := p.mem, p.g;
    var next := p.BlockNext(a);
    p.BlockSetPrevUsed(next);
    ghost var m1, g1 := p.mem, p.g;
    KeepsMore(m0, g0, m1, g1, p.end, a);
    if !g0[a].free { assert Fits(g0, p.end, a); assert Kept(m0, g0, m1, g1, a); }
    p.BlockSetUsed(a);
    PreservesTrans(m0, g0, m1, g1, p.mem, p.g, a);
  }

  // -------------------------------------------------------- split and absorb

  /** block_split: the second part is free; its prev-free flag is whatever bit
      the old payload held there. */
  method BlockSplit(p: Pool, a: int, size: nat) returns (r: int, ghost flag: bool)
    requires p.Inv() && a in p.g && a != p.end && !p.g[a].listed
    requires MIN_SIZE <= size && size + 4 <= p.g[a].size
    modifies p`mem, p`g
    ensures p.Inv() && r == a + 1 + size
    ensures Next(old(p.g), a) in old(p.g) && p.g == SplitShape(old(p.g), a, size, flag)
    ensures Preserves(old(p.mem), old(p.g), p.mem, p.g, a)
    ensures SamePayload(old(p.mem), p.mem, a, size)
  {
    SplitStep(p.mem, p.heads, p.g, p.clock, p.end, a, size);
    flag := HeaderPrevFree(p.mem[a + 2 + size]);
    ghost var g0 := p.g;
    var m;
    r, m := SplitMemory(p.mem, p.g, p.end, a, size);
    p.mem := m;
    p.g := SplitShape(p.g, a, size, flag);
    SplitUsed(g0, a, size, flag);
  }

  /** The memory writes of block_split. */
  method SplitMemory(mem: seq<int>, ghost g: Shape, ghost end: int, a: int, size: nat) returns (r: int, m: seq<int>)
    requires Tiled(g, end) && Match(mem, g, end) && a in g && a != end
    requires MIN_SIZE <= size && size + 4 <= g[a].size
    ensures r == a + 1 + size && Next(g, a) in g && 0 <= a && Next(g, a) + 1 < |mem|
    ensures m == SplitWords(mem, g, a, size)
  {
    SplitHeaders(mem, g, end, a, size);
    r := a + 2 + size - 1;
    var remainSize := HeaderSize(mem[a + 1]) - (size + 1);
    m := mem[r + 1 := HeaderSetSize(mem[r + 1], remainSize)];
    assert HeaderSize(m[r + 1]) >= MIN_SIZE;
    m := m[a + 1 := HeaderSetSize(m[a + 1], size)];
    // block_mark_as_free(remaining)
    var next := r + 1 + HeaderSize(m[r + 1]);
    m := m[next := r];
    m := m[next + 1 := HeaderSetPrevFree(m[next + 1])];
    m := m[r + 1 := HeaderSetFree(m[r + 1])];
  }

  /** What the raw header updates of block_split compute. */
  lemma SplitHeaders(mem: seq<int>, g: Shape, end: int, a: int, size: nat)
    requires Tiled(g, end) && Match(mem, g, end) && a in g && a != end
    requires MIN_SIZE <= size && size + 4 <= g[a].size
    ensures var r, n := a + 1 + size, Next(g, a);
            var rest := g[a].size - size - 1;
            && n in g && 0 <= a && n + 1 < |mem| && n == r + 1 + rest
            && HeaderSize(mem[a + 1]) == g[a].size
            && HeaderSize(HeaderSetSize(mem[r + 1], rest)) == rest
            && HeaderSetFree(HeaderSetSize(mem[r + 1], rest)) == Header(rest, true, HeaderPrevFree(mem[r + 1]))
            && HeaderSetSize(mem[a + 1], size) == Header(size, g[a].free, g[a].prevFree)
            && HeaderSetPrevFree(mem[n + 1]) == Header(g[n].size, g[n].free, true)
  {
    assert Fits(g, end, a);
    var r, n := a + 1 + size, Next(g, a);
    var rest := g[a].size - size - 1;
    assert HdrOk(mem, g, a) && HdrOk(mem, g, n);
    HeaderSetSizeAny(mem[r + 1], rest);
    HeaderRoundTrip(rest, HeaderFree(mem[r + 1]), HeaderPrevFree(mem[r + 1]));
    HeaderRoundTrip(g[a].size, g[a].free, g[a].prevFree);
    HeaderRoundTrip(g[n].size, g[n].free, g[n].prevFree);
  }

  lemma SplitUsed(g: Shape, a: int, size: nat, flag: bool)
    requires a in g && Next(g, a) in g && size + 1 <= g[a].size
    ensures forall b :: b in SplitShape(g, a, size, flag) && !SplitShape(g, a, size, flag)[b].free ==>
      b in g && !g[b].free
  {
  }

  /** The first `size` payload words of block a hold the same values. */
  ghost predicate SamePayload(mem: seq<int>, mem': seq<int>, a: int, size: int) {
    && |mem'| == |mem| && 0 <= a && a + 1 + size < |mem|
    && forall w :: a + 2 <= w <= a + 1 + size ==> mem'[w] == mem[w]
  }

  /** block_absorb */
  method BlockAbsorb(p: Pool, a: int, b: int)
    requires p.Inv() && a in p.g && a != p.end && !p.g[a].listed
    requires b == Next(p.g, a) && b in p.g && b != p.end && p.g[b].free && !p.g[b].listed
    modifies p`mem, p`g
    ensures Next(old(p.g), b) in old(p.g)
    ensures p.Inv() && p.g == AbsorbShape(old(p.g), a)
    ensures Preserves(old(p.mem), old(p.g), p.mem, p.g, a)
    ensures SamePayload(old(p.mem), p.mem, a, old(p.g)[a].size)
  {
    ghost var m0, g0 := p.mem, p.g;
    AbsorbStep(p.mem, p.heads, p.g, p.clock, p.end, a);
    p.Reads(a);
    p.Reads(b);
    assert p.BlockSize(a) != 0;
    HeaderRoundTrip(p.g[a].size + p.g[b].size + 1, p.g[a].free, p.g[a].prevFree);
    p.mem := p.mem[a + 1 := p.mem[a + 1] + Bytes(p.BlockSize(b) + 1)];
    // block_link_next(prev)
    var next := a + 1 + HeaderSize(p.mem[a + 1]);
    p.mem := p.mem[next := a];
    assert p.mem == AbsorbWords(m0, g0, a);
    p.g := AbsorbShape(p.g, a);
  }

  // ---------------------------------------------------------------- merging

  /** block_merge_prev */
  method BlockMergePrev(p: Pool, a: int) returns (b: int)
    requires p.Inv() && Flags(p.g, p.end) && a in p.g && a != p.end && p.g[a].free && !p.g[a].listed
    requires p.g[a].prevFree ==> p.g[a].prev in p.g && p.g[p.g[a].prev].listed
    modifies p`mem, p`heads, p`slBitmap, p`flBitmap, p`g
    ensures p.Inv() && Preserves(old(p.mem), old(p.g), p.mem, p.g, -1)
    ensures !old(p.g)[a].prevFree ==> b == a && p.g == old(p.g)
    ensures old(p.g)[a].prevFree ==>
              && b == old(p.g)[a].prev && Next(old(p.g), b) == a && Next(old(p.g), a) in old(p.g)
              && p.g == AbsorbShape(Unlisted(old(p.g), b), b)
  {
    b := a;
    p.Reads(a);
    if p.BlockIsPrevFree(a) {
      ghost var m0, g0 := p.mem, p.g;
      assert FlagOk(p.g, p.end, a) && Fits(p.g, p.end, a);
      assert FlagOk(p.g, p.end, p.g[a].prev) && HdrOk(p.mem, p.g, p.g[a].prev);
      var prev := p.mem[a];
      assert prev == p.g[a].prev;
      p.Reads(prev);
      assert p.BlockIsFree(prev);
      BlockRemove(p, prev);
      ghost var m1, g1 := p.mem, p.g;
      BlockAbsorb(p, prev, a);
      PreservesShift(m1, g1, p.mem, p.g, prev, -1);
      PreservesTrans(m0, g0, m1, g1, p.mem, p.g, -1);
      b := prev;
    }
  }

  /** block_merge_next */
  method BlockMergeNext(p: Pool, a: int)
    requires p.Inv() && Flags(p.g, p.end) && a in p.g && a != p.end && !p.g[a].listed
    requires Next(p.g, a) in p.g ==> (p.g[Next(p.g, a)].free <==> p.g[Next(p.g, a)].listed)
    modifies p`mem, p`heads, p`slBitmap, p`flBitmap, p`g
    ensures p.Inv() && Next(old(p.g), a) in old(p.g) && Preserves(old(p.mem), old(p.g), p.mem, p.g, a)
    ensures var n := Next(old(p.g), a);
            if old(p.g)[n].free then
              Next(old(p.g), n) in old(p.g) && p.g == AbsorbShape(Unlisted(old(p.g), n), a)
            else
              p.g == old(p.g)
    ensures !old(p.g)[a].free ==> SamePayload(old(p.mem), p.mem, a, old(p.g)[a].size)
  {
    ghost var m0, g0 := p.mem, p.g;
    p.Reads(a);
    var next := p.BlockNext(a);
    p.Reads(next);
    if p.BlockIsFree(next) {
      assert FlagOk(p.g, p.end, next);
      assert p.BlockSize(a) != 0;
      BlockRemove(p, next);
      ghost var m1, g1 := p.mem, p.g;
      if !g0[a].free { assert Kept(m0, g0, m1, g1, a); }
      KeepsMore(m0, g0, m1, g1, p.end, a);
      BlockAbsorb(p, a, next);
      PreservesTrans(m0, g0, m1, g1, p.mem, p.g, a);
    } else {
      forall x | x in p.g && !p.g[x].free && x != a ensures Kept(m0, g0, p.mem, p.g, x) { }
    }
  }
}
