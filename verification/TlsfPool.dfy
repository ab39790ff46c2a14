/** The TLSF pool and its internal operations on block headers, free lists and
    bitmaps. Every tlsf_assert of the source is an assertion here. */
module TlsfPool {
  import opened TlsfBits
  import opened TlsfMapping
  import opened TlsfShape
  import opened TlsfLists
  import opened TlsfMemory
  import opened TlsfSteps

  // --------------------------------------------------------------- bitmaps

  ghost predicate SlBit(heads: Heads, sl: seq<nat>, f: int, s: nat)
    requires Dims(heads) && |sl| == FL_INDEX_COUNT && 0 <= f < FL_INDEX_COUNT
  {
    Bit(sl[f], s) <==> s < SL_INDEX_COUNT && heads[f][s] != NULL
  }

  ghost predicate FlBit(sl: seq<nat>, fl: nat, f: nat)
    requires |sl| == FL_INDEX_COUNT
  {
    Bit(fl, f) <==> f < FL_INDEX_COUNT && sl[f] != 0
  }

  /** Both bitmap levels say exactly which lists are not empty. */
  ghost predicate BitsOk(heads: Heads, sl: seq<nat>, fl: nat) {
    && Dims(heads) && |sl| == FL_INDEX_COUNT
    && (forall f, s: nat {:trigger SlBit(heads, sl, f, s)} :: 0 <= f < FL_INDEX_COUNT ==> SlBit(heads, sl, f, s))
    && (forall f: nat {:trigger FlBit(sl, fl, f)} :: FlBit(sl, fl, f))
  }

  lemma BitsAfterInsert(heads: Heads, sl: seq<nat>, fl: nat, c: (int, int), a: int)
    requires BitsOk(heads, sl, fl) && InTable(c.0, c.1) && a != NULL
    ensures BitsOk(SetHead(heads, c, a), sl[c.0 := SetBit(sl[c.0], c.1)], SetBit(fl, c.0))
  {
    var heads' := SetHead(heads, c, a);
    var sl' := sl[c.0 := SetBit(sl[c.0], c.1)];
    var fl' := SetBit(fl, c.0);
    forall f, s: nat | 0 <= f < FL_INDEX_COUNT ensures SlBit(heads', sl', f, s) {
      assert SlBit(heads, sl, f, s);
      SetBitAt(sl[c.0], c.1, s);
      assert s < SL_INDEX_COUNT ==> Head(heads', (f, s)) == heads'[f][s];
    }
    assert sl'[c.0] != 0 by {
      SetBitAt(sl[c.0], c.1, c.1);
      if sl'[c.0] == 0 { ZeroHasNoBit(0, c.1); }
    }
    forall f: nat ensures FlBit(sl', fl', f) {
      assert FlBit(sl, fl, f);
      SetBitAt(fl, c.0, f);
    }
  }

  /** sl_bitmap after the last block of class c has gone. */
  lemma BitsAfterEmptying(heads: Heads, sl: seq<nat>, fl: nat, c: (int, int))
    requires BitsOk(heads, sl, fl) && InTable(c.0, c.1)
    ensures var sl' := sl[c.0 := ClearBit(sl[c.0], c.1)];
            BitsOk(SetHead(heads, c, NULL), sl', if sl'[c.0] == 0 then ClearBit(fl, c.0) else fl)
  {
    var heads' := SetHead(heads, c, NULL);
    var sl' := sl[c.0 := ClearBit(sl[c.0], c.1)];
    var fl' := if sl'[c.0] == 0 then ClearBit(fl, c.0) else fl;
    forall f, s: nat | 0 <= f < FL_INDEX_COUNT ensures SlBit(heads', sl', f, s) {
      assert SlBit(heads, sl, f, s);
      ClearBitAt(sl[c.0], c.1, s);
      assert s < SL_INDEX_COUNT ==> Head(heads', (f, s)) == heads'[f][s];
    }
    assert sl'[c.0] != 0 ==> sl[c.0] != 0 by {
      if sl'[c.0] != 0 && sl[c.0] == 0 {
        FfsLowest(sl'[c.0]);
        ClearBitAt(sl[c.0], c.1, Ffs(sl'[c.0]));
        ZeroHasNoBit(0, Ffs(sl'[c.0]));
      }
    }
    forall f: nat ensures FlBit(sl', fl', f) {
      assert FlBit(sl, fl, f);
      ClearBitAt(fl, c.0, f);
    }
  }

  /** Replacing a head by another block changes no bit. */
  lemma BitsAfterNewHead(heads: Heads, sl: seq<nat>, fl: nat, c: (int, int), a: int)
    requires BitsOk(heads, sl, fl) && InTable(c.0, c.1) && a != NULL && Head(heads, c) != NULL
    ensures BitsOk(SetHead(heads, c, a), sl, fl)
  {
    var heads' := SetHead(heads, c, a);
    forall f, s: nat | 0 <= f < FL_INDEX_COUNT ensures SlBit(heads', sl, f, s) {
      assert SlBit(heads, sl, f, s);
      assert s < SL_INDEX_COUNT ==> Head(heads', (f, s)) == heads'[f][s];
    }
  }

  // ------------------------------------------------------- settled layouts

  ghost predicate FlagOk(g: Shape, end: int, a: int)
    requires a in g
  {
    && g[a].prevFree == (a != FIRST && g[a].prev in g && g[g[a].prev].free)
    && (g[a].free ==> g[a].linked && a != end)
    && (g[a].listed ==> g[a].free)
  }

  /** The flags agree with the physical neighbours. */
  ghost predicate Flags(g: Shape, end: int) {
    forall a {:trigger FlagOk(g, end, a)} :: a in g ==> FlagOk(g, end, a)
  }

  /** Block a is in a list just when it is free, and is not next to a free block
      other than x. */
  ghost predicate QuietAt(g: Shape, a: int, x: int)
    requires a in g
  {
    && (g[a].free <==> g[a].listed) && (g[a].free <==> g[a].linked)
    && (g[a].free ==> Next(g, a) in g && (Next(g, a) == x || !g[Next(g, a)].free))
  }

  /** Flags are right, and all blocks but x are filed and coalesced. With x == -1
      the pool is at rest. */
  ghost predicate SettledExcept(g: Shape, end: int, x: int) {
    && Flags(g, end)
    && (x in g ==> !g[x].listed)
    && forall a {:trigger QuietAt(g, a, x)} :: a in g && a != x ==> QuietAt(g, a, x)
  }

  /** Used blocks are the same but for x, with the same sizes and payloads. */
  ghost predicate Preserves(mem: seq<int>, g: Shape, mem': seq<int>, g': Shape, x: int) {
    && KeepsUsed(mem, g, mem', g', x)
    && forall b {:trigger b in g'} :: b in g' && !g'[b].free && b != x ==> b in g && !g[b].free
  }

  lemma PreservesTrans(m0: seq<int>, g0: Shape, m1: seq<int>, g1: Shape, m2: seq<int>, g2: Shape, x: int)
    requires Preserves(m0, g0, m1, g1, x) && Preserves(m1, g1, m2, g2, x)
    ensures Preserves(m0, g0, m2, g2, x)
  {
    KeepsUsedTrans(m0, g0, m1, g1, m2, g2, x);
  }

  /** The exempted block was free before and is free after, so another block
      may be exempted instead. */
  lemma PreservesShift(mem: seq<int>, g: Shape, mem': seq<int>, g': Shape, x: int, y: int)
    requires Preserves(mem, g, mem', g', x)
    requires (x in g ==> g[x].free) && (x in g' ==> g'[x].free)
    ensures Preserves(mem, g, mem', g', y)
  {
    forall a | a in g && !g[a].free && a != y ensures Kept(mem, g, mem', g', a) {
    }
  }

  lemma {:induction false} ListedHasHead(mem: seq<int>, heads: Heads, g: Shape, clock: nat, a: int)
    requires ListsOk(mem, heads, g, clock) && a in g && g[a].listed
    ensures InTable(Class(g[a].size).0, Class(g[a].size).1)
    ensures Head(heads, Class(g[a].size)) != NULL
    decreases clock - g[a].rank
  {
    assert NodeOk(mem, heads, g, clock, a);
    var p := mem[a + 3];
    if p != NULL {
      assert NodeOk(mem, heads, g, clock, p);
      ListedHasHead(mem, heads, g, clock, p);
    }
  }

  /** All lists empty, all bits clear. */
  lemma NoBits(heads: Heads, sl: seq<nat>)
    requires Dims(heads) && |sl| == FL_INDEX_COUNT
    requires forall f, s :: InTable(f, s) ==> heads[f][s] == NULL
    requires forall f :: 0 <= f < FL_INDEX_COUNT ==> sl[f] == 0
    ensures BitsOk(heads, sl, 0)
  {
    forall f, s: nat | 0 <= f < FL_INDEX_COUNT ensures SlBit(heads, sl, f, s) {
      ZeroHasNoBit(sl[f], s);
      assert s < SL_INDEX_COUNT ==> InTable(f, s);
    }
    forall f: nat ensures FlBit(sl, 0, f) {
      ZeroHasNoBit(0, f);
    }
  }

  function InitialShape(size: nat): Shape {
    map[FIRST := Blk(size, true, false, true, true, -1, 0),
        FIRST + 1 + size := Blk(0, false, true, false, false, FIRST, 0)]
  }

  /** A pool holding one listed free block and the sentinel is at rest. */
  lemma InitialSound(mem: seq<int>, hs: Heads, size: nat)
    requires MIN_SIZE <= size && Bytes(size) < BLOCK_SIZE_MAX
    requires Dims(hs) && forall f, s :: InTable(f, s) ==> hs[f][s] == NULL
    requires |mem| == FIRST + 1 + size + 2
    requires mem[FIRST + 1] == Header(size, true, false)
    requires mem[FIRST + 1 + size] == FIRST && mem[FIRST + 2 + size] == Header(0, false, true)
    requires mem[FIRST + 2] == NULL && mem[FIRST + 3] == NULL
    ensures InTable(Class(size).0, Class(size).1)
    ensures Sound(mem, SetHead(hs, Class(size), FIRST), InitialShape(size), 1, FIRST + 1 + size)
    ensures SettledExcept(InitialShape(size), FIRST + 1 + size, -1)
  {
    var g, end := InitialShape(size), FIRST + 1 + size;
    MappingInsertInRange(Bytes(size));
    var heads := SetHead(hs, Class(size), FIRST);
    forall a | a in g ensures Fits(g, end, a) && HdrOk(mem, g, a) && FlagOk(g, end, a) && QuietAt(g, a, -1) { }
    forall a, b | a in g && b in g ensures Apart(g, a, b) { }
    assert NodeOk(mem, heads, g, 1, FIRST);
    forall f, s | InTable(f, s) ensures HeadOk(mem, heads, g, f, s) {
      assert Head(heads, (f, s)) == heads[f][s];
      assert Head(hs, (f, s)) == NULL;
    }
  }

  /** pool_construct: every list empty, every bit clear. */
  method PoolConstruct() returns (heads: Heads, sl: seq<nat>)
    ensures Dims(heads) && |sl| == FL_INDEX_COUNT
    ensures forall f, s :: InTable(f, s) ==> heads[f][s] == NULL
    ensures forall f :: 0 <= f < FL_INDEX_COUNT ==> sl[f] == 0
  {
    heads, sl := [], [];
    for i := 0 to FL_INDEX_COUNT
      invariant |heads| == |sl| == i
      invariant forall f :: 0 <= f < i ==> sl[f] == 0 && |heads[f]| == SL_INDEX_COUNT
      invariant forall f, s :: 0 <= f < i && 0 <= s < SL_INDEX_COUNT ==> heads[f][s] == NULL
    {
      var row := [];
      for j := 0 to SL_INDEX_COUNT
        invariant |row| == j && forall s :: 0 <= s < j ==> row[s] == NULL
      {
        row := row + [NULL];
      }
      heads, sl := heads + [row], sl + [0];
    }
  }

  /** Whatever a word held, the three updates make it a clean header. */
  lemma FreshHeaders(h: int, size: nat)
    ensures HeaderSetPrevUsed(HeaderSetFree(HeaderSetSize(h, size))) == Header(size, true, false)
    ensures HeaderSetPrevFree(HeaderSetUsed(HeaderSetSize(h, size))) == Header(size, false, true)
  {
    HeaderSetSizeAny(h, size);
    HeaderRoundTrip(size, HeaderFree(h), HeaderPrevFree(h));
    HeaderRoundTrip(size, true, HeaderPrevFree(h));
    HeaderRoundTrip(size, false, HeaderPrevFree(h));
  }

  /** The words tlsf_create writes: block_null's pointers, the first block's
      header and list pointers, and the sentinel. */
  method InitialMemory(memory: seq<int>, size: nat) returns (m: seq<int>)
    requires MIN_SIZE <= size && |memory| == FIRST + 1 + size + 2
    ensures |m| == |memory|
    ensures m[FIRST + 1] == Header(size, true, false)
    ensures m[FIRST + 1 + size] == FIRST && m[FIRST + 2 + size] == Header(0, false, true)
    ensures m[FIRST + 2] == NULL && m[FIRST + 3] == NULL
  {
    m := memory[NULL + 2 := NULL][NULL + 3 := NULL];
    var block := FIRST;
    FreshHeaders(m[block + 1], size);
    m := m[block + 1 := HeaderSetPrevUsed(HeaderSetFree(HeaderSetSize(m[block + 1], size)))];
    m := m[block + 2 := NULL][block + 3 := NULL][NULL + 3 := block];
    var next := block + 1 + size;
    FreshHeaders(m[next + 1], 0);
    m := m[next := block];
    m := m[next + 1 := HeaderSetPrevFree(HeaderSetUsed(HeaderSetSize(m[next + 1], 0)))];
  }

  class Pool {
    /** The pool's memory, word by word; words 0..3 are block_null. */
    var mem: seq<int>
    var heads: Heads
    var slBitmap: seq<nat>
    var flBitmap: nat
    /** Machine address of word 0, in words. */
    const base: nat
    ghost const end: int
    ghost var g: Shape
    ghost var clock: nat

    ghost predicate Inv()
      reads this
    {
      Sound(mem, heads, g, clock, end) && BitsOk(heads, slBitmap, flBitmap)
    }

    /** The pool at rest, as it is before and after every call. */
    ghost predicate Valid()
      reads this
    {
      Inv() && SettledExcept(g, end, -1)
    }

    /** tlsf_create on memory large enough for one block of `size` payload words:
        empty lists and bitmaps, one free block, and the zero-size sentinel. */
    constructor Create(memory: seq<int>, base: nat, size: nat)
      requires MIN_SIZE <= size && Bytes(size) < BLOCK_SIZE_MAX && |memory| == FIRST + 1 + size + 2
      ensures Valid() && end == FIRST + 1 + size && this.base == base
      ensures g.Keys == {FIRST, end} && g[FIRST].free && !g[end].free
    {
      this.base := base;
      end := FIRST + 1 + size;
      var hs, sl := PoolConstruct();
      NoBits(hs, sl);
      MappingInsertInRange(Bytes(size));
      var c := MappingInsert(Bytes(size));
      BitsAfterInsert(hs, sl, 0, c, FIRST);
      var m := InitialMemory(memory, size);
      InitialSound(m, hs, size);
      mem, heads := m, SetHead(hs, c, FIRST);
      flBitmap, slBitmap := SetBit(0, c.0), sl[c.0 := SetBit(sl[c.0], c.1)];
      g, clock := InitialShape(size), 1;
    }

    // ------------------------------------------------------ block headers

    function BlockSize(a: int): (n: int)
      reads this
      requires 0 <= a && a + 1 < |mem|
    {
      HeaderSize(mem[a + 1])
    }

    predicate BlockIsFree(a: int)
      reads this
      requires 0 <= a && a + 1 < |mem|
    {
      HeaderFree(mem[a + 1])
    }

    predicate BlockIsPrevFree(a: int)
      reads this
      requires 0 <= a && a + 1 < |mem|
    {
      HeaderPrevFree(mem[a + 1])
    }

    /** What the header words of a block say. */
    lemma Reads(a: int)
      requires Inv() && a in g
      ensures 0 <= a && a + 1 < |mem|
      ensures BlockSize(a) == g[a].size
      ensures BlockIsFree(a) == g[a].free && BlockIsPrevFree(a) == g[a].prevFree
      ensures mem[a + 1] == Header(g[a].size, g[a].free, g[a].prevFree)
      ensures FIRST <= a <= end && (g[a].size == 0 <==> a == end)
      ensures a != end ==> Next(g, a) in g && g[Next(g, a)].prev == a && g[a].size >= MIN_SIZE && a + 3 < |mem|
    {
      assert HdrOk(mem, g, a);
      assert Fits(g, end, a);
      HeaderRoundTrip(g[a].size, g[a].free, g[a].prevFree);
      if a != end { assert Fits(g, end, Next(g, a)); }
    }

    method BlockNext(a: int) returns (n: int)
      requires Inv() && a in g && a != end
      ensures n == Next(g, a) && n in g && g[n].prev == a
    {
      Reads(a);
      n := a + 1 + BlockSize(a);
      assert BlockSize(a) != 0;
    }

    method BlockSetFree(a: int)
      requires Inv() && a in g
      modifies this`mem, this`g
      ensures Inv() && g == Flagged(old(g), a, true, old(g)[a].prevFree)
      ensures Preserves(old(mem), old(g), mem, g, a)
    {
      Reads(a);
      HeaderRoundTrip(g[a].size, g[a].free, g[a].prevFree);
      FlagStep(mem, heads, g, clock, end, a, true, g[a].prevFree);
      mem := mem[a + 1 := HeaderSetFree(mem[a + 1])];
      g := Flagged(g, a, true, g[a].prevFree);
    }

    /** Once used, the last payload word is the user's, no longer a back pointer. */
    method BlockSetUsed(a: int)
      requires Inv() && a in g
      modifies this`mem, this`g
      ensures Inv() && g == old(g)[a := old(g)[a].(free := false, linked := false)]
      ensures Preserves(old(mem), old(g), mem, g, a)
      ensures |mem| == |old(mem)| && forall w :: 0 <= w < |mem| && w != a + 1 ==> mem[w] == old(mem)[w]
    {
      Reads(a);
      HeaderRoundTrip(g[a].size, g[a].free, g[a].prevFree);
      FlagStep(mem, heads, g, clock, end, a, false, g[a].prevFree);
      ForgetLink(mem[a + 1 := Header(g[a].size, false, g[a].prevFree)], heads, Flagged(g, a, false, g[a].prevFree),
        clock, end, a);
      ghost var m0, g0 := mem, g;
      mem := mem[a + 1 := HeaderSetUsed(mem[a + 1])];
      ghost var g1 := Flagged(g, a, false, g[a].prevFree);
      g := g1[a := g1[a].(linked := false)];
      KeepsUsedTrans(m0, g0, mem, g1, mem, g, -1);
      KeepsMore(m0, g0, mem, g, end, a);
    }

    method BlockSetPrevFree(a: int)
      requires Inv() && a in g
      modifies this`mem, this`g
      ensures Inv() && g == Flagged(old(g), a, old(g)[a].free, true)
      ensures Preserves(old(mem), old(g), mem, g, -1)
    {
      Reads(a);
      HeaderRoundTrip(g[a].size, g[a].free, g[a].prevFree);
      FlagStep(mem, heads, g, clock, end, a, g[a].free, true);
      ghost var m0, g0 := mem, g;
      mem := mem[a + 1 := HeaderSetPrevFree(mem[a + 1])];
      g := Flagged(g, a, g[a].free, true);
      forall b | b in g0 && !g0[b].free && b != -1 ensures Kept(m0, g0, mem, g, b) { }
    }

    method BlockSetPrevUsed(a: int)
      requires Inv() && a in g
      modifies this`mem, this`g
      ensures Inv() && g == Flagged(old(g), a, old(g)[a].free, false)
      ensures Preserves(old(mem), old(g), mem, g, -1)
    {
      Reads(a);
      HeaderRoundTrip(g[a].size, g[a].free, g[a].prevFree);
      FlagStep(mem, heads, g, clock, end, a, g[a].free, false);
      ghost var m0, g0 := mem, g;
      mem := mem[a + 1 := HeaderSetPrevUsed(mem[a + 1])];
      g := Flagged(g, a, g[a].free, false);
      forall b | b in g0 && !g0[b].free && b != -1 ensures Kept(m0, g0, mem, g, b) { }
    }

    method BlockLinkNext(a: int) returns (n: int)
      requires Inv() && a in g && a != end
      modifies this`mem, this`g
      ensures Inv() && g == old(g)[a := old(g)[a].(linked := true)]
      ensures n == Next(g, a) && n in g && n != a
      ensures Preserves(old(mem), old(g), mem, g, a)
    {
      n := BlockNext(a);
      LinkStep(mem, heads, g, clock, end, a);
      mem := mem[n := a];
      g := g[a := g[a].(linked := true)];
    }
  }
}
