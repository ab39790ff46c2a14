/** Free-list operations of the allocator: unlinking, insertion at the head of
    the class mapping_insert names, and the bitmap search. */
module TlsfFreeList {
  import opened Wrappers
  import opened TlsfBits
  import opened TlsfMapping
  import opened TlsfShape
  import opened TlsfLists
  import opened TlsfSteps
  import opened TlsfPool

  /** remove_free_block */
  method RemoveFreeBlock(p: Pool, a: int, fl: int, sl: int)
    requires p.Inv() && Flags(p.g, p.end) && a in p.g && p.g[a].listed && Class(p.g[a].size) == (fl, sl)
    modifies p`mem, p`heads, p`slBitmap, p`flBitmap, p`g
    ensures p.Inv() && p.g == old(p.g)[a := old(p.g)[a].(listed := false)]
    ensures Preserves(old(p.mem), old(p.g), p.mem, p.g, -1)
  {
    hide Bit, ClearBit, Tiled, Class;
    ghost var mem0, heads0, g0 := p.mem, p.heads, p.g;
    ListedAreFree(p.g, p.end);
    UnlinkStep(p.mem, p.heads, p.g, p.clock, p.end, a);
    UnlinkSpots(p.mem, p.heads, p.g, p.clock, p.end, a);
    ClassInTable(p.g, p.end, a);
    var prev := p.mem[a + 3];
    var next := p.mem[a + 2];
    p.mem := p.mem[next + 3 := prev];
    p.mem := p.mem[prev + 2 := next];
    ghost var c := (fl, sl);
    if p.heads[fl][sl] == a {
      assert Head(p.heads, c) == a;
      p.heads := p.heads[fl := p.heads[fl][sl := next]];
      assert p.heads == SetHead(heads0, c, next);
      if next == NULL {
        BitsAfterEmptying(heads0, p.slBitmap, p.flBitmap, c);
        p.slBitmap := p.slBitmap[fl := ClearBit(p.slBitmap[fl], sl)];
        if p.slBitmap[fl] == 0 {
          p.flBitmap := ClearBit(p.flBitmap, fl);
        }
      } else {
        BitsAfterNewHead(heads0, p.slBitmap, p.flBitmap, c, next);
      }
    }
    assert p.mem == UnlinkWords(mem0, a) && p.heads == UnlinkHeads(heads0, g0, mem0, a);
    p.g := p.g[a := p.g[a].(listed := false)];
  }

  lemma ListedAreFree(g: Shape, end: int)
    requires Flags(g, end)
    ensures forall x :: x in g && g[x].listed ==> g[x].free
  {
    forall x | x in g && g[x].listed ensures g[x].free {
      assert FlagOk(g, end, x);
    }
  }

  /** insert_free_block */
  method InsertFreeBlock(p: Pool, a: int, fl: int, sl: int)
    requires p.Inv() && Flags(p.g, p.end)
    requires a in p.g && a != p.end && p.g[a].free && !p.g[a].listed && Class(p.g[a].size) == (fl, sl)
    modifies p`mem, p`heads, p`slBitmap, p`flBitmap, p`g, p`clock
    ensures p.Inv() && p.g == Inserted(old(p.g), a, old(p.clock))
    ensures Preserves(old(p.mem), old(p.g), p.mem, p.g, -1)
  {
    ghost var mem0, heads0, g0 := p.mem, p.heads, p.g;
    ListedAreFree(p.g, p.end);
    InsertStep(p.mem, p.heads, p.g, p.clock, p.end, a);
    InsertBounds(p.mem, p.heads, p.g, p.clock, p.end, a);
    ghost var c := (fl, sl);
    BitsAfterInsert(p.heads, p.slBitmap, p.flBitmap, c, a);
    var current := p.heads[fl][sl];
    assert current == Head(heads0, c);
    p.mem := p.mem[a + 2 := current];
    p.mem := p.mem[a + 3 := NULL];
    p.mem := p.mem[current + 3 := a];
    p.heads := p.heads[fl := p.heads[fl][sl := a]];
    p.flBitmap := SetBit(p.flBitmap, fl);
    p.slBitmap := p.slBitmap[fl := SetBit(p.slBitmap[fl], sl)];
    assert p.mem == LinkWords(mem0, a, current) && p.heads == SetHead(heads0, c, a);
    p.g := Inserted(p.g, a, p.clock);
    p.clock := p.clock + 1;
  }

  /** block_remove */
  method BlockRemove(p: Pool, a: int)
    requires p.Inv() && Flags(p.g, p.end) && a in p.g && p.g[a].listed
    modifies p`mem, p`heads, p`slBitmap, p`flBitmap, p`g
    ensures p.Inv() && p.g == old(p.g)[a := old(p.g)[a].(listed := false)]
    ensures Preserves(old(p.mem), old(p.g), p.mem, p.g, -1)
  {
    p.Reads(a);
    var c := MappingInsert(Bytes(p.BlockSize(a)));
    RemoveFreeBlock(p, a, c.0, c.1);
  }

  /** block_insert */
  method BlockInsert(p: Pool, a: int)
    requires p.Inv() && Flags(p.g, p.end) && a in p.g && a != p.end && p.g[a].free && !p.g[a].listed
    modifies p`mem, p`heads, p`slBitmap, p`flBitmap, p`g, p`clock
    ensures p.Inv() && p.g == Inserted(old(p.g), a, old(p.clock))
    ensures Preserves(old(p.mem), old(p.g), p.mem, p.g, -1)
  {
    p.Reads(a);
    var c := MappingInsert(Bytes(p.BlockSize(a)));
    InsertFreeBlock(p, a, c.0, c.1);
  }

  /** Some free block is filed at or above class (f, s). */
  ghost predicate Available(g: Shape, f: int, s: int) {
    exists a :: a in g && g[a].listed && ClassOrder((f, s)) <= ClassOrder(Class(g[a].size))
  }

  /** Block a is filed in the lowest such class. */
  ghost predicate LowestFit(g: Shape, f: int, s: int, a: int) {
    && a in g && g[a].listed && ClassOrder((f, s)) <= ClassOrder(Class(g[a].size))
    && forall b :: b in g && g[b].listed && ClassOrder((f, s)) <= ClassOrder(Class(g[b].size)) ==>
         ClassOrder(Class(g[a].size)) <= ClassOrder(Class(g[b].size))
  }

  /** search_suitable_block: the head of the first non-empty list at or above
      the given class. */
  method SearchSuitableBlock(p: Pool, fl0: int, sl0: int) returns (block: Option<int>, fl: int, sl: int)
    requires p.Inv() && InTable(fl0, sl0)
    ensures block.None? <==> !Available(p.g, fl0, sl0)
    ensures block.Some? ==>
              && LowestFit(p.g, fl0, sl0, block.value) && InTable(fl, sl)
              && Class(p.g[block.value].size) == (fl, sl)
  {
    fl, sl := fl0, sl0;
    var slMap := MaskFrom(p.slBitmap[fl], sl);
    if slMap == 0 {
      RowExhausted(p.heads, p.slBitmap, p.flBitmap, fl0, sl0);
      var flMap := MaskFrom(p.flBitmap, fl + 1);
      if flMap == 0 {
        RowsExhausted(p.heads, p.slBitmap, p.flBitmap, fl0);
        NothingListed(p, fl0, sl0);
        block := None;
        return;
      }
      FirstRow(p.heads, p.slBitmap, p.flBitmap, fl0);
      fl := Ffs(flMap);
      slMap := p.slBitmap[fl];
      assert slMap == MaskFrom(p.slBitmap[fl], 0);
      FirstColumn(p.heads, p.slBitmap, p.flBitmap, fl, 0);
    } else {
      FirstColumn(p.heads, p.slBitmap, p.flBitmap, fl, sl);
    }
    sl := Ffs(slMap);
    assert HeadOk(p.mem, p.heads, p.g, fl, sl);
    block := Some(p.heads[fl][sl]);
    NothingSkipped(p, fl0, sl0, fl, sl);
  }

  /** All lists of row f from column s on are empty. */
  ghost predicate RowEmptyFrom(heads: Heads, f: int, s: int)
    requires Dims(heads) && 0 <= f < FL_INDEX_COUNT
  {
    forall k :: 0 <= k < SL_INDEX_COUNT && s <= k ==> heads[f][k] == NULL
  }

  lemma RowExhausted(heads: Heads, sl: seq<nat>, fl: nat, f: int, s: int)
    requires BitsOk(heads, sl, fl) && InTable(f, s) && MaskFrom(sl[f], s) == 0
    ensures RowEmptyFrom(heads, f, s)
  {
    forall k | 0 <= k < SL_INDEX_COUNT && s <= k ensures heads[f][k] == NULL {
      assert SlBit(heads, sl, f, k);
      MaskFromAt(sl[f], s, k);
      ZeroHasNoBit(0, k);
    }
  }

  lemma RowsExhausted(heads: Heads, sl: seq<nat>, fl: nat, f: int)
    requires BitsOk(heads, sl, fl) && 0 <= f < FL_INDEX_COUNT && MaskFrom(fl, f + 1) == 0
    ensures forall k :: f < k < FL_INDEX_COUNT ==> RowEmptyFrom(heads, k, 0)
  {
    forall k | f < k < FL_INDEX_COUNT ensures RowEmptyFrom(heads, k, 0) {
      assert FlBit(sl, fl, k);
      MaskFromAt(fl, f + 1, k);
      ZeroHasNoBit(0, k);
      RowExhausted(heads, sl, fl, k, 0);
    }
  }

  lemma FirstRow(heads: Heads, sl: seq<nat>, fl: nat, f: int)
    requires BitsOk(heads, sl, fl) && 0 <= f < FL_INDEX_COUNT && MaskFrom(fl, f + 1) != 0
    ensures f < Ffs(MaskFrom(fl, f + 1)) < FL_INDEX_COUNT
    ensures sl[Ffs(MaskFrom(fl, f + 1))] != 0
    ensures forall k :: f < k < Ffs(MaskFrom(fl, f + 1)) ==> RowEmptyFrom(heads, k, 0)
  {
    var m := MaskFrom(fl, f + 1);
    FfsLowest(m);
    MaskFromAt(fl, f + 1, Ffs(m));
    assert FlBit(sl, fl, Ffs(m));
    forall k | f < k < Ffs(m) ensures RowEmptyFrom(heads, k, 0) {
      MaskFromAt(fl, f + 1, k);
      assert FlBit(sl, fl, k);
      RowExhausted(heads, sl, fl, k, 0);
    }
  }

  lemma FirstColumn(heads: Heads, sl: seq<nat>, fl: nat, f: int, s: int)
    requires BitsOk(heads, sl, fl) && InTable(f, s) && MaskFrom(sl[f], s) != 0
    ensures var k := Ffs(MaskFrom(sl[f], s));
            && s <= k < SL_INDEX_COUNT && heads[f][k] != NULL
            && forall j :: s <= j < k ==> heads[f][j] == NULL
  {
    var m := MaskFrom(sl[f], s);
    FfsLowest(m);
    MaskFromAt(sl[f], s, Ffs(m));
    assert SlBit(heads, sl, f, Ffs(m));
    forall j | s <= j < Ffs(m) ensures heads[f][j] == NULL {
      MaskFromAt(sl[f], s, j);
      assert SlBit(heads, sl, f, j);
    }
  }

  lemma NothingListed(p: Pool, f: int, s: int)
    requires p.Inv() && InTable(f, s) && RowEmptyFrom(p.heads, f, s)
    requires forall k :: f < k < FL_INDEX_COUNT ==> RowEmptyFrom(p.heads, k, 0)
    ensures !Available(p.g, f, s)
  {
    forall a | a in p.g && p.g[a].listed ensures ClassOrder(Class(p.g[a].size)) < ClassOrder((f, s)) {
      ListedHasHead(p.mem, p.heads, p.g, p.clock, a);
      var rowEmpty := RowEmptyFrom(p.heads, Class(p.g[a].size).0, 0);
    }
  }

  lemma NothingSkipped(p: Pool, f0: int, s0: int, f: int, s: int)
    requires p.Inv() && InTable(f0, s0) && InTable(f, s) && f0 <= f
    requires f == f0 ==> s0 <= s && forall k :: s0 <= k < s ==> p.heads[f][k] == NULL
    requires f0 < f ==> RowEmptyFrom(p.heads, f0, s0) && forall k :: 0 <= k < s ==> p.heads[f][k] == NULL
    requires forall k :: f0 < k < f ==> RowEmptyFrom(p.heads, k, 0)
    ensures forall a :: a in p.g && p.g[a].listed && ClassOrder((f0, s0)) <= ClassOrder(Class(p.g[a].size))
                   ==> ClassOrder((f, s)) <= ClassOrder(Class(p.g[a].size))
  {
    forall a | a in p.g && p.g[a].listed && ClassOrder((f0, s0)) <= ClassOrder(Class(p.g[a].size))
      ensures ClassOrder((f, s)) <= ClassOrder(Class(p.g[a].size)) {
      ListedHasHead(p.mem, p.heads, p.g, p.clock, a);
      var c := Class(p.g[a].size);
      assert f0 <= c.0;
      var rowEmpty := RowEmptyFrom(p.heads, c.0, 0);
    }
  }
}
