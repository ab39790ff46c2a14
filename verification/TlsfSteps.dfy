/** One lemma per elementary memory update of the allocator: the layout, the
    headers and the free lists stay consistent, and no other used block's
    payload changes. */
module TlsfSteps {
  import opened TlsfMapping
  import opened TlsfShape
  import opened TlsfLists
  import opened TlsfMemory

  /** Layout, headers, lists and memory agree. */
  ghost predicate Sound(mem: seq<int>, heads: Heads, g: Shape, clock: nat, end: int) {
    && Tiled(g, end) && Match(mem, g, end) && ListsOk(mem, heads, g, clock)
    && Bytes(end - FIRST - 1) < BLOCK_SIZE_MAX
  }

  /** Every block's class is in the table. */
  lemma ClassInTable(g: Shape, end: int, a: int)
    requires Tiled(g, end) && a in g && Bytes(end - FIRST - 1) < BLOCK_SIZE_MAX
    ensures InTable(Class(g[a].size).0, Class(g[a].size).1)
  {
    assert Fits(g, end, a);
    if a != end { assert Apart(g, a, end); }
    MappingInsertInRange(Bytes(g[a].size));
  }

  /** Header and back-pointer words are never list words of a listed block. */
  lemma ListWordsSafe(g: Shape, end: int, x: int, w: int)
    requires Tiled(g, end) && x in g && g[x].size >= MIN_SIZE && (w in g || w - 1 in g)
    ensures w != x + 2 && w != x + 3
  {
    Interior(g, end, x, x + 1);
    Interior(g, end, x, x + 2);
    Interior(g, end, x, x + 3);
  }

  function Flagged(g: Shape, a: int, free: bool, prevFree: bool): Shape
    requires a in g
  {
    g[a := g[a].(free := free, prevFree := prevFree)]
  }

  lemma FlagTiles(g: Shape, end: int, a: int, b: Blk)
    requires Tiled(g, end) && a in g && b.size == g[a].size && b.prev == g[a].prev
    ensures Tiled(g[a := b], end)
  {
    var g' := g[a := b];
    forall c | c in g' ensures Fits(g', end, c) {
      assert Fits(g, end, c);
    }
    forall c, d | c in g' && d in g' ensures Apart(g', c, d) {
      assert Apart(g, c, d);
    }
  }

  /** Setting the flag bits of one header. */
  lemma FlagStep(mem: seq<int>, heads: Heads, g: Shape, clock: nat, end: int, a: int, free: bool, prevFree: bool)
    requires Sound(mem, heads, g, clock, end) && a in g
    ensures 0 <= a && a + 1 < |mem|
    ensures Sound(mem[a + 1 := Header(g[a].size, free, prevFree)], heads, Flagged(g, a, free, prevFree), clock, end)
    ensures KeepsUsed(mem, g, mem[a + 1 := Header(g[a].size, free, prevFree)], Flagged(g, a, free, prevFree),
                      if free then a else -1)
  {
    HeaderWrite(mem, g, end, a, free, prevFree);
    var mem' := mem[a + 1 := Header(g[a].size, free, prevFree)];
    var g' := Flagged(g, a, free, prevFree);
    FlagTiles(g, end, a, g'[a]);
    forall x | x in g && g[x].listed
      ensures x + 3 < |mem| && FIRST <= x && mem'[x + 2] == mem[x + 2] && mem'[x + 3] == mem[x + 3] {
      assert NodeOk(mem, heads, g, clock, x);
      ListWordsSafe(g, end, x, a + 1);
    }
    FrameLists(mem, heads, g, clock, mem', g');
    var e := if free then a else -1;
    forall b | b in g && !g[b].free && b != e ensures Kept(mem, g, mem', g', b) {
      OutsidePayload(g, end, b, a, a + 1);
    }
  }

  /** Forgetting that a block's back pointer is meaningful. */
  lemma ForgetLink(mem: seq<int>, heads: Heads, g: Shape, clock: nat, end: int, a: int)
    requires Sound(mem, heads, g, clock, end) && a in g
    ensures Sound(mem, heads, g[a := g[a].(linked := false)], clock, end)
    ensures KeepsUsed(mem, g, mem, g[a := g[a].(linked := false)], -1)
  {
    var g' := g[a := g[a].(linked := false)];
    FlagTiles(g, end, a, g'[a]);
    forall b | b in g' ensures HdrOk(mem, g', b) {
      assert HdrOk(mem, g, b);
    }
    FrameLists(mem, heads, g, clock, mem, g');
    forall b | b in g && !g[b].free ensures Kept(mem, g, mem, g', b) {
    }
  }

  /** Storing a block's address in its successor's prev_phys_block field. */
  lemma LinkStep(mem: seq<int>, heads: Heads, g: Shape, clock: nat, end: int, a: int)
    requires Sound(mem, heads, g, clock, end) && a in g && a != end
    ensures 0 <= a && Next(g, a) in g && Next(g, a) < |mem|
    ensures Sound(mem[Next(g, a) := a], heads, g[a := g[a].(linked := true)], clock, end)
    ensures KeepsUsed(mem, g, mem[Next(g, a) := a], g[a := g[a].(linked := true)], a)
  {
    LinkWrite(mem, g, end, a);
    var n := Next(g, a);
    var mem' := mem[n := a];
    var g' := g[a := g[a].(linked := true)];
    FlagTiles(g, end, a, g'[a]);
    forall x | x in g && g[x].listed
      ensures x + 3 < |mem| && FIRST <= x && mem'[x + 2] == mem[x + 2] && mem'[x + 3] == mem[x + 3] {
      assert NodeOk(mem, heads, g, clock, x);
      ListWordsSafe(g, end, x, n);
    }
    FrameLists(mem, heads, g, clock, mem', g');
    forall b | b in g && !g[b].free && b != a ensures Kept(mem, g, mem', g', b) {
      OutsidePayload(g, end, b, a, n);
    }
  }

  /** Writing one list word of a free block, or of block_null. */
  lemma ListWordKeeps(mem: seq<int>, g: Shape, end: int, x: int, w: int, v: int)
    requires Tiled(g, end) && Match(mem, g, end)
    requires Spot(g, x) && (x != NULL ==> g[x].free) && (w == x + 2 || w == x + 3)
    ensures 0 <= w < |mem| && Match(mem[w := v], g, end)
    ensures KeepsUsed(mem, g, mem[w := v], g, -1)
  {
    InteriorWrite(mem, g, end, x, w, v);
    forall b | b in g && !g[b].free ensures Kept(mem, g, mem[w := v], g, b) {
      if x != NULL {
        OutsidePayload(g, end, b, x, w);
      } else {
        assert Fits(g, end, b);
      }
    }
  }

  /** Taking a block out of its free list. */
  lemma UnlinkStep(mem: seq<int>, heads: Heads, g: Shape, clock: nat, end: int, a: int)
    requires Sound(mem, heads, g, clock, end) && a in g && g[a].listed
    requires forall x :: x in g && g[x].listed ==> g[x].free
    ensures Removable(mem, heads, g, clock, end, a)
    ensures Sound(UnlinkWords(mem, a), UnlinkHeads(heads, g, mem, a), g[a := g[a].(listed := false)], clock, end)
    ensures KeepsUsed(mem, g, UnlinkWords(mem, a), g[a := g[a].(listed := false)], -1)
  {
    assert NodeOk(mem, heads, g, clock, a);
    UnlinkSpots(mem, heads, g, clock, end, a);
    UnlinkKeepsLists(mem, heads, g, clock, end, a);
    var n, p := mem[a + 2], mem[a + 3];
    var m1 := mem[n + 3 := p];
    ListWordKeeps(mem, g, end, n, n + 3, p);
    ListWordKeeps(m1, g, end, p, p + 2, n);
    KeepsUsedTrans(mem, g, m1, g, UnlinkWords(mem, a), g, -1);
    RelabelList(UnlinkWords(mem, a), g, end, a, false, g[a].rank);
    KeepsUsedTrans(mem, g, UnlinkWords(mem, a), g, UnlinkWords(mem, a), g[a := g[a].(listed := false)], -1);
  }

  /** Headers and payloads do not depend on the list bookkeeping. */
  lemma RelabelList(mem: seq<int>, g: Shape, end: int, a: int, listed: bool, rank: nat)
    requires Tiled(g, end) && Match(mem, g, end) && a in g
    ensures Tiled(g[a := g[a].(listed := listed, rank := rank)], end)
    ensures Match(mem, g[a := g[a].(listed := listed, rank := rank)], end)
    ensures KeepsUsed(mem, g, mem, g[a := g[a].(listed := listed, rank := rank)], -1)
  {
    var g' := g[a := g[a].(listed := listed, rank := rank)];
    FlagTiles(g, end, a, g'[a]);
    forall b | b in g' ensures HdrOk(mem, g', b) {
      assert HdrOk(mem, g, b);
    }
    forall b | b in g && !g[b].free ensures Kept(mem, g, mem, g', b) {
    }
  }

  /** Putting a free block into the free list of its class. */
  lemma InsertStep(mem: seq<int>, heads: Heads, g: Shape, clock: nat, end: int, a: int)
    requires Sound(mem, heads, g, clock, end)
    requires a in g && a != end && g[a].free && !g[a].listed
    requires forall x :: x in g && g[x].listed ==> g[x].free
    ensures Insertable(mem, heads, g, clock, end, a)
    ensures var h := Head(heads, Class(g[a].size));
            && 0 <= a && a + 3 < |mem| && 0 <= h && h + 3 < |mem|
            && Sound(LinkWords(mem, a, h), SetHead(heads, Class(g[a].size), a), Inserted(g, a, clock), clock + 1, end)
            && KeepsUsed(mem, g, LinkWords(mem, a, h), Inserted(g, a, clock), -1)
  {
    ClassInTable(g, end, a);
    InsertBounds(mem, heads, g, clock, end, a);
    LinkKeepsLists(mem, heads, g, clock, end, a);
    var h := Head(heads, Class(g[a].size));
    var m1 := mem[a + 2 := h];
    var m2 := m1[a + 3 := NULL];
    var m3 := LinkWords(mem, a, h);
    ListWordKeeps(mem, g, end, a, a + 2, h);
    ListWordKeeps(m1, g, end, a, a + 3, NULL);
    ListWordKeeps(m2, g, end, h, h + 3, a);
    KeepsUsedTrans(mem, g, m1, g, m2, g, -1);
    KeepsUsedTrans(mem, g, m2, g, m3, g, -1);
    RelabelList(m3, g, end, a, true, clock);
    KeepsUsedTrans(mem, g, m3, g, m3, Inserted(g, a, clock), -1);
  }

  /** Cutting a block in two. */
  lemma SplitStep(mem: seq<int>, heads: Heads, g: Shape, clock: nat, end: int, a: int, size: nat)
    requires Sound(mem, heads, g, clock, end) && a in g && a != end && !g[a].listed
    requires MIN_SIZE <= size && size + 4 <= g[a].size
    ensures Next(g, a) in g && 0 <= a && Next(g, a) + 1 < |mem|
    ensures var flag := HeaderPrevFree(mem[a + 2 + size]);
            && Sound(SplitWords(mem, g, a, size), heads, SplitShape(g, a, size, flag), clock, end)
            && KeepsUsed(mem, g, SplitWords(mem, g, a, size), SplitShape(g, a, size, flag), a)
  {
    hide HeaderFree, HeaderPrevFree, Dims, SameLists;
    SplitMatch(mem, g, end, a, size);
    var flag := HeaderPrevFree(mem[a + 2 + size]);
    SplitTiles(g, end, a, size, flag);
    var mem' := SplitWords(mem, g, a, size);
    var g' := SplitShape(g, a, size, flag);
    forall x | x in g && g[x].listed
      ensures x + 3 < |mem| && FIRST <= x && mem'[x + 2] == mem[x + 2] && mem'[x + 3] == mem[x + 3] {
      assert NodeOk(mem, heads, g, clock, x);
      SplitListWords(mem, g, end, a, size, x);
    }
    FrameLists(mem, heads, g, clock, mem', g');
    forall b | b in g && !g[b].free && b != a ensures Kept(mem, g, mem', g', b) {
      SplitKept(mem, g, end, a, size, flag, b);
    }
  }

  lemma SplitListWords(mem: seq<int>, g: Shape, end: int, a: int, size: nat, x: int)
    requires Tiled(g, end) && a in g && Next(g, a) in g && 0 <= a && Next(g, a) + 1 < |mem|
    requires MIN_SIZE <= size && size + 4 <= g[a].size
    requires x in g && x != a && FIRST <= x && x + 3 < |mem| && g[x].size >= MIN_SIZE
    ensures SplitWords(mem, g, a, size)[x + 2] == mem[x + 2] && SplitWords(mem, g, a, size)[x + 3] == mem[x + 3]
  {
    Separate(g, end, a, x);
    ListWordsSafe(g, end, x, Next(g, a));
    ListWordsSafe(g, end, x, Next(g, a) + 1);
  }

  lemma SplitKept(mem: seq<int>, g: Shape, end: int, a: int, size: nat, flag: bool, b: int)
    requires Tiled(g, end) && a in g && Next(g, a) in g && 0 <= a && Next(g, a) + 1 < |mem|
    requires MIN_SIZE <= size && size + 4 <= g[a].size && a + 1 + size !in g
    requires b in g && !g[b].free && b != a
    ensures Kept(mem, g, SplitWords(mem, g, a, size), SplitShape(g, a, size, flag), b)
  {
    Separate(g, end, a, b);
    OutsidePayload(g, end, b, Next(g, a), Next(g, a) + 1);
  }

  /** Absorbing the free successor of an unlisted block. */
  lemma AbsorbStep(mem: seq<int>, heads: Heads, g: Shape, clock: nat, end: int, a: int)
    requires Sound(mem, heads, g, clock, end) && a in g && a != end && !g[a].listed
    requires Next(g, a) in g && Next(g, a) != end && g[Next(g, a)].free && !g[Next(g, a)].listed
    ensures Next(g, Next(g, a)) in g && 0 <= a && Next(g, Next(g, a)) < |mem|
    ensures Sound(AbsorbWords(mem, g, a), heads, AbsorbShape(g, a), clock, end)
    ensures KeepsUsed(mem, g, AbsorbWords(mem, g, a), AbsorbShape(g, a), a)
  {
    AbsorbMatch(mem, g, end, a);
    AbsorbTiles(g, end, a);
    var b := Next(g, a);
    var mem' := AbsorbWords(mem, g, a);
    var g' := AbsorbShape(g, a);
    forall x | x in g && g[x].listed
      ensures x + 3 < |mem| && FIRST <= x && mem'[x + 2] == mem[x + 2] && mem'[x + 3] == mem[x + 3] {
      assert NodeOk(mem, heads, g, clock, x);
      ListWordsSafe(g, end, x, a + 1);
      ListWordsSafe(g, end, x, Next(g, b));
    }
    FrameLists(mem, heads, g, clock, mem', g');
    forall c | c in g && !g[c].free && c != a ensures Kept(mem, g, mem', g', c) {
      OutsidePayload(g, end, c, a, a + 1);
      OutsidePayload(g, end, c, b, Next(g, b));
    }
  }
}
