/** The segregated free lists. Every listed block carries its two list pointers
    in its first two payload words; NULL (word 0, the pool's block_null) ends a
    list on both sides. Ranks fall along next_free, so no list is cyclic. */
module TlsfLists {
  import opened TlsfMapping
  import opened TlsfShape

  type Heads = seq<seq<int>>

  /** Address of the pool's block_null. */
  const NULL: int := 0

  function Class(size: nat): (int, int) {
    MappingInsert(Bytes(size))
  }

  ghost predicate InTable(f: int, s: int) {
    0 <= f < FL_INDEX_COUNT && 0 <= s < SL_INDEX_COUNT
  }

  ghost predicate Dims(heads: Heads) {
    |heads| == FL_INDEX_COUNT && forall f :: 0 <= f < FL_INDEX_COUNT ==> |heads[f]| == SL_INDEX_COUNT
  }

  function Head(heads: Heads, c: (int, int)): int
    requires Dims(heads) && InTable(c.0, c.1)
  {
    heads[c.0][c.1]
  }

  function SetHead(heads: Heads, c: (int, int), a: int): (heads': Heads)
    requires Dims(heads) && InTable(c.0, c.1)
    ensures Dims(heads')
    ensures forall d: (int, int) {:trigger Head(heads', d)} :: InTable(d.0, d.1) ==>
              Head(heads', d) == if d == c then a else Head(heads, d)
  {
    heads[c.0 := heads[c.0][c.1 := a]]
  }

  /** b is listed in the same class as a. */
  ghost predicate Peer(g: Shape, a: int, b: int)
    requires a in g
  {
    b in g && g[b].listed && Class(g[b].size) == Class(g[a].size)
  }

  ghost predicate NodeOk(mem: seq<int>, heads: Heads, g: Shape, clock: nat, a: int)
    requires a in g && Dims(heads)
  {
    && FIRST <= a && a + 3 < |mem|
    && g[a].size >= MIN_SIZE && g[a].rank < clock
    && InTable(Class(g[a].size).0, Class(g[a].size).1)
    && (mem[a + 2] != NULL ==>
          Peer(g, a, mem[a + 2]) && g[mem[a + 2]].rank < g[a].rank
          && 0 < mem[a + 2] && mem[a + 2] + 3 < |mem| && mem[mem[a + 2] + 3] == a)
    && (mem[a + 3] == NULL ==> Head(heads, Class(g[a].size)) == a)
    && (mem[a + 3] != NULL ==>
          Peer(g, a, mem[a + 3]) && 0 < mem[a + 3] && mem[a + 3] + 3 < |mem| && mem[mem[a + 3] + 2] == a)
  }

  ghost predicate HeadOk(mem: seq<int>, heads: Heads, g: Shape, f: int, s: int)
    requires Dims(heads) && InTable(f, s)
  {
    var h := heads[f][s];
    h != NULL ==>
      h in g && g[h].listed && Class(g[h].size) == (f, s) && 0 < h && h + 3 < |mem| && mem[h + 3] == NULL
  }

  ghost predicate ListsOk(mem: seq<int>, heads: Heads, g: Shape, clock: nat) {
    && Dims(heads)
    && (forall a {:trigger NodeOk(mem, heads, g, clock, a)} ::
          a in g && g[a].listed ==> NodeOk(mem, heads, g, clock, a))
    && (forall f, s {:trigger HeadOk(mem, heads, g, f, s)} ::
          InTable(f, s) ==> HeadOk(mem, heads, g, f, s))
  }

  // ---------------------------------------------------------------- framing

  /** A place whose list words may be written: block_null or a proper block. */
  ghost predicate Spot(g: Shape, x: int) {
    x == NULL || (x in g && FIRST <= x && g[x].size >= MIN_SIZE)
  }

  /** The list words of two different places never overlap. */
  lemma Far(g: Shape, end: int, x: int, y: int)
    requires Tiled(g, end) && Spot(g, x) && Spot(g, y) && x != y
    ensures x + 4 <= y || y + 4 <= x
  {
    if x != NULL && y != NULL {
      Separate(g, end, x, y);
    }
  }

  /** Listed blocks, their class, rank and list words agree in two states. */
  ghost predicate SameLists(mem: seq<int>, g: Shape, mem': seq<int>, g': Shape) {
    && |mem'| == |mem|
    && (forall a {:trigger a in g'} :: a in g' && g'[a].listed ==> a in g && g[a].listed)
    && (forall a {:trigger a in g} :: a in g && g[a].listed ==>
          && a in g' && g'[a].listed && g'[a].size == g[a].size && g'[a].rank == g[a].rank
          && (0 < a && a + 3 < |mem| ==> mem'[a + 2] == mem[a + 2] && mem'[a + 3] == mem[a + 3]))
  }

  lemma FrameNode(mem: seq<int>, heads: Heads, g: Shape, clock: nat, mem': seq<int>, g': Shape, a: int)
    requires ListsOk(mem, heads, g, clock) && SameLists(mem, g, mem', g')
    requires a in g && g[a].listed
    ensures a in g' && NodeOk(mem', heads, g', clock, a)
  {
    assert NodeOk(mem, heads, g, clock, a);
  }

  lemma FrameLists(mem: seq<int>, heads: Heads, g: Shape, clock: nat, mem': seq<int>, g': Shape)
    requires ListsOk(mem, heads, g, clock) && SameLists(mem, g, mem', g')
    ensures ListsOk(mem', heads, g', clock)
  {
    forall a | a in g' && g'[a].listed ensures NodeOk(mem', heads, g', clock, a) {
      FrameNode(mem, heads, g, clock, mem', g', a);
    }
    forall f, s | InTable(f, s) ensures HeadOk(mem', heads, g', f, s) {
      assert HeadOk(mem, heads, g, f, s);
    }
  }

  // ---------------------------------------------------------------- removal

  /** The list words remove_free_block writes. */
  function UnlinkWords(mem: seq<int>, a: int): (mem': seq<int>)
    requires 0 <= a && a + 3 < |mem|
    requires 0 <= mem[a + 2] && mem[a + 2] + 3 < |mem|
    requires 0 <= mem[a + 3] && mem[a + 3] + 3 < |mem|
    ensures |mem'| == |mem|
  {
    mem[mem[a + 2] + 3 := mem[a + 3]][mem[a + 3] + 2 := mem[a + 2]]
  }

  function UnlinkHeads(heads: Heads, g: Shape, mem: seq<int>, a: int): Heads
    requires a in g && Dims(heads) && InTable(Class(g[a].size).0, Class(g[a].size).1)
    requires 0 <= a && a + 3 < |mem|
  {
    var c := Class(g[a].size);
    if Head(heads, c) == a then SetHead(heads, c, mem[a + 2]) else heads
  }

  ghost predicate Removable(mem: seq<int>, heads: Heads, g: Shape, clock: nat, end: int, a: int) {
    && Tiled(g, end) && ListsOk(mem, heads, g, clock)
    && a in g && g[a].listed && NodeOk(mem, heads, g, clock, a)
    && |mem| == end + 2
  }

  /** Where the unlinked block's neighbours are, and that their words are apart. */
  lemma UnlinkSpots(mem: seq<int>, heads: Heads, g: Shape, clock: nat, end: int, a: int)
    requires Removable(mem, heads, g, clock, end, a)
    ensures var n, p := mem[a + 2], mem[a + 3];
            && Spot(g, n) && Spot(g, p) && n != a && p != a
            && (n != NULL ==> NodeOk(mem, heads, g, clock, n) && n != p)
            && (p != NULL ==> NodeOk(mem, heads, g, clock, p) && g[a].rank < g[p].rank)
  {
    var n, p := mem[a + 2], mem[a + 3];
    if n != NULL { assert NodeOk(mem, heads, g, clock, n); }
    if p != NULL { assert NodeOk(mem, heads, g, clock, p); }
  }

  /** What unlinking a leaves in the list words of a block b. */
  lemma UnlinkWordsAt(mem: seq<int>, heads: Heads, g: Shape, clock: nat, end: int, a: int, b: int)
    requires Removable(mem, heads, g, clock, end, a)
    requires b in g && g[b].listed
    ensures FIRST <= b && b + 3 < |mem|
    ensures var n, p, mem' := mem[a + 2], mem[a + 3], UnlinkWords(mem, a);
            && mem'[b + 2] == (if b == p then n else mem[b + 2])
            && mem'[b + 3] == (if b == n then p else mem[b + 3])
  {
    var n, p := mem[a + 2], mem[a + 3];
    UnlinkSpots(mem, heads, g, clock, end, a);
    assert NodeOk(mem, heads, g, clock, b);
    if n != b { Far(g, end, n, b); }
    if p != b { Far(g, end, p, b); }
    if n != p { Far(g, end, n, p); }
  }

  lemma UnlinkNext(mem: seq<int>, heads: Heads, g: Shape, clock: nat, end: int, a: int, b: int)
    requires Removable(mem, heads, g, clock, end, a)
    requires b in g && g[b].listed && b != a && NodeOk(mem, heads, g, clock, b)
    ensures var m := if b == mem[a + 3] then mem[a + 2] else mem[b + 2];
            m != NULL ==> && m != a && Peer(g, b, m) && g[m].rank < g[b].rank
                          && 0 < m && m + 3 < |mem| && UnlinkWords(mem, a)[m + 3] == b
  {
    UnlinkSpots(mem, heads, g, clock, end, a);
    var m := if b == mem[a + 3] then mem[a + 2] else mem[b + 2];
    if m != NULL {
      assert NodeOk(mem, heads, g, clock, m);
      UnlinkWordsAt(mem, heads, g, clock, end, a, m);
    }
  }

  lemma UnlinkPrev(mem: seq<int>, heads: Heads, g: Shape, clock: nat, end: int, a: int, b: int)
    requires Removable(mem, heads, g, clock, end, a)
    requires b in g && g[b].listed && b != a && NodeOk(mem, heads, g, clock, b)
    ensures var m := if b == mem[a + 2] then mem[a + 3] else mem[b + 3];
            && (m != NULL ==> && m != a && Peer(g, b, m) && 0 < m && m + 3 < |mem| && UnlinkWords(mem, a)[m + 2] == b)
            && (m == NULL ==> Head(UnlinkHeads(heads, g, mem, a), Class(g[b].size)) == b)
  {
    UnlinkSpots(mem, heads, g, clock, end, a);
    var m := if b == mem[a + 2] then mem[a + 3] else mem[b + 3];
    if m != NULL {
      assert NodeOk(mem, heads, g, clock, m);
      UnlinkWordsAt(mem, heads, g, clock, end, a, m);
    }
  }

  lemma UnlinkNode(mem: seq<int>, heads: Heads, g: Shape, clock: nat, end: int, a: int, b: int)
    requires Removable(mem, heads, g, clock, end, a)
    requires b in g && g[b].listed && b != a
    ensures NodeOk(UnlinkWords(mem, a), UnlinkHeads(heads, g, mem, a), g[a := g[a].(listed := false)], clock, b)
  {
    assert NodeOk(mem, heads, g, clock, b);
    UnlinkWordsAt(mem, heads, g, clock, end, a, b);
    UnlinkNext(mem, heads, g, clock, end, a, b);
    UnlinkPrev(mem, heads, g, clock, end, a, b);
  }

  lemma UnlinkHead(mem: seq<int>, heads: Heads, g: Shape, clock: nat, end: int, a: int, f: int, s: int)
    requires Removable(mem, heads, g, clock, end, a) && InTable(f, s)
    ensures HeadOk(UnlinkWords(mem, a), UnlinkHeads(heads, g, mem, a), g[a := g[a].(listed := false)], f, s)
  {
    hide SetHead, Bytes, Class;
    var h := Head(UnlinkHeads(heads, g, mem, a), (f, s));
    assert HeadOk(mem, heads, g, f, s);
    UnlinkSpots(mem, heads, g, clock, end, a);
    if h != NULL {
      assert NodeOk(mem, heads, g, clock, h);
      UnlinkWordsAt(mem, heads, g, clock, end, a, h);
    }
  }

  /** Unlinking a block leaves every other list entry in order. */
  lemma UnlinkKeepsLists(mem: seq<int>, heads: Heads, g: Shape, clock: nat, end: int, a: int)
    requires Removable(mem, heads, g, clock, end, a)
    ensures ListsOk(UnlinkWords(mem, a), UnlinkHeads(heads, g, mem, a), g[a := g[a].(listed := false)], clock)
  {
    var mem' := UnlinkWords(mem, a);
    var heads' := UnlinkHeads(heads, g, mem, a);
    var g' := g[a := g[a].(listed := false)];
    forall b | b in g' && g'[b].listed ensures NodeOk(mem', heads', g', clock, b) {
      UnlinkNode(mem, heads, g, clock, end, a, b);
    }
    forall f, s | InTable(f, s) ensures HeadOk(mem', heads', g', f, s) {
      UnlinkHead(mem, heads, g, clock, end, a, f, s);
    }
  }

  // -------------------------------------------------------------- insertion

  /** The list words insert_free_block writes. */
  function LinkWords(mem: seq<int>, a: int, current: int): (mem': seq<int>)
    requires 0 <= a && a + 3 < |mem| && 0 <= current && current + 3 < |mem|
    ensures |mem'| == |mem|
  {
    mem[a + 2 := current][a + 3 := NULL][current + 3 := a]
  }

  ghost predicate Insertable(mem: seq<int>, heads: Heads, g: Shape, clock: nat, end: int, a: int) {
    && Tiled(g, end) && ListsOk(mem, heads, g, clock)
    && a in g && a != end && !g[a].listed && g[a].free
    && InTable(Class(g[a].size).0, Class(g[a].size).1)
    && |mem| == end + 2
  }

  function Inserted(g: Shape, a: int, clock: nat): Shape
    requires a in g
  {
    g[a := g[a].(listed := true, rank := clock)]
  }

  lemma InsertBounds(mem: seq<int>, heads: Heads, g: Shape, clock: nat, end: int, a: int)
    requires Insertable(mem, heads, g, clock, end, a)
    ensures FIRST <= a && a + 3 < |mem| && g[a].size >= MIN_SIZE
    ensures var h := Head(heads, Class(g[a].size));
            && 0 <= h && h + 3 < |mem| && h != a
            && (h != NULL ==> Peer(g, a, h) && NodeOk(mem, heads, g, clock, h) && mem[h + 3] == NULL)
  {
    assert Fits(g, end, a);
    assert Fits(g, end, Next(g, a));
    var c := Class(g[a].size);
    assert HeadOk(mem, heads, g, c.0, c.1);
  }

  /** What inserting a leaves in the list words of a block b. */
  lemma LinkWordsAt(mem: seq<int>, heads: Heads, g: Shape, clock: nat, end: int, a: int, b: int)
    requires Insertable(mem, heads, g, clock, end, a)
    requires b in g && g[b].listed
    ensures var h := Head(heads, Class(g[a].size));
            && 0 <= a && a + 3 < |mem| && 0 <= h && h + 3 < |mem| && FIRST <= b && b + 3 < |mem|
            && b != a && LinkWords(mem, a, h)[b + 2] == mem[b + 2]
            && LinkWords(mem, a, h)[b + 3] == if b == h then a else mem[b + 3]
  {
    InsertBounds(mem, heads, g, clock, end, a);
    var h := Head(heads, Class(g[a].size));
    assert NodeOk(mem, heads, g, clock, b);
    Far(g, end, a, b);
    if h != b { Far(g, end, h, b); }
  }

  lemma LinkOther(mem: seq<int>, heads: Heads, g: Shape, clock: nat, end: int, a: int, b: int)
    requires Insertable(mem, heads, g, clock, end, a)
    requires b in g && g[b].listed
    ensures var h := Head(heads, Class(g[a].size));
            && 0 <= a && a + 3 < |mem| && 0 <= h && h + 3 < |mem|
            && NodeOk(LinkWords(mem, a, h), SetHead(heads, Class(g[a].size), a), Inserted(g, a, clock), clock + 1, b)
  {
    InsertBounds(mem, heads, g, clock, end, a);
    assert NodeOk(mem, heads, g, clock, b);
    LinkWordsAt(mem, heads, g, clock, end, a, b);
    var n, p := mem[b + 2], mem[b + 3];
    if n != NULL { LinkWordsAt(mem, heads, g, clock, end, a, n); }
    if p != NULL { LinkWordsAt(mem, heads, g, clock, end, a, p); }
    Far(g, end, a, Head(heads, Class(g[a].size)));
  }

  lemma LinkNew(mem: seq<int>, heads: Heads, g: Shape, clock: nat, end: int, a: int)
    requires Insertable(mem, heads, g, clock, end, a)
    ensures var h := Head(heads, Class(g[a].size));
            && 0 <= a && a + 3 < |mem| && 0 <= h && h + 3 < |mem|
            && NodeOk(LinkWords(mem, a, h), SetHead(heads, Class(g[a].size), a), Inserted(g, a, clock), clock + 1, a)
  {
    InsertBounds(mem, heads, g, clock, end, a);
    var c := Class(g[a].size);
    var h := Head(heads, c);
    assert HeadOk(mem, heads, g, c.0, c.1);
    Far(g, end, a, h);
  }

  lemma LinkHead(mem: seq<int>, heads: Heads, g: Shape, clock: nat, end: int, a: int, f: int, s: int)
    requires Insertable(mem, heads, g, clock, end, a) && InTable(f, s)
    ensures var h := Head(heads, Class(g[a].size));
            && 0 <= a && a + 3 < |mem| && 0 <= h && h + 3 < |mem|
            && HeadOk(LinkWords(mem, a, h), SetHead(heads, Class(g[a].size), a), Inserted(g, a, clock), f, s)
  {
    InsertBounds(mem, heads, g, clock, end, a);
    var c := Class(g[a].size);
    var h := Head(heads, c);
    var k := Head(SetHead(heads, c, a), (f, s));
    assert HeadOk(mem, heads, g, f, s);
    assert HeadOk(mem, heads, g, c.0, c.1);
    Far(g, end, a, h);
    if k != NULL && k != a {
      LinkWordsAt(mem, heads, g, clock, end, a, k);
    }
  }

  /** Putting a free block at the head of its class keeps every list in order. */
  lemma LinkKeepsLists(mem: seq<int>, heads: Heads, g: Shape, clock: nat, end: int, a: int)
    requires Insertable(mem, heads, g, clock, end, a)
    ensures var h := Head(heads, Class(g[a].size));
            && 0 <= a && a + 3 < |mem| && 0 <= h && h + 3 < |mem|
            && ListsOk(LinkWords(mem, a, h), SetHead(heads, Class(g[a].size), a), Inserted(g, a, clock), clock + 1)
  {
    InsertBounds(mem, heads, g, clock, end, a);
    var h := Head(heads, Class(g[a].size));
    var mem' := LinkWords(mem, a, h);
    var heads' := SetHead(heads, Class(g[a].size), a);
    var g' := Inserted(g, a, clock);
    forall b | b in g' && g'[b].listed ensures NodeOk(mem', heads', g', clock + 1, b) {
      if b == a {
        LinkNew(mem, heads, g, clock, end, a);
      } else {
        LinkOther(mem, heads, g, clock, end, a, b);
      }
    }
    forall f, s | InTable(f, s) ensures HeadOk(mem', heads', g', f, s) {
      LinkHead(mem, heads, g, clock, end, a, f, s);
    }
  }
}
