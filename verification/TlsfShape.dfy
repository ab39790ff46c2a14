/** The physical layout of a TLSF pool, apart from its memory. A shape records,
    per block address, what the block's header says and where its physical
    predecessor is. Addresses and sizes count words. A block at address a owns
    the header word a + 1 and the payload words a + 2 .. a + 1 + size; the last
    payload word is the prev_phys_block field of the next block. */
module TlsfShape {
  import opened TlsfMapping

  /** size: payload words. free, prevFree: the two flag bits of the header.
      linked: the next block's prev_phys_block field points here. listed: the
      block is in a free list. prev: the physically previous block. rank: order
      within a free list, larger nearer the head. */
  datatype Blk = Blk(size: nat, free: bool, prevFree: bool, linked: bool, listed: bool, prev: int, rank: nat)

  type Shape = map<int, Blk>

  /** First block: its prev_phys_block field is the last word of pool_t. */
  const FIRST: int := if WORD == 4 then 796 else 816

  /** block_size_min, in words. */
  const MIN_SIZE: nat := 3

  function Next(g: Shape, a: int): int
    requires a in g
  {
    a + 1 + g[a].size
  }

  /** Block a touches its physical neighbours exactly. */
  ghost predicate Fits(g: Shape, end: int, a: int)
    requires a in g
  {
    && FIRST <= a <= end
    && (a == end ==> g[a].size == 0)
    && (a != end ==> g[a].size >= MIN_SIZE && Next(g, a) in g && g[Next(g, a)].prev == a)
    && (a != FIRST ==> g[a].prev in g && g[a].prev != end && Next(g, g[a].prev) == a)
  }

  ghost predicate Apart(g: Shape, a: int, b: int)
    requires a in g && b in g
  {
    a < b ==> Next(g, a) <= b
  }

  /** The blocks tile the words from FIRST up to the zero-size sentinel. */
  ghost predicate Tiled(g: Shape, end: int) {
    && FIRST in g && end in g && FIRST < end
    && (forall a {:trigger Fits(g, end, a)} :: a in g ==> Fits(g, end, a))
    && (forall a, b {:trigger Apart(g, a, b)} :: a in g && b in g ==> Apart(g, a, b))
  }

  /** No word strictly inside a block starts another block. */
  lemma Interior(g: Shape, end: int, a: int, w: int)
    requires Tiled(g, end) && a in g && a < w < Next(g, a)
    ensures w !in g
  {
    assert w in g ==> Apart(g, a, w);
  }

  /** Distinct blocks have disjoint extents. */
  lemma Separate(g: Shape, end: int, a: int, b: int)
    requires Tiled(g, end) && a in g && b in g && a != b
    ensures a < b ==> Next(g, a) <= b
    ensures b < a ==> Next(g, b) <= a
  {
    assert Apart(g, a, b) && Apart(g, b, a);
  }

  // ------------------------------------------------- splitting and absorbing

  /** Split block a after `size` payload words; the second part is free. */
  function SplitShape(g: Shape, a: int, size: nat, flag: bool): Shape
    requires a in g && Next(g, a) in g && size + 1 <= g[a].size
  {
    var r := a + 1 + size;
    var n := Next(g, a);
    g[a := g[a].(size := size, linked := false)]
     [n := g[n].(prev := r, prevFree := true)]
     [r := Blk(g[a].size - size - 1, true, flag, true, false, a, 0)]
  }

  lemma SplitTiles(g: Shape, end: int, a: int, size: nat, flag: bool)
    requires Tiled(g, end) && a in g && a != end
    requires MIN_SIZE <= size && size + 4 <= g[a].size
    ensures Next(g, a) in g && a + 1 + size !in g
    ensures Tiled(SplitShape(g, a, size, flag), end)
  {
    assert Fits(g, end, a);
    Interior(g, end, a, a + 1 + size);
    var g' := SplitShape(g, a, size, flag);
    forall b | b in g' ensures Fits(g', end, b) {
      SplitFits(g, end, a, size, flag, b);
    }
    forall b, c | b in g' && c in g' ensures Apart(g', b, c) {
      SplitApart(g, end, a, size, flag, b, c);
    }
  }

  lemma SplitFits(g: Shape, end: int, a: int, size: nat, flag: bool, b: int)
    requires Tiled(g, end) && a in g && a != end && Next(g, a) in g
    requires MIN_SIZE <= size && size + 4 <= g[a].size && a + 1 + size !in g
    requires b in SplitShape(g, a, size, flag)
    ensures Fits(SplitShape(g, a, size, flag), end, b)
  {
    assert Fits(g, end, a) && Fits(g, end, Next(g, a));
    if b in g {
      assert Fits(g, end, b);
    }
  }

  lemma SplitApart(g: Shape, end: int, a: int, size: nat, flag: bool, b: int, c: int)
    requires Tiled(g, end) && a in g && a != end && Next(g, a) in g
    requires MIN_SIZE <= size && size + 4 <= g[a].size && a + 1 + size !in g
    requires b in SplitShape(g, a, size, flag) && c in SplitShape(g, a, size, flag)
    ensures Apart(SplitShape(g, a, size, flag), b, c)
  {
    if b in g && c in g {
      assert Apart(g, b, c);
    } else if b in g {
      assert Apart(g, b, a) && Apart(g, a, b);
    } else if c in g {
      assert Apart(g, c, a) && Apart(g, a, c);
    }
  }

  /** Block a absorbs its physical successor. */
  function AbsorbShape(g: Shape, a: int): Shape
    requires a in g && Next(g, a) in g && Next(g, Next(g, a)) in g
  {
    var b := Next(g, a);
    var n := Next(g, b);
    (g[a := g[a].(size := g[a].size + g[b].size + 1, linked := true)]
      [n := g[n].(prev := a)]) - {b}
  }

  lemma AbsorbFits(g: Shape, end: int, a: int, c: int)
    requires Tiled(g, end) && a in g && a != end && Next(g, a) != end
    requires Next(g, a) in g && Next(g, Next(g, a)) in g
    requires c in g && c != Next(g, a)
    ensures Fits(AbsorbShape(g, a), end, c)
  {
    var b := Next(g, a);
    assert Fits(g, end, a) && Fits(g, end, b) && Fits(g, end, c);
    if c != end && c != a {
      assert Fits(g, end, Next(g, c));
    }
  }

  lemma AbsorbApart(g: Shape, end: int, a: int, c: int, d: int)
    requires Tiled(g, end) && a in g && a != end && Next(g, a) != end
    requires Next(g, a) in g && Next(g, Next(g, a)) in g
    requires c in g && c != Next(g, a) && d in g && d != Next(g, a)
    ensures Apart(AbsorbShape(g, a), c, d)
  {
    assert Apart(g, c, d);
    assert Apart(g, Next(g, a), d);
  }

  lemma AbsorbTiles(g: Shape, end: int, a: int)
    requires Tiled(g, end) && a in g && a != end && Next(g, a) != end
    ensures Next(g, a) in g && Next(g, Next(g, a)) in g
    ensures Tiled(AbsorbShape(g, a), end)
  {
    assert Fits(g, end, a) && Fits(g, end, Next(g, a));
    var g' := AbsorbShape(g, a);
    assert FIRST in g' && end in g' by {
      assert Fits(g, end, FIRST);
    }
    forall c | c in g' ensures Fits(g', end, c) {
      AbsorbFits(g, end, a, c);
    }
    forall c, d | c in g' && d in g' ensures Apart(g', c, d) {
      AbsorbApart(g, end, a, c, d);
    }
  }
}
