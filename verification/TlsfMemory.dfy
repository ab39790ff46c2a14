/** The pool's memory as a sequence of words, and its agreement with a shape. */
module TlsfMemory {
  import opened TlsfMapping
  import opened TlsfShape
  import opened TlsfLists

  /** The size field of a header: the size in bytes with both flags in its low bits. */
  function Header(size: nat, free: bool, prevFree: bool): int {
    Bytes(size) + (if free then 1 else 0) + (if prevFree then 2 else 0)
  }

  /** block_size, in words. */
  function HeaderSize(h: int): (n: int)
    ensures forall size: nat, f, p :: h == Header(size, f, p) ==> n == size
  {
    (h - h % 4) / WORD
  }

  predicate HeaderFree(h: int) { h % 2 == 1 }

  predicate HeaderPrevFree(h: int) { h / 2 % 2 == 1 }

  function HeaderSetFree(h: int): int { if HeaderFree(h) then h else h + 1 }

  function HeaderSetUsed(h: int): int { if HeaderFree(h) then h - 1 else h }

  function HeaderSetPrevFree(h: int): int { if HeaderPrevFree(h) then h else h + 2 }

  function HeaderSetPrevUsed(h: int): int { if HeaderPrevFree(h) then h - 2 else h }

  /** block_set_size: keeps whatever flags the word held. */
  function HeaderSetSize(h: int, size: nat): int { Bytes(size) + h % 4 }

  /** The low bits are independent of the size and of each other. */
  lemma HeaderRoundTrip(size: nat, f: bool, p: bool)
    ensures HeaderSize(Header(size, f, p)) == size
    ensures HeaderFree(Header(size, f, p)) == f && HeaderPrevFree(Header(size, f, p)) == p
    ensures HeaderSetFree(Header(size, f, p)) == Header(size, true, p)
    ensures HeaderSetUsed(Header(size, f, p)) == Header(size, false, p)
    ensures HeaderSetPrevFree(Header(size, f, p)) == Header(size, f, true)
    ensures HeaderSetPrevUsed(Header(size, f, p)) == Header(size, f, false)
    ensures forall n: nat :: HeaderSetSize(Header(size, f, p), n) == Header(n, f, p)
  {
  }

  /** Any word becomes a proper header once a size is stored in it. */
  lemma HeaderSetSizeAny(h: int, size: nat)
    ensures HeaderSetSize(h, size) == Header(size, HeaderFree(h), HeaderPrevFree(h))
  {
  }

  // --------------------------------------------------------- memory and shape

  /** Block a's header word, and the back pointer stored after it, match the shape. */
  ghost predicate HdrOk(mem: seq<int>, g: Shape, a: int)
    requires a in g
  {
    && 0 <= a && a + 1 < |mem| && mem[a + 1] == Header(g[a].size, g[a].free, g[a].prevFree)
    && (g[a].linked ==> Next(g, a) < |mem| && mem[Next(g, a)] == a)
  }

  ghost predicate Match(mem: seq<int>, g: Shape, end: int) {
    && |mem| == end + 2
    && forall a {:trigger HdrOk(mem, g, a)} :: a in g ==> HdrOk(mem, g, a)
  }

  /** A used block and its payload survive from (mem, g) to (mem', g'). */
  ghost predicate Kept(mem: seq<int>, g: Shape, mem': seq<int>, g': Shape, a: int)
    requires a in g
  {
    && a in g' && !g'[a].free && g'[a].size == g[a].size
    && |mem'| == |mem|
    && forall w :: a + 2 <= w <= Next(g, a) && 0 <= w < |mem| ==> mem'[w] == mem[w]
  }

  /** Every used block except x survives. */
  ghost predicate KeepsUsed(mem: seq<int>, g: Shape, mem': seq<int>, g': Shape, x: int) {
    forall a {:trigger Kept(mem, g, mem', g', a)} ::
      a in g && !g[a].free && a != x ==> Kept(mem, g, mem', g', a)
  }

  lemma KeepsUsedTrans(m0: seq<int>, g0: Shape, m1: seq<int>, g1: Shape, m2: seq<int>, g2: Shape, x: int)
    requires KeepsUsed(m0, g0, m1, g1, x) && KeepsUsed(m1, g1, m2, g2, x)
    ensures KeepsUsed(m0, g0, m2, g2, x)
  {
    forall a | a in g0 && !g0[a].free && a != x ensures Kept(m0, g0, m2, g2, a) {
      assert Kept(m0, g0, m1, g1, a);
      assert Kept(m1, g1, m2, g2, a);
    }
  }

  /** Exempting no block at all covers exempting any one. */
  lemma KeepsMore(mem: seq<int>, g: Shape, mem': seq<int>, g': Shape, end: int, x: int)
    requires Tiled(g, end) && KeepsUsed(mem, g, mem', g', -1)
    ensures KeepsUsed(mem, g, mem', g', x)
  {
    forall a | a in g && !g[a].free && a != x ensures Kept(mem, g, mem', g', a) {
      assert Fits(g, end, a);
    }
  }

  /** A word in the extent of block x is in no other block's payload. */
  lemma OutsidePayload(g: Shape, end: int, a: int, x: int, w: int)
    requires Tiled(g, end) && a in g && x in g
    requires x + 1 <= w <= Next(g, x) && (x != a || w == a + 1)
    ensures !(a + 2 <= w <= Next(g, a))
  {
    if x != a { Separate(g, end, a, x); }
  }

  // ------------------------------------------------------------ single writes

  /** Rewriting one header's flags. */
  lemma HeaderWrite(mem: seq<int>, g: Shape, end: int, a: int, free: bool, prevFree: bool)
    requires Tiled(g, end) && Match(mem, g, end) && a in g
    ensures 0 <= a && a + 1 < |mem|
    ensures Match(mem[a + 1 := Header(g[a].size, free, prevFree)],
      g[a := g[a].(free := free, prevFree := prevFree)], end)
  {
    assert HdrOk(mem, g, a);
    var mem' := mem[a + 1 := Header(g[a].size, free, prevFree)];
    var g' := g[a := g[a].(free := free, prevFree := prevFree)];
    forall b | b in g' ensures HdrOk(mem', g', b) {
      assert HdrOk(mem, g, b);
      if g[b].linked {
        assert Fits(g, end, b) && Fits(g, end, a);
        assert Next(g, b) != a + 1 by {
          if a != end { Interior(g, end, a, a + 1); }
        }
      }
    }
  }

  /** Storing a block's address as its successor's prev_phys_block. */
  lemma LinkWrite(mem: seq<int>, g: Shape, end: int, a: int)
    requires Tiled(g, end) && Match(mem, g, end) && a in g && a != end
    ensures Fits(g, end, a) && 0 <= a && Next(g, a) < |mem|
    ensures Match(mem[Next(g, a) := a], g[a := g[a].(linked := true)], end)
  {
    assert Fits(g, end, a) && Fits(g, end, Next(g, a));
    var mem' := mem[Next(g, a) := a];
    var g' := g[a := g[a].(linked := true)];
    forall b | b in g' ensures HdrOk(mem', g', b) {
      assert HdrOk(mem, g, b);
      Interior(g, end, a, Next(g, a) - 1);
      if b != a && g[b].linked { assert Apart(g, a, b) && Apart(g, b, a); assert Fits(g, end, b); }
    }
  }

  /** A word strictly inside a block, or one of block_null's list words, holds
      no header and no back pointer. */
  lemma InteriorWrite(mem: seq<int>, g: Shape, end: int, x: int, w: int, v: int)
    requires Tiled(g, end) && Match(mem, g, end)
    requires Spot(g, x) && (w == x + 2 || w == x + 3)
    ensures 0 <= w < |mem|
    ensures Match(mem[w := v], g, end)
  {
    if x != NULL {
      assert HdrOk(mem, g, x) && Fits(g, end, x);
      assert x != end ==> Fits(g, end, Next(g, x));
    }
    var mem' := mem[w := v];
    forall b | b in g ensures HdrOk(mem', g, b) {
      assert HdrOk(mem, g, b) && Fits(g, end, b);
      if x != NULL && x != b {
        Separate(g, end, x, b);
      }
    }
  }

  // ------------------------------------------------------ splits and mergers

  /** The words block_split writes, with the raw flags found in the new header. */
  function SplitWords(mem: seq<int>, g: Shape, a: int, size: nat): (mem': seq<int>)
    requires a in g && Next(g, a) in g && size + 1 <= g[a].size
    requires 0 <= a && Next(g, a) + 1 < |mem|
    ensures |mem'| == |mem|
  {
    var r := a + 1 + size;
    var n := Next(g, a);
    mem[r + 1 := Header(g[a].size - size - 1, true, HeaderPrevFree(mem[r + 1]))]
       [a + 1 := Header(size, g[a].free, g[a].prevFree)]
       [n := r]
       [n + 1 := Header(g[n].size, g[n].free, true)]
  }

  lemma SplitMatch(mem: seq<int>, g: Shape, end: int, a: int, size: nat)
    requires Tiled(g, end) && Match(mem, g, end) && a in g && a != end
    requires MIN_SIZE <= size && size + 4 <= g[a].size
    ensures Next(g, a) in g && 0 <= a && Next(g, a) + 1 < |mem|
    ensures Match(SplitWords(mem, g, a, size), SplitShape(g, a, size, HeaderPrevFree(mem[a + 2 + size])), end)
  {
    assert Fits(g, end, a);
    var n := Next(g, a);
    assert HdrOk(mem, g, n) && Fits(g, end, n);
    var r := a + 1 + size;
    var mem' := SplitWords(mem, g, a, size);
    var g' := SplitShape(g, a, size, HeaderPrevFree(mem[a + 2 + size]));
    SplitTiles(g, end, a, size, HeaderPrevFree(mem[a + 2 + size]));
    forall b | b in g' ensures HdrOk(mem', g', b) {
      if b != a && b != r && b != n {
        SplitOther(mem, g, end, a, size, b);
      }
    }
  }

  lemma SplitOther(mem: seq<int>, g: Shape, end: int, a: int, size: nat, b: int)
    requires Tiled(g, end) && Match(mem, g, end) && a in g && a != end && Next(g, a) in g
    requires MIN_SIZE <= size && size + 4 <= g[a].size && 0 <= a && Next(g, a) + 1 < |mem|
    requires b in g && b != a && b != Next(g, a)
    ensures HdrOk(SplitWords(mem, g, a, size), g, b)
  {
    var n := Next(g, a);
    assert HdrOk(mem, g, b) && Fits(g, end, b);
    Separate(g, end, a, b);
    Separate(g, end, n, b);
  }

  /** The words block_absorb writes. */
  function AbsorbWords(mem: seq<int>, g: Shape, a: int): (mem': seq<int>)
    requires a in g && Next(g, a) in g && Next(g, Next(g, a)) in g
    requires 0 <= a && Next(g, Next(g, a)) < |mem|
    ensures |mem'| == |mem|
  {
    var b := Next(g, a);
    mem[a + 1 := Header(g[a].size + g[b].size + 1, g[a].free, g[a].prevFree)][Next(g, b) := a]
  }

  lemma AbsorbMatch(mem: seq<int>, g: Shape, end: int, a: int)
    requires Tiled(g, end) && Match(mem, g, end) && a in g && a != end && Next(g, a) != end
    ensures Next(g, a) in g && Next(g, Next(g, a)) in g && 0 <= a && Next(g, Next(g, a)) < |mem|
    ensures Match(AbsorbWords(mem, g, a), AbsorbShape(g, a), end)
  {
    AbsorbTiles(g, end, a);
    assert Fits(g, end, a);
    var b := Next(g, a);
    var n := Next(g, b);
    assert Fits(g, end, b) && Fits(g, end, n);
    var mem' := AbsorbWords(mem, g, a);
    var g' := AbsorbShape(g, a);
    forall c | c in g' ensures HdrOk(mem', g', c) {
      AbsorbOther(mem, g, end, a, c);
    }
  }

  lemma AbsorbOther(mem: seq<int>, g: Shape, end: int, a: int, c: int)
    requires Tiled(g, end) && Match(mem, g, end) && a in g && a != end && Next(g, a) != end
    requires Next(g, a) in g && Next(g, Next(g, a)) in g && 0 <= a && Next(g, Next(g, a)) < |mem|
    requires c in g && c != Next(g, a)
    ensures HdrOk(AbsorbWords(mem, g, a), AbsorbShape(g, a), c)
  {
    var b := Next(g, a);
    assert HdrOk(mem, g, a) && HdrOk(mem, g, b) && HdrOk(mem, g, c);
    assert Fits(g, end, a) && Fits(g, end, b) && Fits(g, end, c);
    Separate(g, end, b, c);
    if c != a { Separate(g, end, a, c); }
  }
}
