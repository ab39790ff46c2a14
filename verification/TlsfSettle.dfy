/** How each block operation moves the pool between rest and the state where
    one block is still to be filed: flags stay right and free neighbours
    always end up coalesced. */
module TlsfSettle {
  import opened TlsfShape
  import opened TlsfLists
  import opened TlsfPool
  import opened TlsfBlocks

  /** Both physical neighbours of block a are used. */
  ghost predicate Alone(g: Shape, a: int)
    requires a in g
  {
    !g[a].prevFree && Next(g, a) in g && !g[Next(g, a)].free
  }

  lemma NextIs(g: Shape, end: int, a: int, b: int)
    requires Tiled(g, end) && a in g && b in g && a != end && b != end && a != b
    ensures Next(g, a) != Next(g, b)
  {
    assert Fits(g, end, a) && Fits(g, end, b);
  }

  lemma MarkFreeSettles(g: Shape, end: int, a: int)
    requires Tiled(g, end) && SettledExcept(g, end, -1) && a in g && a != end && !g[a].free
    ensures Next(g, a) in g && SettledExcept(MarkedFree(g, a), end, a)
  {
    assert Fits(g, end, a);
    var g' := MarkedFree(g, a);
    forall b | b in g' ensures FlagOk(g', end, b) {
      assert FlagOk(g, end, b) && Fits(g, end, b);
    }
    assert QuietAt(g, a, -1);
    forall b | b in g' && b != a ensures QuietAt(g', b, a) {
      assert Fits(g, end, b) && QuietAt(g, b, -1);
      assert FlagOk(g, end, b) && FlagOk(g, end, a);
    }
  }

  lemma MarkUsedSettles(g: Shape, end: int, a: int)
    requires Tiled(g, end) && SettledExcept(g, end, a) && a in g && a != end && g[a].free
    ensures Next(g, a) in g && SettledExcept(MarkedUsed(g, a), end, -1)
  {
    assert Fits(g, end, a);
    var g' := MarkedUsed(g, a);
    assert -1 in g ==> Fits(g, end, -1);
    forall b | b in g' ensures FlagOk(g', end, b) {
      assert FlagOk(g, end, b) && Fits(g, end, b);
    }
    forall b | b in g' ensures QuietAt(g', b, -1) {
      if b != a {
        assert QuietAt(g, b, a) && Fits(g, end, b);
        assert FlagOk(g, end, b);
      }
    }
  }

  lemma InsertSettles(g: Shape, end: int, a: int, clock: nat)
    requires Tiled(g, end) && SettledExcept(g, end, a) && a in g && a != end && g[a].free && Alone(g, a)
    ensures SettledExcept(Inserted(g, a, clock), end, -1)
  {
    var g' := Inserted(g, a, clock);
    assert -1 in g ==> Fits(g, end, -1);
    forall b | b in g' ensures FlagOk(g', end, b) {
      assert FlagOk(g, end, b) && Fits(g, end, b);
    }
    forall b | b in g' ensures QuietAt(g', b, -1) {
      assert Fits(g, end, b) && FlagOk(g, end, b) && Fits(g, end, a) && FlagOk(g, end, a);
      if b != a {
        assert QuietAt(g, b, a);
      }
    }
  }

  /** The neighbours of the still unfiled block are what their flags say. */
  lemma MergePrevSettles(g: Shape, end: int, a: int)
    requires Tiled(g, end) && SettledExcept(g, end, a) && a in g && a != end && g[a].free && g[a].prevFree
    ensures g[a].prev in g && g[g[a].prev].listed && Next(g, g[a].prev) == a && Next(g, a) in g
    ensures var b := g[a].prev;
            var g' := AbsorbShape(Unlisted(g, b), b);
            SettledExcept(g', end, b) && b in g' && g'[b].free && !g'[b].prevFree
  {
    assert FlagOk(g, end, a) && Fits(g, end, a);
    var b := g[a].prev;
    assert QuietAt(g, b, a) && FlagOk(g, end, b) && Fits(g, end, b);
    if b != FIRST {
      assert QuietAt(g, g[b].prev, a);
    }
    AbsorbSettles(g, end, b, a);
  }

  lemma MergeNextSettles(g: Shape, end: int, a: int)
    requires Tiled(g, end) && SettledExcept(g, end, a) && a in g && a != end && g[a].free
    requires Next(g, a) in g && g[Next(g, a)].free
    ensures Next(g, a) != end && Next(g, Next(g, a)) in g && g[Next(g, a)].listed
    ensures var g' := AbsorbShape(Unlisted(g, Next(g, a)), a);
            && SettledExcept(g', end, a) && a in g' && g'[a].free && g'[a].prevFree == g[a].prevFree
            && Next(g', a) in g' && !g'[Next(g', a)].free
  {
    var b := Next(g, a);
    assert FlagOk(g, end, b) && Fits(g, end, b) && Fits(g, end, a);
    assert QuietAt(g, b, a);
    AbsorbSettles(g, end, a, a);
  }

  /** Block a absorbs its free successor; one of the two was the unfiled one. */
  lemma AbsorbSettles(g: Shape, end: int, a: int, x: int)
    requires Tiled(g, end) && SettledExcept(g, end, x) && a in g && a != end && g[a].free
    requires Next(g, a) in g && Next(g, a) != end && g[Next(g, a)].free && Next(g, Next(g, a)) in g
    requires x == a || x == Next(g, a)
    ensures var y := if x == a then Next(g, a) else a;
            SettledExcept(AbsorbShape(Unlisted(g, y), a), end, a)
  {
    var b := Next(g, a);
    var y := if x == a then b else a;
    var h := Unlisted(g, y);
    assert AbsorbShape(h, a)[a].listed == false;
    forall c | c in AbsorbShape(h, a) ensures FlagOk(AbsorbShape(h, a), end, c) {
      AbsorbFlag(g, end, a, x, c);
    }
    forall c | c in AbsorbShape(h, a) && c != a ensures QuietAt(AbsorbShape(h, a), c, a) {
      AbsorbQuiet(g, end, a, x, c);
    }
  }

  lemma AbsorbFlag(g: Shape, end: int, a: int, x: int, c: int)
    requires Tiled(g, end) && SettledExcept(g, end, x) && a in g && a != end && g[a].free
    requires Next(g, a) in g && Next(g, a) != end && g[Next(g, a)].free && Next(g, Next(g, a)) in g
    requires x == a || x == Next(g, a)
    requires c in g && c != Next(g, a)
    ensures FlagOk(AbsorbShape(Unlisted(g, if x == a then Next(g, a) else a), a), end, c)
  {
    assert FlagOk(g, end, c) && Fits(g, end, c) && Fits(g, end, a) && Fits(g, end, Next(g, a));
    assert FlagOk(g, end, a);
  }

  lemma AbsorbQuiet(g: Shape, end: int, a: int, x: int, c: int)
    requires Tiled(g, end) && SettledExcept(g, end, x) && a in g && a != end && g[a].free
    requires Next(g, a) in g && Next(g, a) != end && g[Next(g, a)].free && Next(g, Next(g, a)) in g
    requires x == a || x == Next(g, a)
    requires c in g && c != Next(g, a) && c != a
    ensures QuietAt(AbsorbShape(Unlisted(g, if x == a then Next(g, a) else a), a), c, a)
  {
    assert QuietAt(g, c, x) && FlagOk(g, end, c) && Fits(g, end, c) && Fits(g, end, a);
    if c != end {
      NextIs(g, end, a, c);
    }
  }

  // --------------------------------------------------------------- trimming

  /** block a, free and unfiled, after its tail r has been cut off and flagged. */
  function TrimmedFree(g: Shape, a: int, size: nat): Shape
    requires a in g && Next(g, a) in g && size + 1 <= g[a].size
  {
    var h := SplitShape(g, a, size, true);
    h[a := h[a].(linked := true)]
  }

  lemma TrimFreeFlags(g: Shape, end: int, a: int, size: nat)
    requires Tiled(g, end) && SettledExcept(g, end, a) && a in g && a != end && g[a].free
    requires MIN_SIZE <= size && size + 4 <= g[a].size
    ensures Next(g, a) in g && Flags(TrimmedFree(g, a, size), end)
  {
    SplitTiles(g, end, a, size, true);
    var g' := TrimmedFree(g, a, size);
    forall b | b in g' ensures FlagOk(g', end, b) {
      assert FlagOk(g, end, a) && Fits(g, end, a);
      if b in g {
        assert FlagOk(g, end, b) && Fits(g, end, b);
      }
    }
  }

  /** Either part may then be filed while the other stays unfiled. */
  lemma TrimFreeSettles(g: Shape, end: int, a: int, size: nat, clock: nat, filed: int, r: int)
    requires r == a + 1 + size
    requires Tiled(g, end) && SettledExcept(g, end, a) && a in g && a != end && g[a].free
    requires Next(g, a) in g && !g[Next(g, a)].free
    requires MIN_SIZE <= size && size + 4 <= g[a].size
    requires (filed == a && !g[a].prevFree) || filed == r
    ensures Next(g, a) in g && r in TrimmedFree(g, a, size)
    ensures var other := if filed == a then r else a;
            SettledExcept(Inserted(TrimmedFree(g, a, size), filed, clock), end, other)
  {
    SplitTiles(g, end, a, size, true);
    TrimFreeFlags(g, end, a, size);
    var other := if filed == a then r else a;
    var h := TrimmedFree(g, a, size);
    var g' := Inserted(h, filed, clock);
    forall b | b in g' ensures FlagOk(g', end, b) {
      assert FlagOk(h, end, b);
    }
    forall b | b in g' && b != other ensures QuietAt(g', b, other) {
      if b in g && b != a {
        assert QuietAt(g, b, a) && Fits(g, end, b) && Fits(g, end, a) && FlagOk(g, end, a);
        if b != end { NextIs(g, end, a, b); }
      }
    }
  }

  /** The cut-off tail keeps the old successor. */
  lemma TailOf(g: Shape, end: int, a: int, size: nat, clock: nat, r: int)
    requires r == a + 1 + size
    requires Tiled(g, end) && a in g && a != end && Next(g, a) in g && !g[Next(g, a)].free
    requires MIN_SIZE <= size && size + 4 <= g[a].size
    ensures var h := Inserted(TrimmedFree(g, a, size), a, clock);
            && r in h && r != end && h[r].free && h[r].size == g[a].size - size - 1
            && Next(h, r) == Next(g, a) && Next(h, r) in h && !h[Next(h, r)].free
  {
    assert Fits(g, end, a) && Fits(g, end, Next(g, a));
  }

  /** block a, used, after its tail has been cut off and flagged. */
  lemma TrimUsedSettles(g: Shape, end: int, a: int, size: nat)
    requires Tiled(g, end) && SettledExcept(g, end, -1) && a in g && a != end && !g[a].free
    requires MIN_SIZE <= size && size + 4 <= g[a].size
    ensures Next(g, a) in g
    ensures SettledExcept(SplitShape(g, a, size, false), end, a + 1 + size)
  {
    SplitTiles(g, end, a, size, false);
    var r := a + 1 + size;
    var g' := SplitShape(g, a, size, false);
    assert Fits(g, end, a) && QuietAt(g, a, -1);
    forall b | b in g' ensures FlagOk(g', end, b) {
      assert FlagOk(g, end, a) && Fits(g, end, a);
      if b in g {
        assert FlagOk(g, end, b) && Fits(g, end, b);
      }
    }
    forall b | b in g' && b != r ensures QuietAt(g', b, r) {
      assert Fits(g, end, b) && QuietAt(g, b, -1) && Fits(g, end, a) && FlagOk(g, end, b);
      if b != a && b != end { NextIs(g, end, a, b); }
    }
  }

  /** A used block takes over its free successor and is marked used again. */
  function Expanded(g: Shape, a: int): Shape
    requires a in g && Next(g, a) in g && Next(g, Next(g, a)) in g
  {
    var h := AbsorbShape(Unlisted(g, Next(g, a)), a);
    MarkedUsed(h, a)
  }

  lemma ExpandSettles(g: Shape, end: int, a: int)
    requires Tiled(g, end) && SettledExcept(g, end, -1) && a in g && a != end && !g[a].free
    requires Next(g, a) in g && g[Next(g, a)].free
    ensures Next(g, a) != end && Next(g, Next(g, a)) in g && SettledExcept(Expanded(g, a), end, -1)
  {
    var b := Next(g, a);
    assert FlagOk(g, end, b) && Fits(g, end, b) && Fits(g, end, a) && FlagOk(g, end, a);
    assert QuietAt(g, b, -1) && QuietAt(g, a, -1);
    forall c | c in Expanded(g, a) ensures FlagOk(Expanded(g, a), end, c) && QuietAt(Expanded(g, a), c, -1) {
      ExpandAt(g, end, a, c);
    }
  }

  lemma ExpandAt(g: Shape, end: int, a: int, c: int)
    requires Tiled(g, end) && SettledExcept(g, end, -1) && a in g && a != end && !g[a].free
    requires Next(g, a) in g && g[Next(g, a)].free && Next(g, a) != end && Next(g, Next(g, a)) in g
    requires c in g && c != Next(g, a)
    ensures FlagOk(Expanded(g, a), end, c) && QuietAt(Expanded(g, a), c, -1)
  {
    var b := Next(g, a);
    var n := Next(g, b);
    assert Fits(g, end, a) && Fits(g, end, b) && Fits(g, end, c);
    assert FlagOk(g, end, c) && QuietAt(g, c, -1) && QuietAt(g, b, -1) && QuietAt(g, a, -1) && FlagOk(g, end, a);
    if c != a && c != end { NextIs(g, end, a, c); }
  }
}
