/** tlsf_memalign: aligned allocation with a leading gap returned to the pool. */
module TlsfAlign {
  import opened Wrappers
  import opened Arith
  import opened TlsfBits
  import opened TlsfMapping
  import opened TlsfShape
  import opened TlsfLists
  import opened TlsfMemory
  import opened TlsfPool
  import opened TlsfFreeList
  import opened TlsfBlocks
  import opened TlsfTrim
  import opened Tlsf

  lemma AlignUpUnique(x: nat, align: nat, m: nat)
    requires align > 0 && m % align == 0 && x <= m < x + align
    ensures AlignUp(x, align) == m
  {
    var q := m / align;
    assert m == q * align;
    QuotientBetween(x + align - 1, align, q, q + 1);
  }

  /** Aligning word counts and aligning byte counts is the same thing. */
  lemma AlignUpScale(x: nat, a: nat)
    requires a > 0
    ensures Bytes(a) > 0 && AlignUp(Bytes(x), Bytes(a)) == Bytes(AlignUp(x, a))
  {
    AlignUpBounds(x, a);
    var y := AlignUp(x, a);
    var q := y / a;
    assert y == q * a;
    BytesTimes(q, a);
    DivModUnique(Bytes(y), Bytes(a), q, 0);
    AlignUpUnique(Bytes(x), Bytes(a), Bytes(y));
  }

  lemma BytesTimes(q: nat, a: nat)
    ensures Bytes(q * a) == q * Bytes(a)
  {
    if WORD == 4 {
      assert 4 * (q * a) == q * (4 * a);
    } else {
      assert 8 * (q * a) == q * (8 * a);
    }
  }

  ghost predicate PowerOfTwo(x: nat) {
    exists k: nat :: x == Pow2(k)
  }

  /** The alignment in words; anything up to a word needs no alignment. */
  function Unit(align: nat): nat {
    if align <= WORD then 1 else align / WORD
  }

  lemma UnitOf(align: nat)
    requires PowerOfTwo(align)
    ensures 1 <= Unit(align) && (align > WORD ==> align == Bytes(Unit(align)) && 2 <= Unit(align))
    ensures forall x: nat :: x % Unit(align) == 0 ==> Bytes(x) % align == 0
  {
    var k: nat :| align == Pow2(k);
    if align > WORD {
      SmallPowers();
      var l := if WORD == 4 then 2 else 3;
      assert Pow2(2) == 4 && Pow2(3) == 8;
      if k <= l { Pow2Monotone(k, l); }
      Pow2Add(l, k - l);
      assert align == Bytes(Pow2(k - l));
      BytesAligned(Pow2(k - l));
      assert Pow2(k - l) == 2 * Pow2(k - l - 1);
      var u := Unit(align);
      forall x: nat | x % u == 0 ensures Bytes(x) % align == 0 {
        var q := x / u;
        assert x == q * u;
        BytesTimes(q, u);
        DivModUnique(Bytes(x), align, q, 0);
      }
    } else {
      SmallUnit(align, k);
      forall x: nat ensures Bytes(x) % align == 0 {
        SmallMultiple(x, align);
      }
    }
  }

  lemma SmallUnit(align: nat, k: nat)
    requires align == Pow2(k) && align <= WORD
    ensures align == 1 || align == 2 || align == 4 || (align == 8 && WORD == 8)
  {
    assert Pow2(4) == 16;
    if k >= 4 {
      Pow2Monotone(4, k);
    }
  }

  lemma SmallMultiple(x: nat, align: nat)
    requires align == 1 || align == 2 || align == 4 || (align == 8 && WORD == 8)
    ensures Bytes(x) % align == 0
  {
  }

  /** Words between the payload at word x and the place the request will use:
      none, or enough for a block of its own. */
  method AlignmentGap(x: nat, a: nat) returns (gap: nat)
    requires 1 <= a
    ensures (x + gap) % a == 0 && (gap == 0 || 4 <= gap <= a + 3) && (a == 1 ==> gap == 0)
  {
    var gapMinimum := 4;
    AlignUpBounds(x, a);
    var aligned := AlignUp(x, a);
    gap := aligned - x;
    if gap != 0 && gap < gapMinimum {
      var gapRemain := gapMinimum - gap;
      var offset := if gapRemain > a then gapRemain else a;
      AlignUpBounds(aligned + offset, a);
      NextAligned(aligned, offset, a);
      aligned := AlignUp(aligned + offset, a);
      gap := aligned - x;
    }
  }

  lemma NextAligned(aligned: nat, offset: nat, a: nat)
    requires 1 <= a && aligned % a == 0 && a <= offset
    ensures offset == a ==> AlignUp(aligned + offset, a) == aligned + a
  {
    if offset == a {
      var q := aligned / a;
      assert aligned == q * a;
      MulDistrib(q, 1, a);
      DivModUnique(aligned + a, a, q + 1, 0);
      AlignUpUnique(aligned + a, a, aligned + a);
    }
  }

  /** The size searched for: with room for a gap unless words suffice. */
  function MemalignRequest(align: nat, size: nat): nat
    requires align > 0
  {
    if align <= WORD then AdjustRequestSize(size, WORD)
    else AdjustRequestSize(AdjustRequestSize(size, WORD) + align + Bytes(4), align)
  }

  /** The searched size in words, and the room it leaves beyond the gap. */
  lemma MemalignWords(align: nat, size: nat) returns (n: nat)
    requires PowerOfTwo(align) && (align > WORD ==> 0 < size < BLOCK_SIZE_MAX)
    ensures Bytes(n) == MemalignRequest(align, size)
    ensures align <= WORD ==> n == RequestWords(size)
    ensures align > WORD && n != 0 ==> n >= RequestWords(size) + Unit(align) + 4
  {
    UnitOf(align);
    if align <= WORD {
      n := RequestWords(size);
    } else {
      var x := RequestWords(size) + Unit(align) + 4;
      assert AdjustRequestSize(size, WORD) + align + Bytes(4) == Bytes(x);
      if Bytes(x) < BLOCK_SIZE_MAX {
        AlignUpScale(x, Unit(align));
        AlignUpBounds(x, Unit(align));
        n := AlignUp(x, Unit(align));
      } else {
        n := 0;
      }
    }
  }

  /** tlsf_memalign. The gap before the aligned payload is always large enough
      to be split off, and what remains always holds the request. */
  method Memalign(p: Pool, align: nat, size: nat) returns (r: Option<int>)
    requires p.Valid() && PowerOfTwo(align) && (align > WORD ==> 0 < size < BLOCK_SIZE_MAX)
    requires align > 0 && MemalignRequest(align, size) <= SEARCH_LIMIT
    modifies p`mem, p`heads, p`slBitmap, p`flBitmap, p`g, p`clock
    ensures p.Valid()
    ensures var c := MappingSearch(MemalignRequest(align, size));
            r.None? <==> MemalignRequest(align, size) == 0 || !Available(old(p.g), c.0, c.1)
    ensures r.None? ==> p.mem == old(p.mem) && p.g == old(p.g)
    ensures r.Some? ==>
              && r.value - 2 in p.g && size <= Bytes(p.g[r.value - 2].size)
              && p.g[r.value - 2].size < RequestWords(size) + 4
              && 0 <= r.value && Bytes(p.base + r.value) % align == 0
              && Allocated(old(p.mem), old(p.g), p.mem, p.g, p.end, r.value - 2)
  {
    hide HeaderFree, Fls, Allocated, Available, LowestFit, Flags, ListsOk;
    UnitOf(align);
    var adjust := RequestWords(size);
    ghost var n := MemalignWords(align, size);
    BytesAligned(n);
    var alignedSize := MemalignRequest(align, size) / WORD;
    ghost var m0, g0 := p.mem, p.g;
    var b := BlockLocateFree(p, alignedSize);
    r := None;
    if b.Some? {
      p.Reads(b.value);
      var gap := AlignmentGap(p.base + b.value + 2, Unit(align));
      var ptr := PlaceAligned(p, b.value, gap, adjust, m0, g0);
      r := Some(ptr);
    }
  }

  /** Give back the gap, then trim and mark the rest. */
  method PlaceAligned(p: Pool, a: int, gap: nat, size: nat, ghost m0: seq<int>, ghost g0: Shape) returns (ptr: int)
    requires Taken(p, a) && !p.g[a].prevFree && MIN_SIZE <= size
    requires gap == 0 || (4 <= gap && gap + 4 <= p.g[a].size)
    requires size + gap <= p.g[a].size
    requires Tiled(g0, p.end) && a in g0 && p.g == Unlisted(g0, a) && Preserves(m0, g0, p.mem, p.g, -1)
    modifies p`mem, p`heads, p`slBitmap, p`flBitmap, p`g, p`clock
    ensures p.Valid() && ptr == a + gap + 2 && ptr - 2 in p.g && size <= p.g[ptr - 2].size < size + 4
    ensures Allocated(m0, g0, p.mem, p.g, p.end, ptr - 2)
  {
    ghost var m1, g1 := p.mem, p.g;
    var b := a;
    if gap != 0 {
      b := BlockTrimFreeLeading(p, a, gap);
    } else {
      forall x | x in g1 && !g1[x].free && x != -1 ensures Kept(m1, g1, p.mem, p.g, x) { }
    }
    ghost var m2, g2 := p.mem, p.g;
    PreservesTrans(m0, g0, m1, g1, m2, g2, -1);
    assert Fits(g2, p.end, b);
    WasFree(m0, g0, m2, g2, p.end, b);
    ptr := BlockPrepareUsed(p, b, size);
    PreservesMore(m0, g0, m2, g2, p.end, b);
    PreservesTrans(m0, g0, m2, g2, p.mem, p.g, b);
    AllocatedFrom(m0, g0, p.mem, p.g, p.end, b);
  }

  /** A free block cannot have been a used one when every used one was kept. */
  lemma WasFree(mem: seq<int>, g: Shape, mem': seq<int>, g': Shape, end: int, b: int)
    requires Tiled(g, end) && KeepsUsed(mem, g, mem', g', -1) && b in g' && g'[b].free
    ensures b in g ==> g[b].free
  {
    if b in g {
      assert Fits(g, end, b);
      assert !g[b].free ==> Kept(mem, g, mem', g', b);
    }
  }
}
