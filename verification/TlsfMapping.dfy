/** TLSF size classes: the two-level index a free block of a given size is
    filed under (mapping_insert) and the index a request starts searching from
    (mapping_search). Everything is proved for both builds of the allocator,
    4-byte and 8-byte words. */
module TlsfMapping {
  import opened Arith
  import opened TlsfBits

  type WordSize = n: nat | n == 4 || n == 8 witness 8

  /** sizeof(size_t) of the build; left open so that every result below holds
      for the 32-bit and the 64-bit build. */
  const WORD: WordSize

  const SL_INDEX_COUNT_LOG2: nat := 5
  const SL_INDEX_COUNT: nat := 32
  const ALIGN_SIZE_LOG2: nat := if WORD == 4 then 2 else 3
  const FL_INDEX_MAX: nat := if WORD == 4 then 30 else 32
  const FL_INDEX_SHIFT: nat := SL_INDEX_COUNT_LOG2 + ALIGN_SIZE_LOG2
  const FL_INDEX_COUNT: nat := FL_INDEX_MAX - FL_INDEX_SHIFT + 1
  const SMALL_BLOCK_SIZE: nat := if WORD == 4 then 128 else 256
  const BLOCK_SIZE_MAX: nat := if WORD == 4 then 0x4000_0000 else 0x1_0000_0000

  /** n words in bytes. */
  function Bytes(n: nat): (b: nat) {
    if WORD == 4 then 4 * n else 8 * n
  }

  lemma BlockSizeMaxIsPower()
    ensures BLOCK_SIZE_MAX == Pow2(FL_INDEX_MAX)
  {
    SmallPowers();
    assert Pow2(32) == 4 * Pow2(30);
  }

  function MappingInsert(size: nat): (c: (int, int)) {
    if size < SMALL_BLOCK_SIZE then
      (0, size / (SMALL_BLOCK_SIZE / SL_INDEX_COUNT))
    else
      SmallFls(size);
      var fl := Fls(size);
      var v := size / Pow2(fl - SL_INDEX_COUNT_LOG2);
      (fl - (FL_INDEX_SHIFT - 1), if (v / 32) % 2 == 1 then v - 32 else v + 32)
  }

  /** The size mapping_search looks up: rounded up to the next class boundary. */
  function RoundUp(size: nat): nat {
    if size >= 32 then
      Fls32(size);
      size + Pow2(Fls(size) - SL_INDEX_COUNT_LOG2) - 1
    else
      size
  }

  function MappingSearch(size: nat): (c: (int, int)) {
    MappingInsert(RoundUp(size))
  }

  /** Position of a class in the order the search visits classes. */
  function ClassOrder(c: (int, int)): int {
    c.0 * SL_INDEX_COUNT + c.1
  }

  lemma Fls32(size: nat)
    requires size >= 32
    ensures Fls(size) >= 5
  {
    FlsMonotone(32, size);
  }

  lemma SmallFls(size: nat)
    requires size >= SMALL_BLOCK_SIZE
    ensures Fls(size) >= FL_INDEX_SHIFT
  {
    FlsMonotone(SMALL_BLOCK_SIZE, size);
    assert Fls(128) == 7 && Fls(256) == 8;
  }

  lemma FivePlaces(k: nat)
    ensures Pow2(k + 5) == 32 * Pow2(k) && Pow2(k + 6) == 64 * Pow2(k)
  {
    assert Pow2(k + 6) == 2 * Pow2(k + 5) && Pow2(k + 5) == 2 * Pow2(k + 4);
    assert Pow2(k + 4) == 2 * Pow2(k + 3) && Pow2(k + 3) == 2 * Pow2(k + 2);
    assert Pow2(k + 2) == 2 * Pow2(k + 1);
  }

  /** A large size is filed under its highest bit and the next five bits. */
  lemma LargeClass(size: nat)
    requires size >= SMALL_BLOCK_SIZE
    ensures Fls(size) >= FL_INDEX_SHIFT
    ensures var g := Pow2(Fls(size) - 5);
            && 32 * g <= size < 64 * g
            && 32 <= size / g < 64
            && MappingInsert(size) == (Fls(size) - (FL_INDEX_SHIFT - 1), size / g - 32)
  {
    hide Fls, Pow2;
    SmallFls(size);
    FlsBounds(size);
    var g := Pow2(Fls(size) - 5);
    FivePlaces(Fls(size) - 5);
    QuotientBetween(size, g, 32, 64);
  }

  /** mapping_insert stays inside the two-level table exactly for the sizes
      below block_size_max. */
  lemma MappingInsertInRange(size: nat)
    ensures 0 <= MappingInsert(size).0 && 0 <= MappingInsert(size).1 < SL_INDEX_COUNT
    ensures MappingInsert(size).0 < FL_INDEX_COUNT <==> size < BLOCK_SIZE_MAX
  {
    BlockSizeMaxIsPower();
    if size >= SMALL_BLOCK_SIZE {
      LargeClass(size);
      FlsBounds(size);
      if size < BLOCK_SIZE_MAX {
        if Fls(size) >= FL_INDEX_MAX { Pow2Monotone(FL_INDEX_MAX, Fls(size)); }
      } else {
        if Fls(size) < FL_INDEX_MAX { Pow2Monotone(Fls(size) + 1, FL_INDEX_MAX); }
      }
    }
  }

  /** tlsf_create accepts a pool of exactly block_size_max bytes, but the class
      of its first block lies one row past the table. */
  lemma LargestAcceptedPoolIsOutOfRange()
    ensures MappingInsert(BLOCK_SIZE_MAX) == (FL_INDEX_COUNT, 0)
  {
    BlockSizeMaxIsPower();
    FlsUnique(BLOCK_SIZE_MAX, FL_INDEX_MAX);
    LargeClass(BLOCK_SIZE_MAX);
    Pow2Add(FL_INDEX_MAX - 5, 5);
    var g := Pow2(FL_INDEX_MAX - 5);
    assert BLOCK_SIZE_MAX == 32 * g;
    assert (32 * g) / g == 32;
  }

  /** The search index of a request is inside the table exactly up to the
      largest size whose rounding stays below block_size_max. adjust_request_size
      lets every size below block_size_max through, so requests above this
      limit make mapping_search name a row past the table. */
  const SEARCH_LIMIT: nat := BLOCK_SIZE_MAX - BLOCK_SIZE_MAX / 64

  lemma MappingSearchInRange(size: nat)
    ensures 0 <= MappingSearch(size).0 && 0 <= MappingSearch(size).1 < SL_INDEX_COUNT
    ensures MappingSearch(size).0 < FL_INDEX_COUNT <==> size <= SEARCH_LIMIT
  {
    MappingInsertInRange(RoundUp(size));
    if size >= 32 {
      Fls32(size);
      FlsBounds(size);
      SearchLimitIsPower();
      RoundUpLimit(size, Fls(size), FL_INDEX_MAX);
    }
  }

  lemma SearchLimitIsPower()
    ensures BLOCK_SIZE_MAX == Pow2(FL_INDEX_MAX) && SEARCH_LIMIT == Pow2(FL_INDEX_MAX) - Pow2(FL_INDEX_MAX - 6)
  {
    BlockSizeMaxIsPower();
    SmallPowers();
    assert WORD == 4 ==> 64 * Pow2(24) == Pow2(30);
    assert WORD == 8 ==> 64 * Pow2(26) == Pow2(32);
  }

  /** Rounding up stays below 2^top exactly when size <= 2^top - 2^(top - 6). */
  lemma RoundUpLimit(size: nat, k: nat, top: nat)
    requires 5 <= k && 7 <= top && Pow2(k) <= size < 2 * Pow2(k)
    ensures size + Pow2(k - 5) - 1 < Pow2(top) <==> size <= Pow2(top) - Pow2(top - 6)
  {
    Pow2Add(top - 6, 6);
    Pow2Add(k - 5, 5);
    assert Pow2(5) == 32 && Pow2(6) == 64;
    if k < top - 1 {
      Pow2Monotone(k - 5, top - 7);
    } else if k >= top {
      Pow2Monotone(top, k);
    }
  }

  lemma MappingMonotone(x: nat, y: nat)
    requires x <= y
    ensures ClassOrder(MappingInsert(x)) <= ClassOrder(MappingInsert(y))
  {
    if y < SMALL_BLOCK_SIZE {
      QuotientMonotone(x, y, WORD);
    } else if x < SMALL_BLOCK_SIZE {
      LargeClass(y);
    } else {
      LargeClass(x);
      LargeClass(y);
      FlsMonotone(x, y);
      if Fls(x) == Fls(y) {
        QuotientMonotone(x, y, Pow2(Fls(x) - 5));
      }
    }
  }

  /** Good fit: every block filed at or above the class a request is searched
      from is large enough for the request, so no list is ever scanned. */
  lemma GoodFit(request: nat, size: nat)
    requires request % WORD == 0 && size % WORD == 0
    requires ClassOrder(MappingSearch(request)) <= ClassOrder(MappingInsert(size))
    ensures request <= size
  {
    if size < request {
      if request < SMALL_BLOCK_SIZE {
        SmallRequest(request, size);
      } else {
        LargeRequest(request, size);
      }
    }
  }

  lemma GoodFitWords(request: nat, size: nat)
    requires ClassOrder(MappingSearch(Bytes(request))) <= ClassOrder(MappingInsert(Bytes(size)))
    ensures request <= size
  {
    BytesAligned(request);
    BytesAligned(size);
    GoodFit(Bytes(request), Bytes(size));
  }

  lemma BytesAligned(n: nat)
    ensures Bytes(n) % WORD == 0 && Bytes(n) / WORD == n
  {
    if WORD == 4 { } else { }
  }

  lemma SmallRequest(request: nat, size: nat)
    requires request % WORD == 0 && size % WORD == 0
    requires size < request < SMALL_BLOCK_SIZE
    ensures ClassOrder(MappingInsert(size)) < ClassOrder(MappingSearch(request))
  {
    assert size / WORD < request / WORD;
    assert request <= RoundUp(request) by {
      if request >= 32 { Fls32(request); }
    }
    MappingMonotone(request, RoundUp(request));
  }

  lemma LargeRequest(request: nat, size: nat)
    requires SMALL_BLOCK_SIZE <= request && size < request
    ensures ClassOrder(MappingInsert(size)) < ClassOrder(MappingSearch(request))
  {
    LargeClass(request);
    var k := Fls(request);
    var g := Pow2(k - 5);
    var r := RoundUp(request);
    assert r == request + g - 1;
    LargeClass(r);
    FlsMonotone(request, r);
    if size >= SMALL_BLOCK_SIZE {
      LargeClass(size);
      FlsMonotone(size, request);
      if Fls(r) == k && Fls(size) == k {
        RoundedQuotient(size, request, g);
      }
    }
  }

  lemma RoundedQuotient(size: nat, request: nat, g: nat)
    requires g > 0 && size < request
    ensures size / g < (request + g - 1) / g
  {
    DivBounds(size, g);
    var q := size / g;
    MulDistrib(q, 1, g);
    DivBounds(request + g - 1, g);
    var p := (request + g - 1) / g;
    MulDistrib(p, 1, g);
    assert q * g + g < p * g + g;
    MulCancelLess(q, p, g);
  }
}
