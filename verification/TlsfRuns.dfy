/** What holds of a TLSF pool at rest, and over whole runs of requests. */
module TlsfRuns {
  import opened Wrappers
  import opened Arith
  import opened TlsfBits
  import opened TlsfMapping
  import opened TlsfShape
  import opened TlsfLists
  import opened TlsfSteps
  import opened TlsfPool
  import opened Tlsf
  import opened TlsfAlign
  import opened TlsfRealloc

  // ------------------------------------------------------------------ tiling

  /** The blocks from a up to the sentinel, in address order. */
  ghost function Walk(g: Shape, end: int, a: int): seq<int>
    requires Tiled(g, end) && a in g
    decreases end - a
  {
    assert Fits(g, end, a);
    if a == end then []
    else
      assert Fits(g, end, Next(g, a));
      [a] + Walk(g, end, Next(g, a))
  }

  /** Header plus payload words of the listed blocks. */
  ghost function SumWords(g: Shape, bs: seq<int>): int
    requires forall i :: 0 <= i < |bs| ==> bs[i] in g
  {
    if bs == [] then 0 else 1 + g[bs[0]].size + SumWords(g, bs[1..])
  }

  /** Headers and payloads add up to the whole pool, whatever has been
      allocated, freed or merged. */
  lemma {:induction false} WalkConserves(g: Shape, end: int, a: int)
    requires Tiled(g, end) && a in g
    ensures forall i :: 0 <= i < |Walk(g, end, a)| ==> Walk(g, end, a)[i] in g
    ensures SumWords(g, Walk(g, end, a)) == end - a
    decreases end - a
  {
    assert Fits(g, end, a);
    if a != end {
      assert Fits(g, end, Next(g, a));
      WalkConserves(g, end, Next(g, a));
      assert Walk(g, end, a)[1..] == Walk(g, end, Next(g, a));
    }
  }

  /** The walk meets every block, and in strictly increasing address order. */
  lemma {:induction false} WalkCovers(g: Shape, end: int, a: int)
    requires Tiled(g, end) && a in g
    ensures forall b :: b in g && a <= b && b != end ==> b in Walk(g, end, a)
    ensures Ascending(Walk(g, end, a))
    ensures forall b :: b in Walk(g, end, a) ==> a <= b
    decreases end - a
  {
    forall b | b in g ensures b <= end {
      assert Fits(g, end, b);
    }
    if a != end {
      assert Fits(g, end, a);
      var n := Next(g, a);
      assert Fits(g, end, n);
      WalkCovers(g, end, n);
      AscendingCons(a, Walk(g, end, n));
      forall b | b in g && a <= b && b != end ensures b in Walk(g, end, a) {
        if b != a { Separate(g, end, a, b); }
      }
    }
  }

  ghost predicate Ascending(s: seq<int>) {
    forall i, j :: 0 <= i < j < |s| ==> s[i] < s[j]
  }

  lemma AscendingCons(a: int, s: seq<int>)
    requires Ascending(s) && forall b :: b in s ==> a < b
    ensures Ascending([a] + s)
  {
    var t := [a] + s;
    forall i, j | 0 <= i < j < |t| ensures t[i] < t[j] {
      assert t[j] == s[j - 1] && s[j - 1] in s;
      assert i > 0 ==> t[i] == s[i - 1];
    }
  }

  // -------------------------------------------------------------- free lists

  /** The blocks reached from a along next_free. */
  ghost function ListFrom(mem: seq<int>, heads: Heads, g: Shape, clock: nat, a: int): seq<int>
    requires ListsOk(mem, heads, g, clock) && (a == NULL || (a in g && g[a].listed))
    decreases if a == NULL then 0 else g[a].rank + 1
  {
    if a == NULL then []
    else
      assert NodeOk(mem, heads, g, clock, a);
      [a] + ListFrom(mem, heads, g, clock, mem[a + 2])
  }

  ghost predicate Distinct(s: seq<int>) {
    forall i, j :: 0 <= i < j < |s| ==> s[i] != s[j]
  }

  lemma DistinctCons(a: int, s: seq<int>)
    requires Distinct(s) && a !in s
    ensures Distinct([a] + s)
  {
    var t := [a] + s;
    forall i, j | 0 <= i < j < |t| ensures t[i] != t[j] {
      assert t[j] == s[j - 1];
      assert i > 0 ==> t[i] == s[i - 1];
    }
  }

  lemma {:induction false} ListIsSound(mem: seq<int>, heads: Heads, g: Shape, clock: nat, a: int)
    requires ListsOk(mem, heads, g, clock) && (a == NULL || (a in g && g[a].listed))
    ensures forall b :: b in ListFrom(mem, heads, g, clock, a) ==> a != NULL && Peer(g, a, b) && g[b].rank <= g[a].rank
    ensures Distinct(ListFrom(mem, heads, g, clock, a))
    decreases if a == NULL then 0 else g[a].rank + 1
  {
    if a != NULL {
      assert NodeOk(mem, heads, g, clock, a);
      ListIsSound(mem, heads, g, clock, mem[a + 2]);
      DistinctCons(a, ListFrom(mem, heads, g, clock, mem[a + 2]));
    }
  }

  /** A list is its first block and the list from there on. */
  lemma ListUnfold(mem: seq<int>, heads: Heads, g: Shape, clock: nat, a: int)
    requires ListsOk(mem, heads, g, clock) && a in g && g[a].listed && a != NULL
    ensures 0 <= a && a + 2 < |mem|
    ensures mem[a + 2] == NULL || (mem[a + 2] in g && g[mem[a + 2]].listed)
    ensures ListFrom(mem, heads, g, clock, a) == [a] + ListFrom(mem, heads, g, clock, mem[a + 2])
  {
    hide HeadOk, Class;
    assert NodeOk(mem, heads, g, clock, a);
  }

  lemma ListStarts(mem: seq<int>, heads: Heads, g: Shape, clock: nat, a: int)
    requires ListsOk(mem, heads, g, clock) && (a == NULL || (a in g && g[a].listed))
    ensures var l := ListFrom(mem, heads, g, clock, a); if a == NULL then l == [] else |l| > 0 && l[0] == a
  {
    hide HeadOk, Class;
  }

  /** Consecutive list entries are joined by next_free. */
  lemma {:induction false} ListSuccessor(mem: seq<int>, heads: Heads, g: Shape, clock: nat, a: int, i: nat)
    requires ListsOk(mem, heads, g, clock) && a in g && g[a].listed && a != NULL
    requires i < |ListFrom(mem, heads, g, clock, a)|
    ensures var l := ListFrom(mem, heads, g, clock, a);
            && 0 <= l[i] && l[i] + 2 < |mem|
            && (mem[l[i] + 2] != NULL ==> mem[l[i] + 2] in l)
    decreases i
  {
    hide ListFrom, ListsOk;
    ListUnfold(mem, heads, g, clock, a);
    var n := mem[a + 2];
    ListStarts(mem, heads, g, clock, n);
    if i > 0 { ListSuccessor(mem, heads, g, clock, n, i - 1); }
  }

  lemma {:induction false} ListIsComplete(mem: seq<int>, heads: Heads, g: Shape, clock: nat, b: int)
    requires ListsOk(mem, heads, g, clock) && b in g && g[b].listed
    ensures InTable(Class(g[b].size).0, Class(g[b].size).1)
    ensures var h := Head(heads, Class(g[b].size));
            h in g && g[h].listed && b in ListFrom(mem, heads, g, clock, h)
    decreases clock - g[b].rank
  {
    assert NodeOk(mem, heads, g, clock, b);
    var p := mem[b + 3];
    if p == NULL {
      assert ListFrom(mem, heads, g, clock, b)[0] == b;
    } else {
      assert NodeOk(mem, heads, g, clock, p);
      ListIsComplete(mem, heads, g, clock, p);
      var c := Class(g[b].size);
      assert HeadOk(mem, heads, g, c.0, c.1);
      var i :| 0 <= i < |ListFrom(mem, heads, g, clock, Head(heads, c))|
        && ListFrom(mem, heads, g, clock, Head(heads, c))[i] == p;
      ListSuccessor(mem, heads, g, clock, Head(heads, c), i);
    }
  }

  /** At rest, list (f, s) holds exactly the free blocks mapping_insert files
      there, each once. */
  lemma ListsHoldFreeBlocks(mem: seq<int>, heads: Heads, g: Shape, clock: nat, end: int, f: int, s: int, b: int)
    requires Sound(mem, heads, g, clock, end) && SettledExcept(g, end, -1) && InTable(f, s)
    ensures HeadOk(mem, heads, g, f, s)
    ensures b in ListFrom(mem, heads, g, clock, heads[f][s]) <==> b in g && g[b].free && Class(g[b].size) == (f, s)
    ensures Distinct(ListFrom(mem, heads, g, clock, heads[f][s]))
  {
    assert HeadOk(mem, heads, g, f, s);
    ListIsSound(mem, heads, g, clock, heads[f][s]);
    if b in g {
      assert Fits(g, end, b) && QuietAt(g, b, -1);
      if g[b].free && Class(g[b].size) == (f, s) {
        ListIsComplete(mem, heads, g, clock, b);
      }
    }
  }

  // -------------------------------------------------------------- coalescing

  /** The live blocks of two shapes are the same, with the same sizes. */
  ghost predicate SameLive(g: Shape, h: Shape, end: int) {
    Live(g, end) == Live(h, end) && forall a :: a in Live(g, end) ==> a in h && h[a].size == g[a].size
  }

  /** A free block ends where the next live block begins, so it cannot be longer in one of
      the two. */
  lemma FreeEndsThere(g: Shape, h: Shape, end: int, a: int)
    requires Tiled(g, end) && SettledExcept(g, end, -1) && Tiled(h, end) && SameLive(g, h, end)
    requires a in g && a in h && a != end && g[a].free
    ensures Next(g, a) >= Next(h, a)
  {
    assert Fits(g, end, a) && QuietAt(g, a, -1) && Fits(h, end, a);
    var n := Next(g, a);
    assert Fits(g, end, n);
    assert n in h by { if n != end { assert n in Live(g, end); } }
    Separate(h, end, a, n);
  }

  lemma {:induction false} BlockDetermined(g: Shape, h: Shape, end: int, b: int)
    requires Tiled(g, end) && SettledExcept(g, end, -1) && Tiled(h, end) && SettledExcept(h, end, -1)
    requires SameLive(g, h, end) && b in g && FIRST <= b
    ensures b in h && h[b].size == g[b].size && h[b].free == g[b].free
    decreases b - FIRST
  {
    hide SettledExcept;
    assert Fits(g, end, b);
    if b != FIRST {
      assert Fits(g, end, g[b].prev);
      BlockDetermined(g, h, end, g[b].prev);
      assert Fits(h, end, g[b].prev);
    }
    SameBlock(g, h, end, b);
  }

  lemma SameBlock(g: Shape, h: Shape, end: int, b: int)
    requires Tiled(g, end) && SettledExcept(g, end, -1) && Tiled(h, end) && SettledExcept(h, end, -1)
    requires SameLive(g, h, end) && b in g && b in h
    ensures h[b].size == g[b].size && h[b].free == g[b].free
  {
    hide SettledExcept;
    assert Fits(g, end, b) && Fits(h, end, b);
    if b == end {
      EndIsUsed(g, end);
      EndIsUsed(h, end);
    } else {
      assert b in Live(g, end) <==> b in Live(h, end);
      if g[b].free {
        FreeEndsThere(g, h, end, b);
        FreeEndsThere(h, g, end, b);
      }
    }
  }

  lemma EndIsUsed(g: Shape, end: int)
    requires Tiled(g, end) && SettledExcept(g, end, -1)
    ensures !g[end].free
  {
    assert Fits(g, end, end) && QuietAt(g, end, -1);
    assert Next(g, end) in g ==> Fits(g, end, Next(g, end));
  }

  /** What is live determines the whole layout: two pools at rest with the same live blocks
      have the same free blocks too, whatever led there. */
  lemma LiveDetermines(g: Shape, h: Shape, end: int)
    requires Tiled(g, end) && SettledExcept(g, end, -1) && Tiled(h, end) && SettledExcept(h, end, -1)
    requires SameLive(g, h, end)
    ensures g.Keys == h.Keys && forall b :: b in g ==> h[b].size == g[b].size && h[b].free == g[b].free
  {
    hide SettledExcept;
    forall b | b in g ensures b in h && h[b].size == g[b].size && h[b].free == g[b].free {
      assert Fits(g, end, b);
      BlockDetermined(g, h, end, b);
    }
    forall b | b in h ensures b in g {
      assert Fits(h, end, b);
      BlockDetermined(h, g, end, b);
    }
  }

  /** Once nothing is in use, the pool is one free block of its initial size. */
  lemma FullyCoalesced(g: Shape, end: int)
    requires Tiled(g, end) && SettledExcept(g, end, -1) && Live(g, end) == {}
    ensures g.Keys == {FIRST, end} && g[FIRST].free && g[FIRST].size == end - FIRST - 1
  {
    assert Fits(g, end, FIRST) && QuietAt(g, FIRST, -1);
    assert FIRST !in Live(g, end);
    var n := Next(g, FIRST);
    assert n !in Live(g, end);
    assert n == end;
    forall a | a in g ensures a in {FIRST, end} {
      assert Fits(g, end, a);
      if a != FIRST { Separate(g, end, FIRST, a); }
    }
  }

  /** Live payloads do not overlap, and lie inside the pool. */
  lemma LivePayloadsDisjoint(g: Shape, end: int, a: int, b: int, w: int)
    requires Tiled(g, end) && a in Live(g, end) && b in Live(g, end) && a != b
    requires a + 2 <= w <= Next(g, a)
    ensures FIRST < w <= end && !(b + 2 <= w <= Next(g, b))
  {
    assert Fits(g, end, a) && Fits(g, end, Next(g, a));
    Separate(g, end, a, b);
  }

  // -------------------------------------------------------------- check_heap

  /** One step of the integrity walker. */
  method IntegrityStep(p: Pool, a: int, prevStatus: bool, size: int) returns (bad: int, status: bool)
    requires p.Valid() && a in p.g && a != p.end && prevStatus == p.g[a].prevFree && size == p.g[a].size
    ensures bad == 0 && status == p.g[a].free
  {
    p.Reads(a);
    bad := 0;
    if prevStatus != p.BlockIsPrevFree(a) { bad := bad - 1; }
    if size != p.BlockSize(a) { bad := bad - 1; }
    status := p.BlockIsFree(a);
  }

  /** The physical half of tlsf_check_heap. */
  method CheckBlocks(p: Pool) returns (status: int)
    requires p.Valid()
    ensures status == 0
  {
    status := 0;
    var block, prevStatus := FIRST, false;
    p.Reads(block);
    assert FlagOk(p.g, p.end, FIRST);
    while p.BlockSize(block) != 0
      invariant block in p.g && 0 <= block && block + 1 < |p.mem|
      invariant status == 0 && prevStatus == p.g[block].prevFree
      decreases p.end - block
    {
      p.Reads(block);
      var bad;
      bad, prevStatus := IntegrityStep(p, block, prevStatus, p.BlockSize(block));
      status := status + bad;
      ghost var was := block;
      block := p.BlockNext(block);
      p.Reads(block);
      assert FlagOk(p.g, p.end, block) && FlagOk(p.g, p.end, was);
    }
  }

  /** The checks tlsf_check_heap makes of one listed block. */
  method CheckListed(p: Pool, i: int, j: int, block: int) returns (bad: int)
    requires p.Valid() && InTable(i, j)
    requires block in p.g && p.g[block].listed && Class(p.g[block].size) == (i, j)
    ensures bad == 0
  {
    bad := 0;
    p.Reads(block);
    TakeSettles(p.g, p.end, block);
    var next := p.BlockNext(block);
    p.Reads(next);
    assert FlagOk(p.g, p.end, next);
    if !p.BlockIsFree(block) { bad := bad - 1; }
    if p.BlockIsPrevFree(block) { bad := bad - 1; }
    if p.BlockIsFree(next) { bad := bad - 1; }
    if !p.BlockIsPrevFree(next) { bad := bad - 1; }
    if p.BlockSize(block) < MIN_SIZE { bad := bad - 1; }
    if MappingInsert(Bytes(p.BlockSize(block))) != (i, j) { bad := bad - 1; }
  }

  /** The checks tlsf_check_heap makes of one free list and its bits. */
  method CheckList(p: Pool, i: int, j: int) returns (bad: int)
    requires p.Valid() && InTable(i, j)
    ensures bad == 0
  {
    bad := 0;
    assert SlBit(p.heads, p.slBitmap, i, j) && FlBit(p.slBitmap, p.flBitmap, i);
    ZeroHasNoBit(0, j);
    var flMap := Bit(p.flBitmap, i);
    var slMap := Bit(p.slBitmap[i], j);
    var block := p.heads[i][j];
    if !flMap && slMap { bad := bad - 1; }
    if !slMap {
      if block != NULL { bad := bad - 1; }
    } else {
      if p.slBitmap[i] == 0 { bad := bad - 1; }
      if block == NULL { bad := bad - 1; }
      assert HeadOk(p.mem, p.heads, p.g, i, j);
      while block != NULL
        invariant bad == 0
        invariant block == NULL || (block in p.g && p.g[block].listed && Class(p.g[block].size) == (i, j))
        decreases if block == NULL then 0 else p.g[block].rank + 1
      {
        var b := CheckListed(p, i, j, block);
        bad := bad + b;
        assert NodeOk(p.mem, p.heads, p.g, p.clock, block);
        block := p.mem[block + 2];
      }
    }
  }

  /** tlsf_check_heap finds nothing to report in a pool at rest. */
  method CheckHeap(p: Pool) returns (status: int)
    requires p.Valid()
    ensures status == 0
  {
    status := CheckBlocks(p);
    for i := 0 to FL_INDEX_COUNT
      invariant status == 0
    {
      for j := 0 to SL_INDEX_COUNT
        invariant status == 0
      {
        var bad := CheckList(p, i, j);
        status := status + bad;
      }
    }
  }

  // --------------------------------------------------------------------- runs

  /** Bytes tlsf_create leaves for blocks, in size_t arithmetic. */
  function PoolBytes(bytes: nat): nat {
    var m := if WORD == 4 then 0x1_0000_0000 else 0x1_0000_0000_0000_0000;
    var left := (bytes - Bytes(FIRST + 3)) % m;
    left - left % WORD
  }

  /** tlsf_create: refuses pools that are too small or too large. A pool of
      exactly block_size_max bytes is accepted by the source although its class
      is outside the table; it is excluded here. */
  method Create(memory: seq<int>, base: nat, bytes: nat) returns (r: Option<Pool>)
    requires |memory| == bytes / WORD && bytes < (if WORD == 4 then 0x1_0000_0000 else 0x1_0000_0000_0000_0000)
    requires PoolBytes(bytes) != BLOCK_SIZE_MAX
    ensures r.None? <==> PoolBytes(bytes) < Bytes(MIN_SIZE) || PoolBytes(bytes) > BLOCK_SIZE_MAX
    ensures r.Some? ==>
              && fresh(r.value) && r.value.Valid() && Live(r.value.g, r.value.end) == {}
              && r.value.base == base && Bytes(r.value.end - FIRST - 1) == PoolBytes(bytes)
  {
    var poolBytes := PoolBytes(bytes);
    if poolBytes < Bytes(MIN_SIZE) || poolBytes > BLOCK_SIZE_MAX {
      return None;
    }
    PoolFits(bytes);
    var words := poolBytes / WORD;
    var p := new Pool.Create(memory[..FIRST + 1 + words + 2], base, words);
    r := Some(p);
  }

  lemma PoolFits(bytes: nat)
    requires bytes < (if WORD == 4 then 0x1_0000_0000 else 0x1_0000_0000_0000_0000)
    requires Bytes(MIN_SIZE) <= PoolBytes(bytes) < BLOCK_SIZE_MAX
    ensures Bytes(PoolBytes(bytes) / WORD) == PoolBytes(bytes)
    ensures MIN_SIZE <= PoolBytes(bytes) / WORD && FIRST + 3 + PoolBytes(bytes) / WORD <= bytes / WORD
  {
    if WORD == 4 { } else { }
  }

  /** A caller's request. */
  datatype Request =
    | Alloc(size: nat)
    | AllocAligned(align: nat, size: nat)
    | Resize(ptr: int, newSize: nat)
    | Release(ptr: int)
    | Store(ptr: int, offset: nat, value: int)

  /** Execute one request if its pointer is live and it is in the range the
      allocator is meant for. `held` are the live blocks, two words before the
      pointers given out. */
  method Step(p: Pool, held: set<int>, q: Request) returns (held': set<int>)
    requires p.Valid() && held == Live(p.g, p.end)
    modifies p`mem, p`heads, p`slBitmap, p`flBitmap, p`g, p`clock
    ensures p.Valid() && held' == Live(p.g, p.end)
  {
    held' := held;
    match q
    case Alloc(size) =>
      held' := StepAlloc(p, held, size);
    case AllocAligned(align, size) =>
      held' := StepAligned(p, held, align, size);
    case Resize(ptr, size) =>
      held' := StepResize(p, held, ptr, size);
    case Release(ptr) =>
      if ptr - 2 in held {
        Free(p, Some(ptr));
        held' := held - {ptr - 2};
      }
    case Store(ptr, offset, v) =>
      StepStore(p, held, ptr, offset, v);
  }

  method StepStore(p: Pool, held: set<int>, ptr: int, offset: nat, v: int)
    requires p.Valid() && held == Live(p.g, p.end)
    modifies p`mem
    ensures p.Valid()
  {
    if ptr - 2 in held {
      p.Reads(ptr - 2);
      if offset < p.BlockSize(ptr - 2) {
        UserWrite(p, ptr, ptr + offset, v);
      }
    }
  }

  method StepAlloc(p: Pool, held: set<int>, size: nat) returns (held': set<int>)
    requires p.Valid() && held == Live(p.g, p.end)
    modifies p`mem, p`heads, p`slBitmap, p`flBitmap, p`g, p`clock
    ensures p.Valid() && held' == Live(p.g, p.end)
  {
    held' := held;
    if AdjustRequestSize(size, WORD) <= SEARCH_LIMIT {
      var r := Malloc(p, size);
      if r.Some? { held' := held + {r.value - 2}; }
    }
  }

  method StepAligned(p: Pool, held: set<int>, align: nat, size: nat) returns (held': set<int>)
    requires p.Valid() && held == Live(p.g, p.end)
    modifies p`mem, p`heads, p`slBitmap, p`flBitmap, p`g, p`clock
    ensures p.Valid() && held' == Live(p.g, p.end)
  {
    held' := held;
    var power := IsPowerOfTwo(align);
    if power && (align > WORD ==> 0 < size < BLOCK_SIZE_MAX) && MemalignRequest(align, size) <= SEARCH_LIMIT {
      var r := Memalign(p, align, size);
      if r.Some? { held' := held + {r.value - 2}; }
    }
  }

  method IsPowerOfTwo(x: nat) returns (b: bool)
    ensures b ==> x > 0 && PowerOfTwo(x)
  {
    var k, y := 0, 1;
    while y < x
      invariant y == Pow2(k)
    {
      k, y := k + 1, 2 * y;
    }
    b := y == x;
  }

  method StepResize(p: Pool, held: set<int>, ptr: int, size: nat) returns (held': set<int>)
    requires p.Valid() && held == Live(p.g, p.end)
    modifies p`mem, p`heads, p`slBitmap, p`flBitmap, p`g, p`clock
    ensures p.Valid() && held' == Live(p.g, p.end)
  {
    held' := held;
    if ptr - 2 in held && size < BLOCK_SIZE_MAX && AdjustRequestSize(size, WORD) <= SEARCH_LIMIT {
      var r := Realloc(p, Some(ptr), size);
      if size == 0 {
        held' := held - {ptr - 2};
      } else if r.Some? {
        held' := held - {ptr - 2} + {r.value - 2};
      }
    }
  }

  /** Any run of requests keeps the pool at rest: tlsf_check_heap reports
      nothing, and if every pointer has been given back the pool is again one
      free block of its initial size. */
  method Run(p: Pool, script: seq<Request>) returns (held: set<int>, status: int)
    requires p.Valid() && Live(p.g, p.end) == {}
    modifies p`mem, p`heads, p`slBitmap, p`flBitmap, p`g, p`clock
    ensures p.Valid() && held == Live(p.g, p.end) && status == 0
    ensures held == {} ==> p.g.Keys == {FIRST, p.end} && p.g[FIRST].free && p.g[FIRST].size == p.end - FIRST - 1
  {
    held := {};
    for k := 0 to |script|
      invariant p.Valid() && held == Live(p.g, p.end)
    {
      held := Step(p, held, script[k]);
    }
    status := CheckHeap(p);
    if held == {} { FullyCoalesced(p.g, p.end); }
  }
}
