/** windows_unrelocatepage: find the page's block in the relocation table and undo its
    relocations in a buffer of three pages. */
module PeUnreloc {
  import opened ByteNumbers
  import opened Arith
  import opened PeBytes
  import opened PeReloc

  datatype Code =
    | UNRELOCATED | NOUNRELOCATIONNEEDED | SUCCESS | ERR_UNHANDLEDTYPE | ERR_SECTIONNOTINMEM
    | ERR_SECTIONNOTONPAGEBOUNDARY | ERR_IMAGEBASE | ERR_BUFEXCEEDED | ERR_ZEROBLOCK | ERR_NOPHYSMEM

  const MAX_RELOCATIONINFOSIZE: int := 0x20000

  /** A page the guest may have paged out. */
  datatype Page = Absent | Present(bytes: seq<Byte>)

  // -------------------------------------------------------------- the table

  /** The low twelve bits are the offset, the next four the type. */
  function EntryAt(s: seq<Byte>, o: nat): Entry
    requires o + 2 <= |s|
  {
    var a: int, b: int := s[o], s[o + 1];
    Entry((a + 0x100 * b) / 0x1000, (a + 0x100 * b) % 0x1000)
  }

  function BlockSize(b: Block): nat { 8 + 2 * |b.entries| }

  /** Where block i starts. */
  ghost function Start(blocks: seq<Block>, i: nat): nat
    requires i <= |blocks|
  {
    if i == 0 then 0 else Start(blocks, i - 1) + BlockSize(blocks[i - 1])
  }

  /** The four bytes of v are at o, the low one first. */
  ghost predicate HoldsWord(table: seq<Byte>, o: nat, v: nat) {
    o + 4 <= |table| && v < WRAP && forall j :: 0 <= j < 4 ==> table[o + j] == v / Pow256(j) % 256
  }

  /** The two bytes of an entry are at o: the low eight bits of the offset, then its upper
      four below the four of the type. */
  ghost predicate HoldsEntry(table: seq<Byte>, o: nat, e: Entry) {
    && o + 2 <= |table| && e.kind < 16 && e.offset < 4096
    && table[o] == e.offset % 256 && table[o + 1] == 16 * e.kind + e.offset / 256
  }

  /** A block's header and entries are at o. */
  ghost predicate HoldsBlock(table: seq<Byte>, o: nat, b: Block) {
    && o + BlockSize(b) <= |table| && HoldsWord(table, o, b.va) && HoldsWord(table, o + 4, BlockSize(b))
    && (forall j :: 0 <= j < |b.entries| ==> HoldsEntry(table, o + 8 + 2 * j, b.entries[j]))
  }

  lemma WordThere(table: seq<Byte>, o: nat, v: nat)
    requires HoldsWord(table, o, v)
    ensures At32(table, o) == v
  {
    assert Pow256(0) == 1 && Pow256(1) == 0x100 && Pow256(2) == 0x1_0000 && Pow256(3) == 0x100_0000;
    assert table[o + 0] == ByteOf(v, 0) && table[o + 1] == ByteOf(v, 1);
    assert table[o + 2] == ByteOf(v, 2) && table[o + 3] == ByteOf(v, 3);
    BytesWord(v);
  }

  /** The section holds the blocks, up to its end or up to an empty header. */
  ghost predicate Holds(table: seq<Byte>, size: nat, blocks: seq<Block>) {
    && size <= MAX_RELOCATIONINFOSIZE <= |table|
    && (forall i :: 0 <= i < |blocks| ==> HoldsBlock(table, Start(blocks, i), blocks[i]))
    && Start(blocks, |blocks|) <= size
    && (Start(blocks, |blocks|) < size ==>
          Start(blocks, |blocks|) + 8 <= |table| && At32(table, Start(blocks, |blocks|) + 4) == 0)
  }

  lemma {:induction false} StartMonotone(blocks: seq<Block>, i: nat, j: nat)
    requires i <= j <= |blocks|
    ensures Start(blocks, i) <= Start(blocks, j)
    ensures (i < j ==> Start(blocks, i) + BlockSize(blocks[i]) <= Start(blocks, j))
  {
    if i < j { StartMonotone(blocks, i, j - 1); }
  }

  /** The header of block i, and where the next one is. */
  lemma BlockThere(table: seq<Byte>, size: nat, blocks: seq<Block>, i: nat)
    requires Holds(table, size, blocks) && i < |blocks|
    ensures HoldsBlock(table, Start(blocks, i), blocks[i]) && Start(blocks, i) + 8 <= |table|
    ensures At32(table, Start(blocks, i)) == blocks[i].va
    ensures At32(table, Start(blocks, i) + 4) == BlockSize(blocks[i]) >= 8
    ensures Start(blocks, i + 1) == Start(blocks, i) + BlockSize(blocks[i]) <= size
  {
    hide At32, HoldsWord, HoldsEntry;
    StartMonotone(blocks, i + 1, |blocks|);
    WordThere(table, Start(blocks, i), blocks[i].va);
    WordThere(table, Start(blocks, i) + 4, BlockSize(blocks[i]));
  }

  lemma EndThere(table: seq<Byte>, size: nat, blocks: seq<Block>)
    requires Holds(table, size, blocks)
    ensures Start(blocks, 0) == 0 && Start(blocks, |blocks|) <= size
    ensures Start(blocks, |blocks|) < size ==>
              Start(blocks, |blocks|) + 8 <= |table| && At32(table, Start(blocks, |blocks|) + 4) == 0
  {
    hide HoldsBlock, At32;
  }

  lemma CountThere(table: seq<Byte>, o: nat, b: Block)
    requires HoldsBlock(table, o, b)
    ensures o + 8 + 2 * |b.entries| <= |table| && (At32(table, o + 4) - 8) / 2 == |b.entries|
  {
    WordThere(table, o + 4, BlockSize(b));
  }

  lemma EntryThere(table: seq<Byte>, o: nat, b: Block, j: nat)
    requires HoldsBlock(table, o, b) && j < |b.entries|
    ensures o + 8 + 2 * j + 2 <= |table| && EntryAt(table, o + 8 + 2 * j) == b.entries[j]
  {
    hide HoldsWord;
    var e, q := b.entries[j], o + 8 + 2 * j;
    assert HoldsEntry(table, q, e);
    var lo: int, hi: int := table[q], table[q + 1];
    DivModUnique(lo + 0x100 * hi, 0x1000, e.kind, e.offset);
  }

  // ------------------------------------------------------------- the buffer

  method PutWord(buf: array<Byte>, o: nat, v: U32)
    requires o + 4 <= buf.Length
    modifies buf
    ensures buf[..] == Put32(old(buf[..]), o, v)
  {
    buf[o], buf[o + 1], buf[o + 2], buf[o + 3] := ByteOf(v, 0), ByteOf(v, 1), ByteOf(v, 2), ByteOf(v, 3);
  }

  method CopyPage(buf: array<Byte>, o: nat, page: seq<Byte>)
    requires |page| == PAGE && o + PAGE <= buf.Length
    modifies buf
    ensures buf[..] == old(buf[..o]) + page + old(buf[o + PAGE..])
  {
    forall i | o <= i < o + PAGE { buf[i] := page[i - o]; }
  }

  ghost predicate AllHandled(entries: seq<Entry>, n: nat)
    requires n <= |entries|
  {
    forall j :: 0 <= j < n ==> entries[j].kind == HIGHLOW || entries[j].kind == ABSOLUTE
  }

  /** windows_unrelocatepage_processrelocations, for the page at base in the buffer. */
  method ProcessRelocations(buf: array<Byte>, imagebase: U32, original: U32, base: nat, table: seq<Byte>, o: nat,
                            ghost b: Block)
    returns (code: Code)
    requires HoldsBlock(table, o, b) && base + PAGE + 3 <= buf.Length
    requires forall j :: 0 <= j < |b.entries| ==> b.entries[j].offset < PAGE
    modifies buf
    ensures code == if AllHandled(b.entries, |b.entries|) then SUCCESS else ERR_UNHANDLEDTYPE
    ensures code == SUCCESS ==>
      buf[..] == Undo(old(buf[..]), base, b.entries, |b.entries|, (imagebase - original) % WRAP)
  {
    hide HoldsBlock, At32, EntryAt, BlockSize, ByteOf, Put32;
    CountThere(table, o, b);
    var n := (At32(table, o + 4) - 8) / 2;
    var i := 0;
    while i < n
      invariant 0 <= i <= n == |b.entries| && AllHandled(b.entries, i)
      invariant buf[..] == Undo(old(buf[..]), base, b.entries, i, (imagebase - original) % WRAP)
    {
      EntryThere(table, o, b, i);
      var e := EntryAt(table, o + 8 + 2 * i);
      if e.kind == HIGHLOW {
        var d := (imagebase - original) % WRAP;
        PutWord(buf, base + e.offset, (At32(buf[..], base + e.offset) - d) % WRAP);
      } else if e.kind == ABSOLUTE {
      } else {
        return ERR_UNHANDLEDTYPE;
      }
      i := i + 1;
    }
    return SUCCESS;
  }

  /** Does any entry of the block come within four bytes of the page's end? */
  method NeedsNeighbour(table: seq<Byte>, o: nat, ghost b: Block) returns (need: bool)
    requires HoldsBlock(table, o, b)
    ensures need <==> NearEnd(b.entries)
  {
    hide HoldsBlock, At32, EntryAt;
    CountThere(table, o, b);
    need := false;
    var n := (At32(table, o + 4) - 8) / 2;
    var i := 0;
    while i < n
      invariant 0 <= i <= n == |b.entries|
      invariant forall j :: 0 <= j < i ==> b.entries[j].offset + 4 < PAGE
    {
      EntryThere(table, o, b, i);
      if EntryAt(table, o + 8 + 2 * i).offset + 4 >= PAGE { return true; }
      i := i + 1;
    }
  }

  // ------------------------------------------------------------ the search

  /** Positions in the table; NoEntry stands for a null pointer. */
  datatype Position = NoEntry | Entry0(at: nat)

  ghost predicate Found(blocks: seq<Block>, imagebase: U32, target: U32, c: nat) {
    c < |blocks| && target == (blocks[c].va + imagebase) % WRAP
  }

  /** The walk over the blocks up to the page's one. */
  method FindBlock(table: seq<Byte>, size: nat, imagebase: U32, target: U32, ghost blocks: seq<Block>)
    returns (found: bool, code: Code, here: nat, previous: Position, next: Position, ghost c: nat)
    requires Holds(table, size, blocks) && Ascending(blocks)
    ensures !found ==> forall i :: 0 <= i < |blocks| ==> !Found(blocks, imagebase, target, i)
    ensures found ==> Found(blocks, imagebase, target, c) && here == Start(blocks, c)
    ensures found ==> previous == if HasPrevious(blocks, c) then Entry0(Start(blocks, c - 1)) else NoEntry
    ensures found ==> next == if c + 1 < |blocks| then Entry0(Start(blocks, c + 1)) else NoEntry
    ensures !found ==> code == if Start(blocks, |blocks|) < size then ERR_ZEROBLOCK else SUCCESS
  {
    hide Holds, HoldsBlock, At32, Start, BlockSize;
    EndThere(table, size, blocks);
    found, code, here, previous, next, c := false, SUCCESS, 0, NoEntry, NoEntry, 0;
    while here < size
      invariant c <= |blocks| && here == Start(blocks, c) && code == SUCCESS && !found
      invariant forall i :: 0 <= i < c ==> !Found(blocks, imagebase, target, i)
      invariant previous == if c > 0 then Entry0(Start(blocks, c - 1)) else NoEntry
      decreases |blocks| - c
    {
      if c < |blocks| { BlockThere(table, size, blocks, c); }
      if At32(table, here + 4) == 0 {
        code := ERR_ZEROBLOCK;
        break;
      }
      if target == (At32(table, here) + imagebase) % WRAP {
        if previous.Entry0? {
          BlockThere(table, size, blocks, c - 1);
          if At32(table, here) - At32(table, previous.at) > PAGE { previous := NoEntry; }
        }
        next := NextEntry(table, size, here + At32(table, here + 4), blocks, c + 1);
        found := true;
        break;
      }
      previous := Entry0(here);
      here := here + At32(table, here + 4);
      c := c + 1;
    }
    if c < |blocks| { BlockThere(table, size, blocks, c); }
    assert found ==> Found(blocks, imagebase, target, c);
    assert !found ==> c == |blocks|;
  }

  method NextEntry(table: seq<Byte>, size: nat, at: nat, ghost blocks: seq<Block>, ghost n: nat)
    returns (next: Position)
    requires Holds(table, size, blocks) && n <= |blocks| && at == Start(blocks, n)
    ensures next == if n < |blocks| then Entry0(at) else NoEntry
  {
    hide Holds, HoldsBlock, At32, Start, BlockSize;
    EndThere(table, size, blocks);
    next := NoEntry;
    if n < |blocks| { BlockThere(table, size, blocks, n); }
    if at < size {
      if At32(table, at + 4) != 0 { next := Entry0(at); }
    }
  }

  // ------------------------------------------------------------- the whole

  ghost predicate PreviousNeeded(blocks: seq<Block>, c: nat) {
    HasPrevious(blocks, c) && NearEnd(blocks[c - 1].entries)
  }

  ghost predicate NextNeeded(blocks: seq<Block>, c: nat) {
    c + 1 < |blocks| && NearEnd(blocks[c + 1].entries)
  }

  /** The answer once block c is found to be the page's. */
  ghost function Verdict(blocks: seq<Block>, c: nat, previous: bool, next: bool): Code
    requires c < |blocks|
  {
    if (PreviousNeeded(blocks, c) && !previous) || (NextNeeded(blocks, c) && !next) then ERR_NOPHYSMEM
    else if PreviousNeeded(blocks, c) && !AllHandled(blocks[c - 1].entries, |blocks[c - 1].entries|) then
      ERR_UNHANDLEDTYPE
    else if !AllHandled(blocks[c].entries, |blocks[c].entries|) then ERR_UNHANDLEDTYPE
    else UNRELOCATED
  }

  ghost predicate IsPage(p: Page) { p.Present? ==> |p.bytes| == PAGE }

  /** Fill the buffer with the pages that are needed. */
  method Stage(buf: array<Byte>, table: seq<Byte>, size: nat, at: Position, after: Position, previous: Page,
               page: seq<Byte>, next: Page, ghost blocks: seq<Block>, ghost c: nat)
    returns (ok: bool, withPrevious: bool)
    requires buf.Length == 3 * PAGE && |page| == PAGE && IsPage(previous) && IsPage(next)
    requires Holds(table, size, blocks) && c < |blocks|
    requires at == if HasPrevious(blocks, c) then Entry0(Start(blocks, c - 1)) else NoEntry
    requires after == if c + 1 < |blocks| then Entry0(Start(blocks, c + 1)) else NoEntry
    modifies buf
    ensures ok <==> (PreviousNeeded(blocks, c) ==> previous.Present?) && (NextNeeded(blocks, c) ==> next.Present?)
    ensures ok ==> withPrevious == PreviousNeeded(blocks, c) && buf[PAGE..2 * PAGE] == page
    ensures ok && withPrevious ==> buf[..PAGE] == previous.bytes
  {
    hide Holds, HoldsBlock, NearEnd, Start;
    ok, withPrevious := false, false;
    forall i | 0 <= i < buf.Length { buf[i] := 0; }
    if at.Entry0? {
      BlockThere(table, size, blocks, c - 1);
      withPrevious := NeedsNeighbour(table, at.at, blocks[c - 1]);
      if withPrevious {
        if previous.Absent? { return; }
        CopyPage(buf, 0, previous.bytes);
      }
    }
    CopyPage(buf, PAGE, page);
    if after.Entry0? {
      BlockThere(table, size, blocks, c + 1);
      var needNext := NeedsNeighbour(table, after.at, blocks[c + 1]);
      if needNext {
        if next.Absent? { return; }
        CopyPage(buf, 2 * PAGE, next.bytes);
      }
    }
    ok := true;
  }

  /** Undo the relocations of the previous page, if needed, and of the page. */
  method UndoBoth(buf: array<Byte>, imagebase: U32, original: U32, table: seq<Byte>, size: nat, here: nat, at: Position,
                  withPrevious: bool, ghost blocks: seq<Block>, ghost c: nat)
    returns (code: Code)
    requires buf.Length == 3 * PAGE && Holds(table, size, blocks) && Ascending(blocks) && c < |blocks|
    requires here == Start(blocks, c) && imagebase >= original
    requires withPrevious ==> 0 < c && at == Entry0(Start(blocks, c - 1))
    modifies buf
    ensures code ==
      if (withPrevious ==> AllHandled(blocks[c - 1].entries, |blocks[c - 1].entries|))
         && AllHandled(blocks[c].entries, |blocks[c].entries|)
      then SUCCESS else ERR_UNHANDLEDTYPE
    ensures code == SUCCESS ==>
      buf[..] == AfterPage(AfterPrevious(old(buf[..]), blocks, c, withPrevious, imagebase - original), blocks, c,
        imagebase - original)
  {
    hide Holds, HoldsBlock, Undo, AllHandled;
    DivModUnique(imagebase - original, WRAP, 0, imagebase - original);
    if withPrevious {
      BlockThere(table, size, blocks, c - 1);
      code := ProcessRelocations(buf, imagebase, original, 0, table, at.at, blocks[c - 1]);
      if code != SUCCESS { return; }
    }
    BlockThere(table, size, blocks, c);
    code := ProcessRelocations(buf, imagebase, original, PAGE, table, here, blocks[c]);
  }

  /** The guest's side: an image that was relocated when it was loaded, and the three
      pages handed in. */
  ghost predicate Guest(img: seq<Byte>, load: seq<Byte>, blocks: seq<Block>, imagebase: U32, original: U32, rva: int,
                        previous: Page, page: seq<Byte>, next: Page)
  {
    && Ascending(blocks) && SitesApart(blocks, |img|) && Relocated(img, load, blocks, imagebase - original)
    && imagebase % PAGE == 0 && imagebase + |img| <= WRAP
    && (forall i :: 0 <= i < |blocks| ==> blocks[i].va + imagebase < WRAP)
    && 0 <= rva && rva + PAGE <= |img| == |load| && page == load[rva..rva + PAGE]
    && IsPage(previous) && IsPage(next)
    && (previous.Present? && PAGE <= rva ==> previous.bytes == load[rva - PAGE..rva])
  }

  ghost predicate NoBlock(blocks: seq<Block>, rva: int) {
    forall i :: 0 <= i < |blocks| ==> blocks[i].va != rva
  }

  /** The block the search looks for is the one of the page. */
  lemma FoundIsPage(img: seq<Byte>, load: seq<Byte>, blocks: seq<Block>, imagebase: U32, original: U32, rva: int,
                    previous: Page, page: seq<Byte>, next: Page, target: U32, i: nat)
    requires Guest(img, load, blocks, imagebase, original, rva, previous, page, next)
    requires rva == target - imagebase && i < |blocks|
    ensures Found(blocks, imagebase, target, i) <==> blocks[i].va == rva
  {
    DivModUnique(blocks[i].va + imagebase, WRAP, 0, blocks[i].va + imagebase);
  }

  lemma ReadyToRestore(img: seq<Byte>, load: seq<Byte>, blocks: seq<Block>, imagebase: U32, original: U32, rva: int,
                       previous: Page, page: seq<Byte>, next: Page, s: seq<Byte>, c: nat, withPrevious: bool)
    requires Guest(img, load, blocks, imagebase, original, rva, previous, page, next)
    requires c < |blocks| && blocks[c].va == rva && |s| == 3 * PAGE && s[PAGE..2 * PAGE] == page
    requires withPrevious == PreviousNeeded(blocks, c)
    requires withPrevious ==> previous.Present? && s[..PAGE] == previous.bytes
    ensures Restorable(img, load, blocks, imagebase - original, c, s, withPrevious)
  {
    hide Relocated, SitesApart, NearEnd;
    if withPrevious { PreviousIsAdjacent(blocks, c); }
  }

  /** The part after the block is found. */
  method Restore(buf: array<Byte>, out: array<Byte>, imagebase: U32, original: U32, table: seq<Byte>, size: U32,
                 here: nat, at: Position, after: Position, previous: Page, page: seq<Byte>, next: Page,
                 ghost img: seq<Byte>, ghost load: seq<Byte>, ghost blocks: seq<Block>, ghost c: nat, ghost rva: int)
    returns (code: Code)
    requires buf.Length == 3 * PAGE && out.Length == PAGE && buf != out && imagebase >= original
    requires Guest(img, load, blocks, imagebase, original, rva, previous, page, next) && Holds(table, size, blocks)
    requires c < |blocks| && blocks[c].va == rva && here == Start(blocks, c)
    requires at == if HasPrevious(blocks, c) then Entry0(Start(blocks, c - 1)) else NoEntry
    requires after == if c + 1 < |blocks| then Entry0(Start(blocks, c + 1)) else NoEntry
    modifies buf, out
    ensures code == Verdict(blocks, c, previous.Present?, next.Present?)
    ensures code == UNRELOCATED ==> out[..] == img[rva..rva + PAGE]
    ensures code != UNRELOCATED ==> out[..] == old(out[..])
  {
    hide Holds, Start, Relocated, SitesApart, NearEnd, AllHandled, AfterPage, AfterPrevious;
    var ok, withPrevious := Stage(buf, table, size, at, after, previous, page, next, blocks, c);
    if !ok { return ERR_NOPHYSMEM; }
    ghost var s := buf[..];
    assert s[..PAGE] == buf[..PAGE] && s[PAGE..2 * PAGE] == buf[PAGE..2 * PAGE];
    ReadyToRestore(img, load, blocks, imagebase, original, rva, previous, page, next, s, c, withPrevious);
    PageRestored(img, load, blocks, imagebase - original, c, s, withPrevious);
    code := UndoBoth(buf, imagebase, original, table, size, here, at, withPrevious, blocks, c);
    if code != SUCCESS { return; }
    ghost var u := buf[..];
    assert u[PAGE..2 * PAGE] == buf[PAGE..2 * PAGE];
    CopyPage(out, 0, buf[PAGE..2 * PAGE]);
    code := UNRELOCATED;
  }

  /** windows_unrelocatepage. When it reports that it has undone the relocations, the
      output page is the page of the original image. */
  method UnrelocatePage(buf: array<Byte>, out: array<Byte>, imagebase: U32, original: U32, vaddr: U32, fetched: Code,
                        table: seq<Byte>, size: U32, previous: Page, page: seq<Byte>, next: Page,
                        ghost img: seq<Byte>, ghost load: seq<Byte>, ghost blocks: seq<Block>, ghost rva: int)
    returns (code: Code, ghost c: nat)
    requires buf.Length == 3 * PAGE && out.Length == PAGE && buf != out && rva == vaddr - vaddr % PAGE - imagebase
    requires Guest(img, load, blocks, imagebase, original, rva, previous, page, next)
    requires fetched in {SUCCESS, ERR_SECTIONNOTINMEM, ERR_SECTIONNOTONPAGEBOUNDARY}
    requires fetched == SUCCESS && size <= MAX_RELOCATIONINFOSIZE ==> Holds(table, size, blocks)
    modifies buf, out
    ensures code == UNRELOCATED ==> out[..] == img[rva..rva + PAGE]
    ensures code != UNRELOCATED ==> out[..] == old(out[..])
    ensures imagebase < original ==> code == ERR_IMAGEBASE
    ensures imagebase >= original && size > MAX_RELOCATIONINFOSIZE ==> code == ERR_BUFEXCEEDED
    ensures imagebase >= original && size <= MAX_RELOCATIONINFOSIZE && fetched != SUCCESS ==> code == fetched
    ensures imagebase >= original && size <= MAX_RELOCATIONINFOSIZE && fetched == SUCCESS && NoBlock(blocks, rva) ==>
      code == if Start(blocks, |blocks|) < size then ERR_ZEROBLOCK else NOUNRELOCATIONNEEDED
    ensures imagebase >= original && size <= MAX_RELOCATIONINFOSIZE && fetched == SUCCESS && !NoBlock(blocks, rva) ==>
      c < |blocks| && blocks[c].va == rva && code == Verdict(blocks, c, previous.Present?, next.Present?)
  {
    hide Holds, Start, Guest, Found, Verdict;
    c := 0;
    if imagebase < original { return ERR_IMAGEBASE, c; }
    if size > MAX_RELOCATIONINFOSIZE { return ERR_BUFEXCEEDED, c; }
    if fetched != SUCCESS { return fetched, c; }
    var target := vaddr - vaddr % PAGE;
    assert Ascending(blocks) by { GuestAscending(img, load, blocks, imagebase, original, rva, previous, page, next); }
    var found, here, at, after;
    found, code, here, at, after, c := FindBlock(table, size, imagebase, target, blocks);
    forall i | 0 <= i < |blocks| ensures Found(blocks, imagebase, target, i) <==> blocks[i].va == rva {
      FoundIsPage(img, load, blocks, imagebase, original, rva, previous, page, next, target, i);
    }
    if !found {
      return if code == ERR_ZEROBLOCK then ERR_ZEROBLOCK else NOUNRELOCATIONNEEDED, c;
    }
    FoundInside(blocks, imagebase, target, c);
    code := Restore(buf, out, imagebase, original, table, size, here, at, after, previous, page, next,
                    img, load, blocks, c, rva);
  }

  lemma FoundInside(blocks: seq<Block>, imagebase: U32, target: U32, c: nat)
    requires Found(blocks, imagebase, target, c)
    ensures c < |blocks|
  {
  }

  lemma GuestAscending(img: seq<Byte>, load: seq<Byte>, blocks: seq<Block>, imagebase: U32, original: U32, rva: int,
                       previous: Page, page: seq<Byte>, next: Page)
    requires Guest(img, load, blocks, imagebase, original, rva, previous, page, next)
    ensures Ascending(blocks)
  {
  }
}
