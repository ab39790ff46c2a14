/** Base relocation of a 32-bit PE image: the relocation table, what the loader does
    with it, and the undoing of one page. */
module PeReloc {
  import opened ByteNumbers
  import opened PeBytes

  const PAGE: int := 4096

  /** One entry of a block: a type and an offset into the block's page. */
  datatype Entry = Entry(kind: nat, offset: nat)

  /** A block: the page's address relative to the image base, and its entries. */
  datatype Block = Block(va: nat, entries: seq<Entry>)

  const ABSOLUTE: nat := 0
  const HIGHLOW: nat := 3

  // ----------------------------------------------------------- the image side

  /** Entry j of block i is a site whose four bytes are relocated. */
  ghost predicate IsSite(blocks: seq<Block>, i: int, j: int) {
    0 <= i < |blocks| && 0 <= j < |blocks[i].entries| && blocks[i].entries[j].kind == HIGHLOW
  }

  ghost function Address(blocks: seq<Block>, i: int, j: int): nat
    requires IsSite(blocks, i, j)
  {
    blocks[i].va + blocks[i].entries[j].offset
  }

  ghost predicate Covers(blocks: seq<Block>, i: int, j: int, k: int) {
    IsSite(blocks, i, j) && Address(blocks, i, j) <= k < Address(blocks, i, j) + 4
  }

  ghost predicate Uncovered(blocks: seq<Block>, k: int) {
    forall i, j :: !Covers(blocks, i, j, k)
  }

  /** Every site lies in the image, and no two sites share a byte. */
  ghost predicate SitesApart(blocks: seq<Block>, size: nat) {
    && (forall i, j :: IsSite(blocks, i, j) ==> Address(blocks, i, j) + 4 <= size)
    && (forall i, j, i', j' :: IsSite(blocks, i, j) && IsSite(blocks, i', j') && (i != i' || j != j') ==>
          Address(blocks, i, j) + 4 <= Address(blocks, i', j') || Address(blocks, i', j') + 4 <= Address(blocks, i, j))
  }

  /** One block for a page, in ascending order. */
  ghost predicate Ascending(blocks: seq<Block>) {
    && (forall i :: 0 <= i < |blocks| ==> blocks[i].va % PAGE == 0)
    && (forall i, j :: 0 <= i < |blocks| && 0 <= j < |blocks[i].entries| ==> blocks[i].entries[j].offset < PAGE)
    && (forall i, i' :: 0 <= i < i' < |blocks| ==> blocks[i].va < blocks[i'].va)
  }

  /** load is img relocated by d. */
  ghost predicate Relocated(img: seq<Byte>, load: seq<Byte>, blocks: seq<Block>, d: int)
    requires SitesApart(blocks, |img|)
  {
    && |load| == |img|
    && (forall i, j :: IsSite(blocks, i, j) ==>
          At32(load, Address(blocks, i, j)) == (At32(img, Address(blocks, i, j)) + d) % WRAP)
    && (forall k :: 0 <= k < |img| && Uncovered(blocks, k) ==> load[k] == img[k])
  }

  // ----------------------------------------------------------- undoing entries

  /** Subtract d from the word at o. */
  function Subtract(s: seq<Byte>, o: nat, d: int): seq<Byte>
    requires o + 4 <= |s|
  {
    Put32(s, o, (At32(s, o) - d) % WRAP)
  }

  ghost predicate Fits(entries: seq<Entry>, base: nat, size: nat) {
    forall j :: 0 <= j < |entries| && entries[j].kind == HIGHLOW ==> base + entries[j].offset + 4 <= size
  }

  /** What processing the first n entries does to a buffer whose page starts at base. */
  ghost function Undo(s: seq<Byte>, base: nat, entries: seq<Entry>, n: nat, d: int): (t: seq<Byte>)
    requires n <= |entries| && Fits(entries, base, |s|)
    ensures |t| == |s|
  {
    if n == 0 then s
    else
      var t := Undo(s, base, entries, n - 1, d);
      if entries[n - 1].kind == HIGHLOW then Subtract(t, base + entries[n - 1].offset, d) else t
  }

  ghost predicate EntriesApart(entries: seq<Entry>) {
    forall i, j ::
      0 <= i < |entries| && 0 <= j < |entries| && i != j && entries[i].kind == HIGHLOW && entries[j].kind == HIGHLOW ==>
      entries[i].offset + 4 <= entries[j].offset || entries[j].offset + 4 <= entries[i].offset
  }

  lemma SubtractEffect(s: seq<Byte>, o: nat, d: int)
    requires o + 4 <= |s|
    ensures |Subtract(s, o, d)| == |s| && At32(Subtract(s, o, d), o) == (At32(s, o) - d) % WRAP
    ensures forall k :: 0 <= k < |s| && !(o <= k < o + 4) ==> Subtract(s, o, d)[k] == s[k]
  {
    PutAt(s, o, (At32(s, o) - d) % WRAP);
  }

  lemma SameWord(s: seq<Byte>, t: seq<Byte>, o: nat)
    requires o + 4 <= |s| == |t| && forall k :: o <= k < o + 4 ==> s[k] == t[k]
    ensures At32(s, o) == At32(t, o)
  {
  }

  /** A byte that no processed site covers is left alone. */
  lemma {:induction false} UndoElsewhere(s: seq<Byte>, base: nat, entries: seq<Entry>, n: nat, d: int, k: nat)
    requires n <= |entries| && Fits(entries, base, |s|) && k < |s|
    requires forall j :: 0 <= j < n && entries[j].kind == HIGHLOW ==>
               !(base + entries[j].offset <= k < base + entries[j].offset + 4)
    ensures Undo(s, base, entries, n, d)[k] == s[k]
  {
    if n > 0 {
      UndoElsewhere(s, base, entries, n - 1, d, k);
      var t := Undo(s, base, entries, n - 1, d);
      if entries[n - 1].kind == HIGHLOW {
        SubtractEffect(t, base + entries[n - 1].offset, d);
      }
    }
  }

  /** A processed site has had d subtracted, once. */
  lemma {:induction false} UndoAtSite(s: seq<Byte>, base: nat, entries: seq<Entry>, n: nat, d: int, j: nat)
    requires j < n <= |entries| && Fits(entries, base, |s|) && EntriesApart(entries) && entries[j].kind == HIGHLOW
    ensures At32(Undo(s, base, entries, n, d), base + entries[j].offset)
         == (At32(s, base + entries[j].offset) - d) % WRAP
  {
    hide At32, Subtract;
    var o := base + entries[j].offset;
    var t := Undo(s, base, entries, n - 1, d);
    if j == n - 1 {
      forall k | o <= k < o + 4 ensures t[k] == s[k] {
        UndoElsewhere(s, base, entries, n - 1, d, k);
      }
      SameWord(s, t, o);
      SubtractEffect(t, o, d);
    } else {
      UndoAtSite(s, base, entries, n - 1, d, j);
      if entries[n - 1].kind == HIGHLOW {
        SubtractEffect(t, base + entries[n - 1].offset, d);
        SameWord(t, Subtract(t, base + entries[n - 1].offset, d), o);
      }
    }
  }

  // ------------------------------------------------------------ one page back

  /** The block before block c is for the page right before it. */
  ghost predicate HasPrevious(blocks: seq<Block>, c: nat) {
    0 < c < |blocks| && blocks[c].va - blocks[c - 1].va <= PAGE
  }

  /** Some entry comes within four bytes of the end of its page. */
  ghost predicate NearEnd(entries: seq<Entry>) {
    exists j :: 0 <= j < |entries| && entries[j].offset + 4 >= PAGE
  }

  /** A byte of page c can only be covered by a site of the page or by one of the page
      before it. */
  lemma WhoCovers(blocks: seq<Block>, c: nat, i: int, j: int, k: int)
    requires Ascending(blocks) && c < |blocks| && Covers(blocks, i, j, k)
    requires blocks[c].va <= k < blocks[c].va + PAGE
    ensures i == c
      || (i == c - 1 && HasPrevious(blocks, c) && blocks[c].va == blocks[i].va + PAGE && NearEnd(blocks[i].entries))
  {
    var va, p := blocks[i].va, blocks[c].va;
    assert p - PAGE - 3 < va < p + PAGE;
    AlignedBetween(va, p);
    if i != c {
      assert va == p - PAGE;
      if i < c - 1 { PageBetween(blocks[i].va, blocks[c - 1].va, p); }
    }
  }

  lemma AlignedBetween(x: int, p: int)
    requires x % PAGE == 0 && p % PAGE == 0 && p - PAGE - 3 < x < p + PAGE
    ensures x == p || x == p - PAGE
  {
  }

  lemma PageBetween(x: int, y: int, p: int)
    requires x % PAGE == 0 && y % PAGE == 0 && p % PAGE == 0 && x < y < p
    ensures x < p - PAGE
  {
  }

  lemma BlockEntriesApart(blocks: seq<Block>, size: nat, i: nat)
    requires SitesApart(blocks, size) && i < |blocks|
    ensures EntriesApart(blocks[i].entries)
  {
    var e := blocks[i].entries;
    forall a, b | 0 <= a < |e| && 0 <= b < |e| && a != b && e[a].kind == HIGHLOW && e[b].kind == HIGHLOW
      ensures e[a].offset + 4 <= e[b].offset || e[b].offset + 4 <= e[a].offset
    {
      assert IsSite(blocks, i, a) && IsSite(blocks, i, b);
    }
  }

  /** The buffer before any relocation is undone: the page in the middle, the page
      before it in front if it is needed. */
  ghost predicate Staged(s: seq<Byte>, load: seq<Byte>, blocks: seq<Block>, c: nat, withPrevious: bool)
    requires c < |blocks|
  {
    && |s| == 3 * PAGE && blocks[c].va + PAGE <= |load|
    && s[PAGE..2 * PAGE] == load[blocks[c].va..blocks[c].va + PAGE]
    && (withPrevious ==> PAGE <= blocks[c].va && s[..PAGE] == load[blocks[c].va - PAGE..blocks[c].va])
  }

  lemma StagedByte(s: seq<Byte>, load: seq<Byte>, blocks: seq<Block>, c: nat, withPrevious: bool, k: int)
    requires c < |blocks| && Staged(s, load, blocks, c, withPrevious) && (if withPrevious then -PAGE else 0) <= k < PAGE
    ensures s[PAGE + k] == load[blocks[c].va + k]
  {
    var p := blocks[c].va;
    if k >= 0 {
      assert s[PAGE..2 * PAGE][k] == load[p..p + PAGE][k];
    } else {
      assert s[..PAGE][PAGE + k] == load[p - PAGE..p][PAGE + k];
    }
  }

  /** The buffer after the entries of the previous page, if needed, and of the page. */
  ghost function AfterPrevious(s: seq<Byte>, blocks: seq<Block>, c: nat, withPrevious: bool, d: int): (t: seq<Byte>)
    requires |s| == 3 * PAGE && Ascending(blocks) && c < |blocks| && (withPrevious ==> 0 < c)
    ensures |t| == |s|
  {
    if withPrevious then Undo(s, 0, blocks[c - 1].entries, |blocks[c - 1].entries|, d) else s
  }

  ghost function AfterPage(s: seq<Byte>, blocks: seq<Block>, c: nat, d: int): (t: seq<Byte>)
    requires |s| == 3 * PAGE && Ascending(blocks) && c < |blocks|
    ensures |t| == |s|
  {
    Undo(s, PAGE, blocks[c].entries, |blocks[c].entries|, d)
  }

  /** Everything the page's restoration rests on. */
  ghost predicate Restorable(img: seq<Byte>, load: seq<Byte>, blocks: seq<Block>, d: int, c: nat, s: seq<Byte>,
                             withPrevious: bool)
  {
    && Ascending(blocks) && SitesApart(blocks, |img|) && Relocated(img, load, blocks, d)
    && c < |blocks| && Staged(s, load, blocks, c, withPrevious)
    && (withPrevious <==> HasPrevious(blocks, c) && NearEnd(blocks[c - 1].entries))
  }

  /** After the previous page's entries, the bytes of this page that belong to its own
      sites are still the loaded ones. */
  lemma OwnBytes(img: seq<Byte>, load: seq<Byte>, blocks: seq<Block>, d: int, c: nat, s: seq<Byte>, w: bool, j: int,
                 k: int)
    requires Restorable(img, load, blocks, d, c, s, w) && Covers(blocks, c, j, blocks[c].va + k) && 0 <= k < PAGE
    ensures AfterPrevious(s, blocks, c, w, d)[PAGE + k] == load[blocks[c].va + k]
  {
    hide Relocated, Undo;
    StagedByte(s, load, blocks, c, w, k);
    if w {
      var e := blocks[c - 1].entries;
      PreviousIsAdjacent(blocks, c);
      forall i | 0 <= i < |e| && e[i].kind == HIGHLOW ensures !(e[i].offset <= PAGE + k < e[i].offset + 4) {
        assert IsSite(blocks, c - 1, i) && IsSite(blocks, c, j);
      }
      UndoElsewhere(s, 0, e, |e|, d, PAGE + k);
    }
  }

  lemma PreviousIsAdjacent(blocks: seq<Block>, c: nat)
    requires Ascending(blocks) && HasPrevious(blocks, c)
    ensures blocks[c].va == blocks[c - 1].va + PAGE
  {
    AlignedBetween(blocks[c - 1].va, blocks[c].va);
  }

  /** A byte of one of the page's own sites comes back. Bytes of the site beyond the
      page do not matter, because they lie above it in the word. */
  lemma OwnSiteRestored(img: seq<Byte>, load: seq<Byte>, blocks: seq<Block>, d: int, c: nat, s: seq<Byte>, w: bool,
                        j: int, k: int)
    requires Restorable(img, load, blocks, d, c, s, w) && Covers(blocks, c, j, blocks[c].va + k) && 0 <= k < PAGE
    ensures AfterPage(AfterPrevious(s, blocks, c, w, d), blocks, c, d)[PAGE + k] == img[blocks[c].va + k]
  {
    hide Undo, At32, ByteOf, EntriesApart;
    var e, o := blocks[c].entries, blocks[c].entries[j].offset;
    var t := AfterPrevious(s, blocks, c, w, d);
    var u := AfterPage(t, blocks, c, d);
    var a, b := Address(blocks, c, j), k - o;
    BlockEntriesApart(blocks, |img|, c);
    UndoAtSite(t, PAGE, e, |e|, d, j);
    OwnSiteLow(img, load, blocks, d, c, s, w, j, k);
    SubtractLow(At32(t, PAGE + o), At32(load, a), d, b);
    SubtractAdded(At32(img, a), d);
    At32Bytes(u, PAGE + o, b);
    At32Bytes(img, a, b);
  }

  lemma OwnSiteLow(img: seq<Byte>, load: seq<Byte>, blocks: seq<Block>, d: int, c: nat, s: seq<Byte>, w: bool,
                   j: int, k: int)
    requires Restorable(img, load, blocks, d, c, s, w) && Covers(blocks, c, j, blocks[c].va + k) && 0 <= k < PAGE
    ensures At32(AfterPrevious(s, blocks, c, w, d), PAGE + blocks[c].entries[j].offset)
              % Scale(k - blocks[c].entries[j].offset + 1)
         == At32(load, Address(blocks, c, j)) % Scale(k - blocks[c].entries[j].offset + 1)
  {
    hide Undo, At32, ByteOf, EntriesApart;
    var o := blocks[c].entries[j].offset;
    var t := AfterPrevious(s, blocks, c, w, d);
    var a, b := Address(blocks, c, j), k - o;
    var x, y := t[PAGE + o..PAGE + o + b + 1], load[a..a + b + 1];
    forall i | 0 <= i <= b ensures x[i] == y[i] {
      assert Covers(blocks, c, j, blocks[c].va + o + i);
      OwnBytes(img, load, blocks, d, c, s, w, j, o + i);
    }
    assert x == y;
    At32Low(t, PAGE + o, load, a, b);
  }

  /** So does a byte of a site that starts on the previous page: both its pages are in
      the buffer, so the borrow crosses the boundary. */
  lemma PreviousSiteRestored(img: seq<Byte>, load: seq<Byte>, blocks: seq<Block>, d: int, c: nat, s: seq<Byte>,
                             j: int, k: int)
    requires Restorable(img, load, blocks, d, c, s, true) && Covers(blocks, c - 1, j, blocks[c].va + k) && 0 <= k < PAGE
    ensures AfterPage(AfterPrevious(s, blocks, c, true, d), blocks, c, d)[PAGE + k] == img[blocks[c].va + k]
  {
    hide Undo, At32, ByteOf, EntriesApart;
    PreviousIsAdjacent(blocks, c);
    var e, o := blocks[c - 1].entries, blocks[c - 1].entries[j].offset;
    var t := AfterPrevious(s, blocks, c, true, d);
    var a, b := Address(blocks, c - 1, j), PAGE + k - o;
    BlockEntriesApart(blocks, |img|, c - 1);
    UndoAtSite(s, 0, e, |e|, d, j);
    var x, y := s[o..o + 4], load[a..a + 4];
    forall i | 0 <= i < 4 ensures x[i] == y[i] {
      StagedByte(s, load, blocks, c, true, o + i - PAGE);
    }
    assert x == y;
    At32Low(s, o, load, a, 3);
    SubtractLow(At32(s, o), At32(load, a), d, b);
    SubtractAdded(At32(img, a), d);
    At32Bytes(t, o, b);
    At32Bytes(img, a, b);
    KeptByPage(img, blocks, d, c, t, c - 1, j, k);
  }

  /** The page's own entries leave the bytes of other sites alone. */
  lemma KeptByPage(img: seq<Byte>, blocks: seq<Block>, d: int, c: nat, t: seq<Byte>, i: int, j: int, k: int)
    requires Ascending(blocks) && SitesApart(blocks, |img|) && c < |blocks| && |t| == 3 * PAGE && 0 <= k < PAGE
    requires i != c
    requires Covers(blocks, i, j, blocks[c].va + k)
    ensures AfterPage(t, blocks, c, d)[PAGE + k] == t[PAGE + k]
  {
    hide Undo;
    var e := blocks[c].entries;
    forall n | 0 <= n < |e| && e[n].kind == HIGHLOW ensures !(PAGE + e[n].offset <= PAGE + k < PAGE + e[n].offset + 4) {
      assert IsSite(blocks, c, n);
    }
    UndoElsewhere(t, PAGE, e, |e|, d, PAGE + k);
  }

  /** And a byte that belongs to no site was never changed. */
  lemma PlainByteRestored(img: seq<Byte>, load: seq<Byte>, blocks: seq<Block>, d: int, c: nat, s: seq<Byte>, w: bool,
                          k: int)
    requires Restorable(img, load, blocks, d, c, s, w) && 0 <= k < PAGE
    requires Uncovered(blocks, blocks[c].va + k)
    ensures AfterPage(AfterPrevious(s, blocks, c, w, d), blocks, c, d)[PAGE + k] == img[blocks[c].va + k]
  {
    hide Undo, At32;
    StagedByte(s, load, blocks, c, w, k);
    if w {
      PreviousIsAdjacent(blocks, c);
      var e := blocks[c - 1].entries;
      forall n | 0 <= n < |e| && e[n].kind == HIGHLOW ensures !(e[n].offset <= PAGE + k < e[n].offset + 4) {
        assert !Covers(blocks, c - 1, n, blocks[c].va + k);
        assert IsSite(blocks, c - 1, n);
      }
      UndoElsewhere(s, 0, e, |e|, d, PAGE + k);
    }
    var e := blocks[c].entries;
    forall n | 0 <= n < |e| && e[n].kind == HIGHLOW ensures !(PAGE + e[n].offset <= PAGE + k < PAGE + e[n].offset + 4) {
      assert !Covers(blocks, c, n, blocks[c].va + k);
      assert IsSite(blocks, c, n);
    }
    UndoElsewhere(AfterPrevious(s, blocks, c, w, d), PAGE, e, |e|, d, PAGE + k);
  }

  /** The middle page of the buffer ends up as it was before the image was relocated. */
  lemma PageRestored(img: seq<Byte>, load: seq<Byte>, blocks: seq<Block>, d: int, c: nat, s: seq<Byte>, w: bool)
    requires Restorable(img, load, blocks, d, c, s, w)
    ensures AfterPage(AfterPrevious(s, blocks, c, w, d), blocks, c, d)[PAGE..2 * PAGE]
         == img[blocks[c].va..blocks[c].va + PAGE]
  {
    var x := AfterPage(AfterPrevious(s, blocks, c, w, d), blocks, c, d)[PAGE..2 * PAGE];
    var y := img[blocks[c].va..blocks[c].va + PAGE];
    forall k | 0 <= k < PAGE ensures x[k] == y[k] {
      ByteRestored(img, load, blocks, d, c, s, w, k);
    }
  }

  lemma ByteRestored(img: seq<Byte>, load: seq<Byte>, blocks: seq<Block>, d: int, c: nat, s: seq<Byte>, w: bool, k: int)
    requires Restorable(img, load, blocks, d, c, s, w) && 0 <= k < PAGE
    ensures AfterPage(AfterPrevious(s, blocks, c, w, d), blocks, c, d)[PAGE + k] == img[blocks[c].va + k]
  {
    hide AfterPage, AfterPrevious, Relocated, SitesApart;
    var x := blocks[c].va + k;
    if i, j :| Covers(blocks, i, j, x) {
      WhoCovers(blocks, c, i, j, x);
      if i == c {
        OwnSiteRestored(img, load, blocks, d, c, s, w, j, k);
      } else {
        PreviousSiteRestored(img, load, blocks, d, c, s, j, k);
      }
    } else {
      PlainByteRestored(img, load, blocks, d, c, s, w, k);
    }
  }
}
