/** The loader's side of relocation, as the partner of undoing it. */
module PeLoader {
  import opened ByteNumbers
  import opened Arith
  import opened PeBytes
  import opened PeReloc

  lemma BlockFits(blocks: seq<Block>, size: nat, i: nat)
    requires SitesApart(blocks, size) && i < |blocks|
    ensures Fits(blocks[i].entries, blocks[i].va, size)
  {
    var e := blocks[i].entries;
    forall j | 0 <= j < |e| && e[j].kind == HIGHLOW ensures blocks[i].va + e[j].offset + 4 <= size {
      assert IsSite(blocks, i, j);
    }
  }

  /** The image after the loader has applied the first n blocks: it adds d where undoing
      subtracts it. */
  ghost function Load(img: seq<Byte>, blocks: seq<Block>, n: nat, d: int): (t: seq<Byte>)
    requires SitesApart(blocks, |img|) && n <= |blocks|
    ensures |t| == |img|
  {
    if n == 0 then img
    else
      BlockFits(blocks, |img|, n - 1);
      var b := blocks[n - 1];
      Undo(Load(img, blocks, n - 1, d), b.va, b.entries, |b.entries|, -d)
  }

  /** A byte outside the sites of the first n blocks is the image's. */
  lemma {:induction false} LoadElsewhere(img: seq<Byte>, blocks: seq<Block>, n: nat, d: int, k: nat)
    requires SitesApart(blocks, |img|) && n <= |blocks| && k < |img|
    requires forall i, j :: Covers(blocks, i, j, k) ==> i >= n
    ensures Load(img, blocks, n, d)[k] == img[k]
  {
    if n > 0 {
      hide SitesApart, Undo;
      LoadElsewhere(img, blocks, n - 1, d, k);
      BlockFits(blocks, |img|, n - 1);
      var b := blocks[n - 1];
      forall j | 0 <= j < |b.entries| && b.entries[j].kind == HIGHLOW
        ensures !(b.va + b.entries[j].offset <= k < b.va + b.entries[j].offset + 4)
      {
        assert !Covers(blocks, n - 1, j, k);
        assert IsSite(blocks, n - 1, j);
      }
      UndoElsewhere(Load(img, blocks, n - 1, d), b.va, b.entries, |b.entries|, -d, k);
    }
  }

  /** The bytes of a site are touched by its own block only. */
  lemma SiteAlone(blocks: seq<Block>, size: nat, i: int, j: int, k: int, i': int, j': int)
    requires SitesApart(blocks, size) && Covers(blocks, i, j, k) && i' != i
    ensures !Covers(blocks, i', j', k)
  {
  }

  lemma {:induction false} LoadAtSite(img: seq<Byte>, blocks: seq<Block>, n: nat, d: int, i: int, j: int)
    requires SitesApart(blocks, |img|) && n <= |blocks| && IsSite(blocks, i, j) && i < n
    ensures At32(Load(img, blocks, n, d), Address(blocks, i, j)) == (At32(img, Address(blocks, i, j)) + d) % WRAP
  {
    hide Undo, At32;
    var a := Address(blocks, i, j);
    var t := Load(img, blocks, n - 1, d);
    var b := blocks[n - 1];
    BlockFits(blocks, |img|, n - 1);
    if i == n - 1 {
      BlockEntriesApart(blocks, |img|, i);
      UndoAtSite(t, b.va, b.entries, |b.entries|, -d, j);
      forall k | a <= k < a + 4 ensures t[k] == img[k] {
        SiteBytesBefore(img, blocks, n - 1, d, i, j, k);
      }
      SameWord(t, img, a);
    } else {
      LoadAtSite(img, blocks, n - 1, d, i, j);
      var u := Load(img, blocks, n, d);
      forall k | a <= k < a + 4 ensures u[k] == t[k] {
        SiteBytesAfter(img, blocks, n, d, i, j, k);
      }
      SameWord(t, u, a);
    }
  }

  lemma SiteBytesBefore(img: seq<Byte>, blocks: seq<Block>, n: nat, d: int, i: int, j: int, k: int)
    requires SitesApart(blocks, |img|) && n <= i && Covers(blocks, i, j, k)
    ensures Load(img, blocks, n, d)[k] == img[k]
  {
    forall i', j' | i' < n ensures !Covers(blocks, i', j', k) {
      SiteAlone(blocks, |img|, i, j, k, i', j');
    }
    LoadElsewhere(img, blocks, n, d, k);
  }

  lemma SiteBytesAfter(img: seq<Byte>, blocks: seq<Block>, n: nat, d: int, i: int, j: int, k: int)
    requires SitesApart(blocks, |img|) && 0 <= i < n - 1 < |blocks| && Covers(blocks, i, j, k)
    ensures Load(img, blocks, n, d)[k] == Load(img, blocks, n - 1, d)[k]
  {
    var b := blocks[n - 1];
    BlockFits(blocks, |img|, n - 1);
    forall j' | 0 <= j' < |b.entries| && b.entries[j'].kind == HIGHLOW
      ensures !(b.va + b.entries[j'].offset <= k < b.va + b.entries[j'].offset + 4)
    {
      assert IsSite(blocks, n - 1, j');
      SiteAlone(blocks, |img|, i, j, k, n - 1, j');
    }
    UndoElsewhere(Load(img, blocks, n - 1, d), b.va, b.entries, |b.entries|, -d, k);
  }

  /** What the loader produces is the image relocated by d. */
  lemma LoaderRelocates(img: seq<Byte>, blocks: seq<Block>, d: int)
    requires SitesApart(blocks, |img|)
    ensures Relocated(img, Load(img, blocks, |blocks|, d), blocks, d)
  {
    var load := Load(img, blocks, |blocks|, d);
    forall i, j | IsSite(blocks, i, j)
      ensures At32(load, Address(blocks, i, j)) == (At32(img, Address(blocks, i, j)) + d) % WRAP
    {
      LoadAtSite(img, blocks, |blocks|, d, i, j);
    }
    forall k | 0 <= k < |img| && Uncovered(blocks, k) ensures load[k] == img[k] {
      LoadElsewhere(img, blocks, |blocks|, d, k);
    }
  }

  // --------------------------------------------- pages without a block of their own

  /** A site begins before rva and reaches beyond it. */
  ghost predicate Straddles(blocks: seq<Block>, i: int, j: int, rva: int) {
    IsSite(blocks, i, j) && Address(blocks, i, j) < rva < Address(blocks, i, j) + 4
  }

  /** The page at rva is never changed by relocation, whatever the image holds. */
  ghost predicate NeverChanged(blocks: seq<Block>, d: int, size: nat, rva: nat)
    requires SitesApart(blocks, size) && rva + PAGE <= size
  {
    forall img: seq<Byte> :: |img| == size ==>
      Load(img, blocks, |blocks|, d)[rva..rva + PAGE] == img[rva..rva + PAGE]
  }

  lemma CoverStraddles(blocks: seq<Block>, i: int, j: int, rva: int, k: int)
    requires Ascending(blocks) && rva % PAGE == 0 && Covers(blocks, i, j, k) && rva <= k < rva + PAGE
    requires blocks[i].va != rva
    ensures Straddles(blocks, i, j, rva)
  {
    AlignedBetween(blocks[i].va, rva);
  }

  lemma UntouchedPage(img: seq<Byte>, blocks: seq<Block>, d: int, rva: nat)
    requires Ascending(blocks) && SitesApart(blocks, |img|) && rva % PAGE == 0 && rva + PAGE <= |img|
    requires (forall i :: 0 <= i < |blocks| ==> blocks[i].va != rva) && forall i, j :: !Straddles(blocks, i, j, rva)
    ensures Load(img, blocks, |blocks|, d)[rva..rva + PAGE] == img[rva..rva + PAGE]
  {
    var x, y := Load(img, blocks, |blocks|, d)[rva..rva + PAGE], img[rva..rva + PAGE];
    forall k | 0 <= k < PAGE ensures x[k] == y[k] {
      var z := rva + k;
      forall i, j ensures !Covers(blocks, i, j, z) {
        if Covers(blocks, i, j, z) { CoverStraddles(blocks, i, j, rva, z); }
      }
      LoadElsewhere(img, blocks, |blocks|, d, z);
    }
  }

  /** An image that shows the change: zero, but for low bytes that make a carry. */
  ghost function Telltale(size: nat, a: nat, rva: nat, carry: bool): (img: seq<Byte>)
    ensures |img| == size
  {
    seq(size, k => if carry && a <= k < rva then 0xff else 0)
  }

  /** Adding d != 0 to a word changes some byte above its low t bytes, for a word whose
      other bytes are zero and whose low bytes are right. */
  lemma SomethingMoves(t: nat, x: U32, d: U32)
    requires 0 < t < 4 && 0 < d && x == if d >= Scale(t) then 0 else Scale(t) - 1
    ensures (x + d) % WRAP / Scale(t) != x / Scale(t)
  {
    SomethingMovesBy(Scale(t), x, d);
  }

  lemma SomethingMovesBy(m: int, x: int, d: int)
    requires 0 < m <= 0x100_0000 && 0 < d < WRAP && x == if d >= m then 0 else m - 1
    ensures (x + d) % WRAP / m != x / m
  {
    if d >= m {
      DivModUnique(d, WRAP, 0, d);
      DivModUnique(0, m, 0, 0);
      DivModUnique(m, m, 1, 0);
      QuotientMonotone(m, d, m);
    } else {
      DivModUnique(x + d, WRAP, 0, x + d);
      DivModUnique(x + d, m, 1, x + d - m);
      DivModUnique(x, m, 0, x);
    }
  }

  /** The bytes from t up decide the quotient by the weight of byte t. */
  lemma HighBytes(s: seq<Byte>, u: seq<Byte>, a: nat, t: nat)
    requires a + 4 <= |s| == |u| && 0 < t < 4 && forall k :: a + t <= k < a + 4 ==> s[k] == u[k]
    ensures At32(s, a) / Scale(t) == At32(u, a) / Scale(t)
  {
    WordQuotient(s[a], s[a + 1], s[a + 2], s[a + 3]);
    WordQuotient(u[a], u[a + 1], u[a + 2], u[a + 3]);
  }

  lemma WordQuotient(a: Byte, b: Byte, c: Byte, d: Byte)
    ensures Word(a, b, c, d) / Scale(1) == Word(b, c, d, 0)
    ensures Word(a, b, c, d) / Scale(2) == Word(c, d, 0, 0)
    ensures Word(a, b, c, d) / Scale(3) == d
  {
    DivModUnique(Word(a, b, c, d), Scale(1), Word(b, c, d, 0), a);
    DivModUnique(Word(a, b, c, d), Scale(2), Word(c, d, 0, 0), Word(a, b, 0, 0));
    DivModUnique(Word(a, b, c, d), Scale(3), d, Word(a, b, c, 0));
  }

  lemma TelltaleWord(size: nat, a: nat, rva: nat, carry: bool)
    requires a < rva < a + 4 <= size
    ensures At32(Telltale(size, a, rva, carry), a) == if carry then Scale(rva - a) - 1 else 0
  {
  }

  lemma StraddleMoves(img: seq<Byte>, blocks: seq<Block>, d: U32, rva: nat, i: int, j: int)
    requires SitesApart(blocks, |img|) && rva + PAGE <= |img| && Straddles(blocks, i, j, rva)
    requires (At32(img, Address(blocks, i, j)) + d) % WRAP / Scale(rva - Address(blocks, i, j))
          != At32(img, Address(blocks, i, j)) / Scale(rva - Address(blocks, i, j))
    ensures Load(img, blocks, |blocks|, d)[rva..rva + PAGE] != img[rva..rva + PAGE]
  {
    hide At32, Load, Scale, SitesApart;
    var a := Address(blocks, i, j);
    var load := Load(img, blocks, |blocks|, d);
    LoadAtSite(img, blocks, |blocks|, d, i, j);
    var x, y := load[rva..rva + PAGE], img[rva..rva + PAGE];
    if x == y {
      forall k | rva <= k < a + 4 ensures load[k] == img[k] {
        assert x[k - rva] == y[k - rva];
      }
      HighBytes(load, img, a, rva - a);
    }
  }

  lemma StraddleChanges(blocks: seq<Block>, d: U32, size: nat, rva: nat, i: int, j: int)
    requires SitesApart(blocks, size) && rva + PAGE <= size && 0 < d && Straddles(blocks, i, j, rva)
    ensures !NeverChanged(blocks, d, size, rva)
  {
    hide At32, Load, Telltale, Scale;
    var a := Address(blocks, i, j);
    var t := rva - a;
    var carry := d < Scale(t);
    var img := Telltale(size, a, rva, carry);
    TelltaleWord(size, a, rva, carry);
    SomethingMoves(t, At32(img, a), d);
    StraddleMoves(img, blocks, d, rva, i, j);
  }

  /** A page without a block of its own is reported as needing nothing. That is right
      for every image exactly when no site of the page before reaches into it. */
  lemma NothingNeeded(blocks: seq<Block>, d: U32, size: nat, rva: nat)
    requires Ascending(blocks) && SitesApart(blocks, size) && rva % PAGE == 0 && rva + PAGE <= size && 0 < d
    requires forall i :: 0 <= i < |blocks| ==> blocks[i].va != rva
    ensures NeverChanged(blocks, d, size, rva) <==> forall i, j :: !Straddles(blocks, i, j, rva)
  {
    if i, j :| Straddles(blocks, i, j, rva) {
      StraddleChanges(blocks, d, size, rva, i, j);
    } else {
      forall img: seq<Byte> | |img| == size
        ensures Load(img, blocks, |blocks|, d)[rva..rva + PAGE] == img[rva..rva + PAGE]
      {
        UntouchedPage(img, blocks, d, rva);
      }
    }
  }
}
