/** When taking memory back from a PAL halts: scode_unregister clears and returns section
    after section and page after page, each step changing the tables that the next one
    checks. Whether it gets through can be read off the tables it starts from. */
module TvReturnable {
  import opened TvPages
  import opened TvGiveBack

  predicate CanRead(pal: Pal, p: Page) {
    p in pal.npt && pal.npt[p].read
  }

  predicate CanWrite(pal: Pal, p: Page) {
    p in pal.npt && pal.npt[p].write
  }

  predicate LeadsTo(pal: Pal, v: Page, p: Page) {
    v in pal.gpt && pal.gpt[v].gpa == p
  }

  /** Page p is as it was in the nested table. */
  predicate SameAt(pal: Pal, pal': Pal, p: Page) {
    (p in pal'.npt <==> p in pal.npt) && (p in pal.npt ==> pal'.npt[p] == pal.npt[p])
  }

  /** Virtual page v of a section of type t passes the checks on its own. */
  predicate Usable(pal: Pal, t: SectionType, v: Page) {
    && v in pal.gpt && CanRead(pal, pal.gpt[v].gpa)
    && (MustClear(t) ==> pal.gpt[v].prot.write && CanWrite(pal, pal.gpt[v].gpa))
  }

  /** Two virtual pages lead to the same page. */
  predicate Clash(pal: Pal, v: Page, u: Page) {
    v in pal.gpt && u in pal.gpt && pal.gpt[v].gpa == pal.gpt[u].gpa
  }

  /** Every page of the first n sections passes the checks on its own, and no two of them
      lead to the same page. */
  ghost predicate Returnable(pal: Pal, ss: seq<Section>, n: nat)
    requires n <= |ss|
  {
    && (forall j, v :: 0 <= j < n && Covers(ss[j], v) ==> Usable(pal, ss[j].typ, v))
    && (forall j, k, v, u :: 0 <= j < n && 0 <= k < n && Covers(ss[j], v) && Covers(ss[k], u) && (j != k || v != u) ==>
          !Clash(pal, v, u))
  }

  // ------------------------------------------------------------- one section

  /** What returning n pages of a section does to virtual page v and to page p. */
  lemma {:induction false} ReturnPagesState(reg: Table, pal: Pal, s: Section, n: nat, v: Page, p: Page)
    requires ReturnPages(reg, pal, s, n).Some?
    ensures var pal' := ReturnPages(reg, pal, s, n).value.1;
      && pal'.own == pal.own && (v in pal'.gpt <==> v in pal.gpt)
      && (v in pal.gpt ==> pal'.gpt[v].gpa == pal.gpt[v].gpa)
      && (v in pal.gpt && !(s.start <= v < s.start + n) ==> pal'.gpt[v] == pal.gpt[v])
      && (!BelongsTo(pal, s, n, p) ==> SameAt(pal, pal', p))
      && (BelongsTo(pal, s, n, p) ==> !CanRead(pal', p))
  {
    if n > 0 {
      ReturnPagesState(reg, pal, s, n - 1, v, p);
      ReturnPagesState(reg, pal, s, n - 1, s.start + (n - 1), p);
      BelongsStep(pal, s, n, p);
    }
  }

  /** The first n pages of a section are mapped to readable pages, all different. */
  ghost predicate PagesReturnable(pal: Pal, s: Section, n: nat) {
    && (forall v :: s.start <= v < s.start + n ==> v in pal.gpt && CanRead(pal, pal.gpt[v].gpa))
    && (forall v, u :: s.start <= v < u < s.start + n ==> !Clash(pal, v, u))
  }

  lemma {:induction false} ReturnPagesIff(reg: Table, pal: Pal, s: Section, n: nat)
    ensures ReturnPages(reg, pal, s, n).Some? <==> PagesReturnable(pal, s, n)
  {
    if n > 0 {
      ReturnPagesIff(reg, pal, s, n - 1);
      if ReturnPages(reg, pal, s, n - 1).Some? {
        ReturnPageIff(reg, pal, s, n);
      }
    }
  }

  lemma ReturnPageIff(reg: Table, pal: Pal, s: Section, n: nat)
    requires n > 0 && ReturnPages(reg, pal, s, n - 1).Some? && PagesReturnable(pal, s, n - 1)
    ensures ReturnPages(reg, pal, s, n).Some? <==> PagesReturnable(pal, s, n)
  {
    var v := s.start + (n - 1);
    var pal1 := ReturnPages(reg, pal, s, n - 1).value.1;
    ReturnPagesState(reg, pal, s, n - 1, v, 0);
    if v in pal.gpt {
      var p := pal.gpt[v].gpa;
      ReturnPagesState(reg, pal, s, n - 1, v, p);
      if BelongsTo(pal, s, n - 1, p) {
        var u :| s.start <= u < v && u in pal.gpt && pal.gpt[u].gpa == p;
        assert Clash(pal, u, v);
      }
    }
  }

  lemma {:induction false} ZeroPagesIff(mem: Memory, pal: Pal, s: Section, n: nat)
    ensures ZeroPages(mem, pal, s, n).Some? <==> forall v :: s.start <= v < s.start + n ==>
      v in pal.gpt && pal.gpt[v].prot.write && CanWrite(pal, pal.gpt[v].gpa)
  {
    if n > 0 { ZeroPagesIff(mem, pal, s, n - 1); }
  }

  /** Every page of a section passes the checks on its own, and no two clash. */
  ghost predicate SectionReturnable(pal: Pal, s: Section) {
    && (forall v :: Covers(s, v) ==> Usable(pal, s.typ, v))
    && (forall v, u :: Covers(s, v) && Covers(s, u) && v != u ==> !Clash(pal, v, u))
  }

  lemma SectionIff(w: World, s: Section)
    ensures GiveBackSection(w, s).Some? <==> SectionReturnable(w.pal, s)
  {
    var n := Pages(s);
    ReturnPagesIff(w.reg, w.pal, s, n);
    ZeroPagesIff(w.mem, w.pal, s, n);
    if SectionReturnable(w.pal, s) {
      forall v: Page | s.start <= v < s.start + n
        ensures v in w.pal.gpt && CanRead(w.pal, w.pal.gpt[v].gpa)
        ensures MustClear(s.typ) ==> w.pal.gpt[v].prot.write && CanWrite(w.pal, w.pal.gpt[v].gpa)
      {
        assert Covers(s, v);
      }
      forall v: Page, u: Page | s.start <= v < u < s.start + n ensures !Clash(w.pal, v, u) {
        assert Covers(s, v) && Covers(s, u);
      }
    } else if GiveBackSection(w, s).Some? {
      forall v: Page, u: Page | Covers(s, v) && Covers(s, u) && v < u
        ensures !Clash(w.pal, v, u) && !Clash(w.pal, u, v)
      {
      }
    }
  }

  // ------------------------------------------------------------ all sections

  /** A page of the first n sections leads to p. */
  ghost predicate Taken(pal: Pal, ss: seq<Section>, n: nat, p: Page)
    requires n <= |ss|
  {
    exists j, v :: 0 <= j < n && Covers(ss[j], v) && LeadsTo(pal, v, p)
  }

  lemma {:induction false} GiveBackState(w: World, ss: seq<Section>, n: nat, v: Page, p: Page)
    requires n <= |ss| && GiveBack(w, ss, n).Some?
    ensures var pal' := GiveBack(w, ss, n).value.pal;
      && pal'.own == w.pal.own && (v in pal'.gpt <==> v in w.pal.gpt)
      && (v in w.pal.gpt ==> pal'.gpt[v].gpa == w.pal.gpt[v].gpa)
      && (v in w.pal.gpt && (forall j :: 0 <= j < n ==> !Covers(ss[j], v)) ==> pal'.gpt[v] == w.pal.gpt[v])
      && (!Taken(w.pal, ss, n, p) ==> SameAt(w.pal, pal', p))
      && (Taken(w.pal, ss, n, p) ==> !CanRead(pal', p))
    decreases n, 1
  {
    if n > 0 {
      GiveBackState(w, ss, n - 1, v, p);
      var w1, s := GiveBack(w, ss, n - 1).value, ss[n - 1];
      ReturnPagesState(w1.reg, w1.pal, s, Pages(s), v, p);
      TakenStep(w, ss, n, p);
    }
  }

  lemma TakenStep(w: World, ss: seq<Section>, n: nat, p: Page)
    requires 0 < n <= |ss| && GiveBack(w, ss, n - 1).Some?
    ensures var pal1 := GiveBack(w, ss, n - 1).value.pal;
      Taken(w.pal, ss, n, p) <==> Taken(w.pal, ss, n - 1, p) || PageOf(pal1, ss[n - 1], p)
    decreases n, 0
  {
    var pal1, s := GiveBack(w, ss, n - 1).value.pal, ss[n - 1];
    if Taken(w.pal, ss, n, p) {
      var j, v: Page :| 0 <= j < n && Covers(ss[j], v) && LeadsTo(w.pal, v, p);
      if j == n - 1 {
        GiveBackState(w, ss, n - 1, v, p);
        assert s.start <= v < s.start + Pages(s) && v in pal1.gpt && pal1.gpt[v].gpa == p;
      }
    }
    if PageOf(pal1, s, p) {
      var v: Page :| s.start <= v < s.start + Pages(s) && v in pal1.gpt && pal1.gpt[v].gpa == p;
      GiveBackState(w, ss, n - 1, v, p);
      assert Covers(ss[n - 1], v) && LeadsTo(w.pal, v, p);
    }
  }

  /** A page passes the checks in its turn exactly when it passes them at the start and
      none of the earlier pages leads to the same page. */
  lemma UsableInTurn(w: World, ss: seq<Section>, n: nat, t: SectionType, v: Page)
    requires n <= |ss| && GiveBack(w, ss, n).Some?
    ensures Usable(GiveBack(w, ss, n).value.pal, t, v) <==>
      Usable(w.pal, t, v) && !Taken(w.pal, ss, n, w.pal.gpt[v].gpa)
  {
    GiveBackState(w, ss, n, v, 0);
    if v in w.pal.gpt {
      var p := w.pal.gpt[v].gpa;
      GiveBackState(w, ss, n, v, p);
      if !Taken(w.pal, ss, n, p) {
        forall j | 0 <= j < n ensures !Covers(ss[j], v) { assert LeadsTo(w.pal, v, p); }
      }
    }
  }

  /** scode_unregister gets through the first n sections exactly when every page of them
      is mapped to a readable page, a writable one where it is to be cleared, and no two
      to the same one. This is for any tables and any sections, overlapping or not. */
  lemma {:induction false} GiveBackIff(w: World, ss: seq<Section>, n: nat)
    requires n <= |ss|
    ensures GiveBack(w, ss, n).Some? <==> Returnable(w.pal, ss, n)
  {
    if n > 0 {
      GiveBackIff(w, ss, n - 1);
      if GiveBack(w, ss, n - 1).Some? {
        SectionIff(GiveBack(w, ss, n - 1).value, ss[n - 1]);
        if GiveBack(w, ss, n).Some? { NextFits(w, ss, n); }
        if Returnable(w.pal, ss, n) { NextWorks(w, ss, n); }
      }
    }
  }

  lemma NextWorks(w: World, ss: seq<Section>, n: nat)
    requires 0 < n <= |ss| && GiveBack(w, ss, n - 1).Some? && Returnable(w.pal, ss, n)
    ensures GiveBack(w, ss, n).Some?
  {
    var w1, s := GiveBack(w, ss, n - 1).value, ss[n - 1];
    forall v: Page | Covers(s, v) ensures Usable(w1.pal, s.typ, v) {
      UsableInTurn(w, ss, n - 1, s.typ, v);
      assert Usable(w.pal, ss[n - 1].typ, v);
      if Taken(w.pal, ss, n - 1, w.pal.gpt[v].gpa) {
        var j, u: Page :| 0 <= j < n - 1 && Covers(ss[j], u) && LeadsTo(w.pal, u, w.pal.gpt[v].gpa);
        assert Clash(w.pal, u, v);
      }
    }
    forall v: Page, u: Page | Covers(s, v) && Covers(s, u) && v != u ensures !Clash(w1.pal, v, u) {
      GiveBackState(w, ss, n - 1, v, 0);
      GiveBackState(w, ss, n - 1, u, 0);
      assert !Clash(w.pal, v, u);
    }
    SectionIff(w1, s);
  }

  lemma NextFits(w: World, ss: seq<Section>, n: nat)
    requires 0 < n <= |ss| && GiveBack(w, ss, n).Some? && Returnable(w.pal, ss, n - 1)
    ensures Returnable(w.pal, ss, n)
  {
    var w1, s := GiveBack(w, ss, n - 1).value, ss[n - 1];
    SectionIff(w1, s);
    forall v: Page | Covers(s, v) ensures Usable(w.pal, s.typ, v) && !Taken(w.pal, ss, n - 1, w.pal.gpt[v].gpa) {
      UsableInTurn(w, ss, n - 1, s.typ, v);
    }
    forall j, k, v: Page, u: Page |
      0 <= j < n && 0 <= k < n && Covers(ss[j], v) && Covers(ss[k], u) && (j != k || v != u)
      ensures !Clash(w.pal, v, u)
    {
      if j == n - 1 && k == n - 1 {
        GiveBackState(w, ss, n - 1, v, 0);
        GiveBackState(w, ss, n - 1, u, 0);
      } else if Clash(w.pal, v, u) {
        assert LeadsTo(w.pal, v, w.pal.gpt[u].gpa) && LeadsTo(w.pal, u, w.pal.gpt[v].gpa);
      }
    }
  }

  // ------------------------------------------------------- what comes back

  /** Returning pages changes the guest table just at those pages. */
  lemma {:induction false} ReturnPagesGive(reg: Table, pal: Pal, s: Section, n: nat, p: Page)
    requires ReturnPages(reg, pal, s, n).Some?
    ensures var reg' := ReturnPages(reg, pal, s, n).value.0;
      && (BelongsTo(pal, s, n, p) ==> p in reg' && reg'[p] == RWX)
      && (!BelongsTo(pal, s, n, p) ==> (p in reg' <==> p in reg) && (p in reg ==> reg'[p] == reg[p]))
  {
    if n > 0 {
      ReturnPagesGive(reg, pal, s, n - 1, p);
      ReturnPagesState(reg, pal, s, n - 1, s.start + (n - 1), p);
      BelongsStep(pal, s, n, p);
    }
  }

  /** Clearing clears just those pages. */
  lemma {:induction false} ZeroPagesClear(mem: Memory, pal: Pal, s: Section, n: nat, p: Page)
    requires ZeroPages(mem, pal, s, n).Some?
    ensures var m := ZeroPages(mem, pal, s, n).value;
      && (BelongsTo(pal, s, n, p) ==> p in m && m[p] == ZeroBytes())
      && (!BelongsTo(pal, s, n, p) ==> (p in m <==> p in mem) && (p in mem ==> m[p] == mem[p]))
  {
    if n > 0 {
      ZeroPagesClear(mem, pal, s, n - 1, p);
      BelongsStep(pal, s, n, p);
    }
  }

  lemma SectionGives(w: World, s: Section, p: Page)
    requires GiveBackSection(w, s).Some?
    ensures PageOf(w.pal, s, p) ==> GivenBack(w, GiveBackSection(w, s).value, p, s.typ)
    ensures !PageOf(w.pal, s, p) ==> Untouched(w, GiveBackSection(w, s).value, p)
  {
    ReturnPagesGive(w.reg, w.pal, s, Pages(s), p);
    if MustClear(s.typ) { ZeroPagesClear(w.mem, w.pal, s, Pages(s), p); }
  }

  /** The pages of a section are the same when its turn comes. */
  lemma PagesInTurn(w: World, ss: seq<Section>, n: nat, s: Section, p: Page)
    requires n <= |ss| && GiveBack(w, ss, n).Some?
    ensures PageOf(GiveBack(w, ss, n).value.pal, s, p) <==> PageOf(w.pal, s, p)
  {
    var pal' := GiveBack(w, ss, n).value.pal;
    if PageOf(pal', s, p) {
      var v: Page :| s.start <= v < s.start + Pages(s) && v in pal'.gpt && pal'.gpt[v].gpa == p;
      GiveBackState(w, ss, n, v, p);
      assert v in w.pal.gpt && w.pal.gpt[v].gpa == p;
    }
    if PageOf(w.pal, s, p) {
      var v: Page :| s.start <= v < s.start + Pages(s) && v in w.pal.gpt && w.pal.gpt[v].gpa == p;
      GiveBackState(w, ss, n, v, p);
      assert v in pal'.gpt && pal'.gpt[v].gpa == p;
    }
  }

  /** No page is part of two sections that are handed back. */
  lemma ReturnedOnce(pal: Pal, ss: seq<Section>, n: nat, i: nat, j: nat, p: Page)
    requires n <= |ss| && Returnable(pal, ss, n) && i < j < n && PageOf(pal, ss[i], p)
    ensures !PageOf(pal, ss[j], p)
  {
    var v: Page :| ss[i].start <= v < ss[i].start + Pages(ss[i]) && v in pal.gpt && pal.gpt[v].gpa == p;
    forall u: Page | ss[j].start <= u < ss[j].start + Pages(ss[j]) && u in pal.gpt ensures pal.gpt[u].gpa != p {
      assert Covers(ss[i], v) && Covers(ss[j], u) && !Clash(pal, v, u);
    }
  }

  /** Whenever scode_unregister gets through, for any tables and sections: each page of each
      section is handed back, cleared where it must be, and no other page is touched. */
  lemma {:induction false} GiveBackGives(w: World, ss: seq<Section>, n: nat, p: Page)
    requires n <= |ss| && GiveBack(w, ss, n).Some?
    ensures forall i :: 0 <= i < n && PageOf(w.pal, ss[i], p) ==>
      GivenBack(w, GiveBack(w, ss, n).value, p, ss[i].typ)
    ensures (forall i :: 0 <= i < n ==> !PageOf(w.pal, ss[i], p)) ==> Untouched(w, GiveBack(w, ss, n).value, p)
  {
    hide PageOf, Returnable;
    if n > 0 {
      GiveBackGives(w, ss, n - 1, p);
      GiveBackIff(w, ss, n);
      var w1, s := GiveBack(w, ss, n - 1).value, ss[n - 1];
      SectionGives(w1, s, p);
      PagesInTurn(w, ss, n - 1, s, p);
      forall i | 0 <= i < n - 1 && PageOf(w.pal, ss[i], p) ensures !PageOf(w.pal, s, p) {
        ReturnedOnce(w.pal, ss, n, i, n - 1, p);
      }
    }
  }

  /** The whole of scode_unregister for a consistent PAL: it does not halt; every
      page of every section is the guest's again, and all zero if it was data,
      parameter, stack or shared memory; nothing else changes; and the PAL keeps
      nothing but its page tables. */
  lemma GiveBackAll(w: World)
    requires Consistent(w.pal)
    ensures GiveBack(w, w.pal.sections, |w.pal.sections|).Some?
    ensures var ss, w' := w.pal.sections, GiveBack(w, w.pal.sections, |w.pal.sections|).value;
      && (forall i, p :: 0 <= i < |ss| && PageOf(w.pal, ss[i], p) ==> GivenBack(w, w', p, ss[i].typ))
      && (forall p :: (forall i :: 0 <= i < |ss| ==> !PageOf(w.pal, ss[i], p)) ==> Untouched(w, w', p))
      && (forall p :: Accessible(w'.pal.npt, p) ==> p in w.pal.own)
  {
    hide Agree, MadeUp, PageOf, GivenBack, Untouched;
    var ss := w.pal.sections;
    var cov :| Agree(w.pal, cov) && MadeUp(ss, cov);
    GiveBackWorks(w, cov, ss, |ss|);
    var w' := GiveBack(w, ss, |ss|).value;
    GiveBackState(w, ss, |ss|, 0, 0);
    NothingRemains(cov, ss);
    OnlyOwn(w'.pal, Remaining(cov, ss, |ss|));
    forall i, p | 0 <= i < |ss| && PageOf(w.pal, ss[i], p) ensures GivenBack(w, w', p, ss[i].typ) {
      GiveBackGives(w, ss, |ss|, p);
    }
    forall p | forall i :: 0 <= i < |ss| ==> !PageOf(w.pal, ss[i], p) ensures Untouched(w, w', p) {
      GiveBackGives(w, ss, |ss|, p);
    }
  }
}
