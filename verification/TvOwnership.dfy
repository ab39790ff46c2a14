/** Lending and returning keep pages separate and the tables of a PAL consistent. */
module TvOwnership {
  import opened TvPages

  // ------------------------------------------------------------- separation

  /** Two tables reach the same pages, apart from page q. */
  ghost predicate SameBut(t: Table, u: Table, q: Page) {
    forall p :: p != q ==> (Accessible(t, p) <==> Accessible(u, p))
  }

  /** A page that only the guest reaches is taken from it and given to a PAL. */
  lemma MoveToPal(reg: Table, reg': Table, pals: map<int, Pal>, i: int, pal': Pal, q: Page)
    requires Separate(reg, pals) && i in pals && Accessible(reg, q) && !Accessible(reg', q)
    requires SameBut(reg, reg', q) && SameBut(pals[i].npt, pal'.npt, q)
    ensures Separate(reg', pals[i := pal'])
  {
  }

  /** A page that one PAL reaches is taken from it and given to the guest. */
  lemma MoveToGuest(reg: Table, reg': Table, pals: map<int, Pal>, i: int, pal': Pal, q: Page)
    requires Separate(reg, pals) && i in pals && Accessible(pals[i].npt, q) && !Accessible(pal'.npt, q)
    requires SameBut(reg, reg', q) && SameBut(pals[i].npt, pal'.npt, q)
    ensures Separate(reg', pals[i := pal'])
  {
  }

  lemma LendPageSeparate(reg: Table, pals: map<int, Pal>, i: int, s: Section, k: nat, walk: map<Page, Page>)
    requires Separate(reg, pals) && i in pals && Exclusive(s.typ) && LendPage(reg, pals[i], s, k, walk).Some?
    ensures var st := LendPage(reg, pals[i], s, k, walk).value; Separate(st.0, pals[i := st.1])
  {
    var st := LendPage(reg, pals[i], s, k, walk).value;
    MoveToPal(reg, st.0, pals, i, st.1, walk[s.start + k]);
  }

  lemma ReturnPageSeparate(reg: Table, pals: map<int, Pal>, i: int, s: Section, k: nat)
    requires Separate(reg, pals) && i in pals && ReturnPage(reg, pals[i], s, k).Some?
    ensures var st := ReturnPage(reg, pals[i], s, k).value; Separate(st.0, pals[i := st.1])
  {
    var st := ReturnPage(reg, pals[i], s, k).value;
    MoveToGuest(reg, st.0, pals, i, st.1, pals[i].gpt[s.start + k].gpa);
  }

  /** Any number of pages of a section. */
  lemma {:induction false} LendPagesSeparate(reg: Table, pals: map<int, Pal>, i: int, s: Section, n: nat,
                                             walk: map<Page, Page>)
    requires Separate(reg, pals) && i in pals && Exclusive(s.typ) && LendPages(reg, pals[i], s, n, walk).Some?
    ensures var st := LendPages(reg, pals[i], s, n, walk).value; Separate(st.0, pals[i := st.1])
  {
    if n == 0 {
      assert pals[i := pals[i]] == pals;
    } else {
      LendPagesSeparate(reg, pals, i, s, n - 1, walk);
      var st := LendPages(reg, pals[i], s, n - 1, walk).value;
      var pals' := pals[i := st.1];
      LendPageSeparate(st.0, pals', i, s, n - 1, walk);
      var st' := LendPage(st.0, st.1, s, n - 1, walk).value;
      assert pals'[i := st'.1] == pals[i := st'.1];
    }
  }

  lemma {:induction false} ReturnPagesSeparate(reg: Table, pals: map<int, Pal>, i: int, s: Section, n: nat)
    requires Separate(reg, pals) && i in pals && ReturnPages(reg, pals[i], s, n).Some?
    ensures var st := ReturnPages(reg, pals[i], s, n).value; Separate(st.0, pals[i := st.1])
  {
    if n == 0 {
      assert pals[i := pals[i]] == pals;
    } else {
      ReturnPagesSeparate(reg, pals, i, s, n - 1);
      var st := ReturnPages(reg, pals[i], s, n - 1).value;
      var pals' := pals[i := st.1];
      ReturnPageSeparate(st.0, pals', i, s, n - 1);
      var st' := ReturnPage(st.0, st.1, s, n - 1).value;
      assert pals'[i := st'.1] == pals[i := st'.1];
    }
  }

  // ------------------------------------------------------------ consistency

  /** A lent page extends the cover; it is none the PAL already had. */
  lemma LendPageMapped(reg: Table, pal: Pal, cov: Cover, s: Section, k: nat, walk: map<Page, Page>)
    requires Mapped(pal, cov) && Separate(reg, map[0 := pal]) && LendPage(reg, pal, s, k, walk).Some?
    ensures s.start + k !in cov && Mapped(LendPage(reg, pal, s, k, walk).value.1, cov[s.start + k := s.typ])
  {
    var v := s.start + k;
    var q, pal' := walk[v], LendPage(reg, pal, s, k, walk).value.1;
    assert 0 in map[0 := pal];
    assert Accessible(reg, q);
    assert v !in cov;
    forall u | u in cov ensures pal.gpt[u].gpa != q && Leads(pal', u, pal.gpt[u].gpa, cov[u]) {
      assert Accessible(pal.npt, pal.gpt[u].gpa);
    }
  }

  lemma LendPageConfined(reg: Table, pal: Pal, cov: Cover, s: Section, k: nat, walk: map<Page, Page>)
    requires Confined(pal, cov) && LendPage(reg, pal, s, k, walk).Some? && s.start + k !in cov
    ensures Confined(LendPage(reg, pal, s, k, walk).value.1, cov[s.start + k := s.typ])
  {
    var v := s.start + k;
    var q, pal', cov' := walk[v], LendPage(reg, pal, s, k, walk).value.1, cov[v := s.typ];
    forall p | Accessible(pal'.npt, p) ensures p in pal.own || Reached(pal', cov', p) {
      if p == q {
        assert v in cov' && pal'.gpt[v].gpa == p;
      } else if p !in pal.own {
        assert Reached(pal, cov, p);
        var u :| u in cov && u in pal.gpt && pal.gpt[u].gpa == p;
        assert u in cov' && pal'.gpt[u].gpa == p;
      }
    }
  }

  /** A page that was lent can be returned, and leaves the cover. */
  lemma ReturnPageMapped(reg: Table, pal: Pal, cov: Cover, s: Section, k: nat)
    requires Mapped(pal, cov) && s.start + k in cov
    ensures ReturnPage(reg, pal, s, k).Some?
    ensures Mapped(ReturnPage(reg, pal, s, k).value.1, cov - {s.start + k})
  {
    var v := s.start + k;
    var q := pal.gpt[v].gpa;
    assert Leads(pal, v, q, cov[v]);
    var pal', cov' := ReturnPage(reg, pal, s, k).value.1, cov - {v};
    forall u | u in cov' ensures Leads(pal', u, pal.gpt[u].gpa, cov[u]) {
      assert Leads(pal, u, pal.gpt[u].gpa, cov[u]);
    }
  }

  lemma ReturnPageConfined(reg: Table, pal: Pal, cov: Cover, s: Section, k: nat)
    requires Confined(pal, cov) && ReturnPage(reg, pal, s, k).Some?
    ensures Confined(ReturnPage(reg, pal, s, k).value.1, cov - {s.start + k})
  {
    var v := s.start + k;
    var pal', cov' := ReturnPage(reg, pal, s, k).value.1, cov - {v};
    forall p | Accessible(pal'.npt, p) ensures p in pal.own || Reached(pal', cov', p) {
      assert Accessible(pal.npt, p);
      if p !in pal.own {
        assert Reached(pal, cov, p);
        var u :| u in cov && u in pal.gpt && pal.gpt[u].gpa == p;
        assert u in cov' && pal'.gpt[u].gpa == p;
      }
    }
  }

  /** The section list does not matter. */
  lemma AgreeSections(pal: Pal, cov: Cover, ss: seq<Section>)
    ensures Agree(pal, cov) ==> Agree(pal.(sections := ss), cov)
  {
  }

  /** A cover with the first n pages of a section added, or taken out. */
  function Extended(cov: Cover, s: Section, n: nat): Cover {
    if n == 0 then cov else Extended(cov, s, n - 1)[s.start + (n - 1) := s.typ]
  }

  function Shrunk(cov: Cover, s: Section, n: nat): Cover {
    if n == 0 then cov else Shrunk(cov, s, n - 1) - {s.start + (n - 1)}
  }

  lemma {:induction false} ExtendedAt(cov: Cover, s: Section, n: nat, v: Page)
    ensures v in Extended(cov, s, n) <==> v in cov || s.start <= v < s.start + n
    ensures v in Extended(cov, s, n) ==> Extended(cov, s, n)[v] == if s.start <= v < s.start + n then s.typ else cov[v]
  {
    if n > 0 { ExtendedAt(cov, s, n - 1, v); }
  }

  lemma {:induction false} ShrunkAt(cov: Cover, s: Section, n: nat, v: Page)
    ensures v in Shrunk(cov, s, n) <==> v in cov && !(s.start <= v < s.start + n)
    ensures v in Shrunk(cov, s, n) ==> Shrunk(cov, s, n)[v] == cov[v]
  {
    if n > 0 { ShrunkAt(cov, s, n - 1, v); }
  }

  lemma {:induction false} LendPagesMapped(reg: Table, pal: Pal, cov: Cover, s: Section, n: nat, walk: map<Page, Page>)
    requires Mapped(pal, cov) && Separate(reg, map[0 := pal]) && Exclusive(s.typ)
    requires LendPages(reg, pal, s, n, walk).Some?
    ensures Mapped(LendPages(reg, pal, s, n, walk).value.1, Extended(cov, s, n))
    ensures forall v :: v in cov ==> !(s.start <= v < s.start + n)
  {
    hide Mapped;
    if n > 0 {
      LendPagesMapped(reg, pal, cov, s, n - 1, walk);
      LendPagesSeparate(reg, map[0 := pal], 0, s, n - 1, walk);
      var st := LendPages(reg, pal, s, n - 1, walk).value;
      assert map[0 := pal][0 := st.1] == map[0 := st.1];
      LendPageMapped(st.0, st.1, Extended(cov, s, n - 1), s, n - 1, walk);
      ExtendedAt(cov, s, n - 1, s.start + (n - 1));
    }
  }

  lemma {:induction false} LendPagesConfined(reg: Table, pal: Pal, cov: Cover, s: Section, n: nat, walk: map<Page,
                                             Page>)
    requires Confined(pal, cov) && LendPages(reg, pal, s, n, walk).Some?
    requires forall v :: v in cov ==> !(s.start <= v < s.start + n)
    ensures Confined(LendPages(reg, pal, s, n, walk).value.1, Extended(cov, s, n))
  {
    hide Confined;
    if n > 0 {
      LendPagesConfined(reg, pal, cov, s, n - 1, walk);
      var st := LendPages(reg, pal, s, n - 1, walk).value;
      ExtendedAt(cov, s, n - 1, s.start + (n - 1));
      LendPageConfined(st.0, st.1, Extended(cov, s, n - 1), s, n - 1, walk);
    }
  }

  /** Lending any number of pages keeps the tables in agreement with what was lent. */
  lemma LendPagesAgree(reg: Table, pal: Pal, cov: Cover, s: Section, n: nat, walk: map<Page, Page>)
    requires Agree(pal, cov) && Separate(reg, map[0 := pal]) && Exclusive(s.typ)
    requires LendPages(reg, pal, s, n, walk).Some?
    ensures Agree(LendPages(reg, pal, s, n, walk).value.1, Extended(cov, s, n))
    ensures forall v :: v in cov ==> !(s.start <= v < s.start + n)
  {
    hide Mapped, Confined;
    LendPagesMapped(reg, pal, cov, s, n, walk);
    LendPagesConfined(reg, pal, cov, s, n, walk);
  }

  lemma {:induction false} ReturnPagesMapped(reg: Table, pal: Pal, cov: Cover, s: Section, n: nat)
    requires Mapped(pal, cov) && forall v :: s.start <= v < s.start + n ==> v in cov
    ensures ReturnPages(reg, pal, s, n).Some?
    ensures Mapped(ReturnPages(reg, pal, s, n).value.1, Shrunk(cov, s, n))
  {
    hide Mapped;
    if n > 0 {
      ReturnPagesMapped(reg, pal, cov, s, n - 1);
      var st := ReturnPages(reg, pal, s, n - 1).value;
      ShrunkAt(cov, s, n - 1, s.start + (n - 1));
      ReturnPageMapped(st.0, st.1, Shrunk(cov, s, n - 1), s, n - 1);
    }
  }

  lemma {:induction false} ReturnPagesConfined(reg: Table, pal: Pal, cov: Cover, s: Section, n: nat)
    requires Confined(pal, cov) && ReturnPages(reg, pal, s, n).Some?
    ensures Confined(ReturnPages(reg, pal, s, n).value.1, Shrunk(cov, s, n))
  {
    hide Confined;
    if n > 0 {
      ReturnPagesConfined(reg, pal, cov, s, n - 1);
      var st := ReturnPages(reg, pal, s, n - 1).value;
      ReturnPageConfined(st.0, st.1, Shrunk(cov, s, n - 1), s, n - 1);
    }
  }

  /** Every page of a section that was lent can be returned. */
  lemma ReturnPagesAgree(reg: Table, pal: Pal, cov: Cover, s: Section, n: nat)
    requires Agree(pal, cov) && forall v :: s.start <= v < s.start + n ==> v in cov
    ensures ReturnPages(reg, pal, s, n).Some?
    ensures Agree(ReturnPages(reg, pal, s, n).value.1, Shrunk(cov, s, n))
  {
    hide Mapped, Confined;
    ReturnPagesMapped(reg, pal, cov, s, n);
    ReturnPagesConfined(reg, pal, cov, s, n);
  }

  /** Lending a section leaves the section list alone. */
  lemma {:induction false} LendPagesKeeps(reg: Table, pal: Pal, s: Section, n: nat, walk: map<Page, Page>)
    requires LendPages(reg, pal, s, n, walk).Some?
    ensures var pal' := LendPages(reg, pal, s, n, walk).value.1;
      pal'.sections == pal.sections && pal'.own == pal.own && pal'.info == pal.info
  {
    if n > 0 { LendPagesKeeps(reg, pal, s, n - 1, walk); }
  }

  /** scode_lend_section keeps a PAL consistent. */
  lemma {:induction false} LendSectionConsistent(reg: Table, pal: Pal, s: Section, walk: map<Page, Page>)
    requires Consistent(pal) && Separate(reg, map[0 := pal]) && Exclusive(s.typ)
    requires LendSection(reg, pal, s, walk).Some?
    ensures Consistent(LendSection(reg, pal, s, walk).value.1)
  {
    var cov :| Agree(pal, cov) && MadeUp(pal.sections, cov);
    var n := Pages(s);
    LendPagesAgree(reg, pal, cov, s, n, walk);
    LendPagesKeeps(reg, pal, s, n, walk);
    var cov' := Extended(cov, s, n);
    forall v ensures v in cov' <==> v in cov || Covers(s, v)
      ensures v in cov' ==> cov'[v] == if Covers(s, v) then s.typ else cov[v]
    {
      ExtendedAt(cov, s, n, v);
    }
    AgreeSections(LendPages(reg, pal, s, n, walk).value.1, cov', pal.sections + [s]);
    MadeUpAppend(pal.sections, cov, s, cov');
  }

  lemma MadeUpAppend(ss: seq<Section>, cov: Cover, s: Section, cov': Cover)
    requires MadeUp(ss, cov) && (forall v :: v in cov ==> !Covers(s, v))
    requires forall v :: v in cov' <==> v in cov || Covers(s, v)
    requires forall v :: v in cov' ==> cov'[v] == if Covers(s, v) then s.typ else cov[v]
    ensures MadeUp(ss + [s], cov')
  {
    var ss' := ss + [s];
    forall v | v in cov' ensures exists i :: 0 <= i < |ss'| && Covers(ss'[i], v) {
      if Covers(s, v) {
        assert Covers(ss'[|ss|], v);
      } else {
        var i :| 0 <= i < |ss| && Covers(ss[i], v);
        assert Covers(ss'[i], v);
      }
    }
    forall i, v | 0 <= i < |ss'| && Covers(ss'[i], v) ensures v in cov' && cov'[v] == ss'[i].typ {
      if i < |ss| { assert Covers(ss[i], v); }
    }
    forall i, j, v | 0 <= i < j < |ss'| && Covers(ss'[i], v) ensures !Covers(ss'[j], v) {
      assert Covers(ss[i], v);
    }
  }
}
