/** What every run keeps: no page is ever reachable from two sides. */
module TvSafety {
  import opened TvPages
  import opened TvOwnership
  import opened TvGiveBack
  import opened TvReturnable
  import opened TvRuns

  // --------------------------------------------------------------- one PAL

  /** A PAL reaches its page tables, and none of them is mapped in its guest table. */
  ghost predicate Held(pal: Pal) {
    && (forall p :: p in pal.own ==> Accessible(pal.npt, p))
    && (forall v :: v in pal.gpt ==> pal.gpt[v].gpa !in pal.own)
  }

  /** The PAL was not registered with a section over the sentinel return page. */
  predicate OffReturn(pal: Pal) {
    forall s :: s in pal.info ==> !Covers(s, RETURN_PAGE)
  }

  /** The PAL was registered with a SHARED section over it. */
  predicate SharedReturn(pal: Pal) {
    exists s :: s in pal.info && Covers(s, RETURN_PAGE) && s.typ == SHARED
  }

  /** While its sections are lent. */
  ghost predicate PalOk(pal: Pal) {
    Held(pal) && RETURN_PAGE !in pal.own && Consistent(pal)
  }

  lemma {:induction false} LendPagesHeld(reg: Table, pal: Pal, s: Section, n: nat, walk: map<Page, Page>)
    requires Held(pal) && Separate(reg, map[0 := pal]) && Exclusive(s.typ) && LendPages(reg, pal, s, n, walk).Some?
    ensures var pal' := LendPages(reg, pal, s, n, walk).value.1;
      Held(pal') && pal'.own == pal.own && pal'.info == pal.info
  {
    if n > 0 {
      LendPagesHeld(reg, pal, s, n - 1, walk);
      LendPagesSeparate(reg, map[0 := pal], 0, s, n - 1, walk);
      var st := LendPages(reg, pal, s, n - 1, walk).value;
      LendPageHeld(st.0, st.1, map[0 := pal][0 := st.1], s, n - 1, walk);
    }
  }

  lemma LendPageHeld(reg: Table, pal: Pal, pals: map<int, Pal>, s: Section, k: nat, walk: map<Page, Page>)
    requires Held(pal) && 0 in pals && pals[0] == pal && Separate(reg, pals) && LendPage(reg, pal, s, k, walk).Some?
    ensures var pal' := LendPage(reg, pal, s, k, walk).value.1; Held(pal') && pal'.own == pal.own
  {
    assert Accessible(reg, walk[s.start + k]);
  }

  lemma {:induction false} ReturnPagesHeld(reg: Table, pal: Pal, s: Section, n: nat)
    requires Held(pal) && ReturnPages(reg, pal, s, n).Some?
    ensures var pal' := ReturnPages(reg, pal, s, n).value.1;
      Held(pal') && pal'.own == pal.own && pal'.sections == pal.sections && pal'.info == pal.info
  {
    if n > 0 { ReturnPagesHeld(reg, pal, s, n - 1); }
  }

  // -------------------------------------------------------- all of them at once

  /** The tables with PAL i replaced; its section list does not matter here. */
  lemma SeparateSections(reg: Table, pals: map<int, Pal>, i: int, pal: Pal, pal': Pal)
    requires Separate(reg, pals[i := pal]) && pal'.npt == pal.npt
    ensures Separate(reg, pals[i := pal'])
  {
    var pals' := pals[i := pal'];
    assert forall j :: j in pals' ==> j in pals[i := pal] && pals'[j].npt == pals[i := pal][j].npt;
  }

  lemma SeparateOne(reg: Table, pals: map<int, Pal>, i: int)
    requires Separate(reg, pals) && i in pals
    ensures Separate(reg, map[0 := pals[i]])
  {
  }

  lemma LendSectionOk(reg: Table, pals: map<int, Pal>, i: int, s: Section, walk: map<Page, Page>)
    requires Separate(reg, pals) && i in pals && PalOk(pals[i]) && Exclusive(s.typ)
    requires LendSection(reg, pals[i], s, walk).Some?
    ensures var st := LendSection(reg, pals[i], s, walk).value;
      && Separate(st.0, pals[i := st.1]) && PalOk(st.1)
      && st.1.own == pals[i].own && st.1.info == pals[i].info && st.1.sections == pals[i].sections + [s]
  {
    hide Separate, Consistent;
    var pal := pals[i];
    LendPagesSeparate(reg, pals, i, s, Pages(s), walk);
    var st := LendPages(reg, pal, s, Pages(s), walk).value;
    var pal' := LendSection(reg, pal, s, walk).value.1;
    SeparateSections(st.0, pals, i, st.1, pal');
    SeparateOne(reg, pals, i);
    LendPagesHeld(reg, pal, s, Pages(s), walk);
    LendPagesKeeps(reg, pal, s, Pages(s), walk);
    LendSectionConsistent(reg, pal, s, walk);
  }

  lemma {:induction false} LendSectionsOk(reg: Table, pals: map<int, Pal>, i: int, ss: seq<Section>, n: nat,
                                          walk: map<Page, Page>)
    requires Separate(reg, pals) && i in pals && PalOk(pals[i]) && n <= |ss|
    requires (forall s :: s in ss ==> Exclusive(s.typ))
    requires LendSections(reg, pals[i], ss, n, walk).Some? && pals[i].info == ss && pals[i].sections == []
    ensures var st := LendSections(reg, pals[i], ss, n, walk).value;
      && Separate(st.0, pals[i := st.1]) && PalOk(st.1)
      && st.1.own == pals[i].own && st.1.info == ss && st.1.sections == ss[..n]
  {
    hide Separate, PalOk;
    if n == 0 {
      assert pals[i := pals[i]] == pals;
    } else {
      LendSectionsOk(reg, pals, i, ss, n - 1, walk);
      var st := LendSections(reg, pals[i], ss, n - 1, walk).value;
      var pals' := pals[i := st.1];
      LendSectionOk(st.0, pals', i, ss[n - 1], walk);
      var st' := LendSection(st.0, st.1, ss[n - 1], walk).value;
      assert pals'[i := st'.1] == pals[i := st'.1];
      assert ss[..n] == ss[..n - 1] + [ss[n - 1]];
    }
  }

  // --------------------------------------------------- once it is registered

  /** The page of the sentinel return address is mapped, to itself, for reading only. */
  predicate Sentinel(pal: Pal) {
    RETURN_PAGE in pal.gpt && pal.gpt[RETURN_PAGE] == Entry(RETURN_PAGE, RX)
  }

  /** The tables agree with the sections everywhere but at the return page, where the
      sentinel has taken the place of what may have been lent there. */
  ghost predicate KeptBy(pal: Pal, cov: Cover) {
    && MadeUp(pal.sections, cov) && Mapped(pal, cov - {RETURN_PAGE}) && Sentinel(pal)
    && (RETURN_PAGE in cov <==> !OffReturn(pal)) && (RETURN_PAGE in cov ==> cov[RETURN_PAGE] != SHARED)
    && (OffReturn(pal) ==> Confined(pal, cov))
  }

  ghost predicate Kept(pal: Pal) {
    exists cov :: KeptBy(pal, cov)
  }

  ghost predicate Registered(pal: Pal) {
    Held(pal) && RETURN_PAGE !in pal.own && (!SharedReturn(pal) ==> Kept(pal))
  }

  lemma {:induction false} LendPagesAvoid(reg: Table, pal: Pal, s: Section, n: nat, walk: map<Page, Page>, v: Page)
    requires Present(pal.gpt, v) && LendPages(reg, pal, s, n, walk).Some?
    ensures !(s.start <= v < s.start + n)
    ensures var g := LendPages(reg, pal, s, n, walk).value.1.gpt; v in g && g[v] == pal.gpt[v]
  {
    if n > 0 { LendPagesAvoid(reg, pal, s, n - 1, walk, v); }
  }

  lemma {:induction false} ReturnPagesElsewhere(reg: Table, pal: Pal, s: Section, n: nat, v: Page)
    requires ReturnPages(reg, pal, s, n).Some? && !(s.start <= v < s.start + n) && v in pal.gpt
    ensures var g := ReturnPages(reg, pal, s, n).value.1.gpt; v in g && g[v] == pal.gpt[v]
  {
    if n > 0 { ReturnPagesElsewhere(reg, pal, s, n - 1, v); }
  }

  lemma MadeUpDrop(ss: seq<Section>, cov: Cover, cov': Cover)
    requires |ss| > 0 && MadeUp(ss, cov) && cov' == Shrunk(cov, ss[|ss| - 1], Pages(ss[|ss| - 1]))
    ensures MadeUp(ss[..|ss| - 1], cov')
  {
    var n := |ss| - 1;
    forall v ensures v in cov' <==> v in cov && !Covers(ss[n], v)
      ensures v in cov' ==> cov'[v] == cov[v]
    {
      ShrunkAt(cov, ss[n], Pages(ss[n]), v);
    }
    forall v | v in cov' ensures exists i :: 0 <= i < n && Covers(ss[..n][i], v) {
      var i :| 0 <= i < |ss| && Covers(ss[i], v);
      assert Covers(ss[..n][i], v);
    }
    forall i, v | 0 <= i < n && Covers(ss[..n][i], v) ensures v in cov' && cov'[v] == ss[..n][i].typ {
      assert Covers(ss[i], v);
    }
    forall i, j, v | 0 <= i < j < n && Covers(ss[..n][i], v) ensures !Covers(ss[..n][j], v) {
      assert Covers(ss[i], v);
    }
  }

  lemma ShrunkElsewhere(cov: Cover, s: Section, n: nat, z: Page)
    ensures Shrunk(cov - {z}, s, n) == Shrunk(cov, s, n) - {z}
  {
    forall v: Page ensures v in Shrunk(cov - {z}, s, n) <==> v in Shrunk(cov, s, n) - {z}
      ensures v in Shrunk(cov - {z}, s, n) ==> Shrunk(cov - {z}, s, n)[v] == (Shrunk(cov, s, n) - {z})[v]
    {
      ShrunkAt(cov - {z}, s, n, v);
      ShrunkAt(cov, s, n, v);
    }
  }

  lemma ExtendedElsewhere(cov: Cover, s: Section, n: nat, z: Page)
    requires !(s.start <= z < s.start + n)
    ensures Extended(cov - {z}, s, n) == Extended(cov, s, n) - {z}
  {
    forall v: Page ensures v in Extended(cov - {z}, s, n) <==> v in Extended(cov, s, n) - {z}
      ensures v in Extended(cov - {z}, s, n) ==> Extended(cov - {z}, s, n)[v] == (Extended(cov, s, n) - {z})[v]
    {
      ExtendedAt(cov - {z}, s, n, v);
      ExtendedAt(cov, s, n, v);
    }
  }

  /** Without the return page in it, a cover is none the smaller for taking it out. */
  lemma TakeOut(cov: Cover)
    requires RETURN_PAGE !in cov
    ensures cov - {RETURN_PAGE} == cov
  {
  }

  /** Returning the last section, a SHARED one, leaves the others as they are. */
  lemma ReturnLastKept(reg: Table, pal: Pal)
    requires Kept(pal) && |pal.sections| > 0 && pal.sections[|pal.sections| - 1].typ == SHARED
    ensures var n := |pal.sections| - 1; var s := pal.sections[n];
      && ReturnPages(reg, pal, s, Pages(s)).Some?
      && Kept(ReturnPages(reg, pal, s, Pages(s)).value.1.(sections := pal.sections[..n]))
  {
    var cov :| KeptBy(pal, cov);
    var n := |pal.sections| - 1;
    var s := pal.sections[n];
    LastOffReturn(pal, cov);
    hide Mapped, MadeUp, Confined, OffReturn;
    ReturnPagesMapped(reg, pal, cov - {RETURN_PAGE}, s, Pages(s));
    var cov', pal1 := Shrunk(cov, s, Pages(s)), ReturnPages(reg, pal, s, Pages(s)).value.1;
    var pal' := pal1.(sections := pal.sections[..n]);
    ShrunkElsewhere(cov, s, Pages(s), RETURN_PAGE);
    ShrunkAt(cov, s, Pages(s), RETURN_PAGE);
    MapSections(pal1, cov' - {RETURN_PAGE}, pal.sections[..n]);
    MadeUpDrop(pal.sections, cov, cov');
    ReturnPagesElsewhere(reg, pal, s, Pages(s), RETURN_PAGE);
    ReturnPagesInfo(reg, pal, s, Pages(s));
    OffReturnInfo(pal, pal');
    if OffReturn(pal) {
      ReturnPagesConfined(reg, pal, cov, s, Pages(s));
      ConfineSections(pal1, cov', pal.sections[..n]);
    }
    assert KeptBy(pal', cov');
  }

  lemma LastOffReturn(pal: Pal, cov: Cover)
    requires KeptBy(pal, cov) && |pal.sections| > 0 && pal.sections[|pal.sections| - 1].typ == SHARED
    ensures var s := pal.sections[|pal.sections| - 1];
      !Covers(s, RETURN_PAGE) && forall v :: s.start <= v < s.start + Pages(s) ==> v in cov - {RETURN_PAGE}
  {
    var s := pal.sections[|pal.sections| - 1];
    assert !Covers(s, RETURN_PAGE);
    forall v: Page | s.start <= v < s.start + Pages(s) ensures v in cov - {RETURN_PAGE} { assert Covers(s, v); }
  }

  lemma MapSections(pal: Pal, cov: Cover, ss: seq<Section>)
    requires Mapped(pal, cov)
    ensures Mapped(pal.(sections := ss), cov)
  {
  }

  lemma ConfineSections(pal: Pal, cov: Cover, ss: seq<Section>)
    requires Confined(pal, cov)
    ensures Confined(pal.(sections := ss), cov)
  {
    var pal' := pal.(sections := ss);
    forall p | Accessible(pal'.npt, p) && p !in pal'.own ensures Reached(pal', cov, p) {
      assert Reached(pal, cov, p);
    }
  }

  lemma OffReturnInfo(pal: Pal, pal': Pal)
    requires pal.info == pal'.info
    ensures OffReturn(pal) == OffReturn(pal') && SharedReturn(pal) == SharedReturn(pal')
  {
  }

  lemma {:induction false} ReturnPagesInfo(reg: Table, pal: Pal, s: Section, n: nat)
    requires ReturnPages(reg, pal, s, n).Some?
    ensures ReturnPages(reg, pal, s, n).value.1.info == pal.info
  {
    if n > 0 { ReturnPagesInfo(reg, pal, s, n - 1); }
  }

  /** scode_release_all_shared_pages halts for no PAL but one registered with a SHARED
      section over the return page. */
  lemma {:induction false} ReleaseOk(reg: Table, pals: map<int, Pal>, i: int, pal: Pal, n: nat)
    requires Separate(reg, pals[i := pal]) && Registered(pal) && n == |pal.sections|
    ensures !SharedReturn(pal) ==> Release(reg, pal, n).Some?
    ensures Release(reg, pal, n).Some? ==> var st := Release(reg, pal, n).value;
      Separate(st.0, pals[i := st.1]) && Registered(st.1) && st.1.own == pal.own
    decreases n
  {
    hide Separate, Kept, SharedReturn;
    if n > 0 && pal.sections[n - 1].typ == SHARED {
      var s := pal.sections[n - 1];
      if !SharedReturn(pal) { ReturnLastKept(reg, pal); }
      if ReturnPages(reg, pal, s, Pages(s)).Some? {
        var st := ReturnPages(reg, pal, s, Pages(s)).value;
        var pal' := st.1.(sections := pal.sections[..n - 1]);
        ReturnPagesSeparate(reg, pals[i := pal], i, s, Pages(s));
        assert pals[i := pal][i := st.1] == pals[i := st.1];
        SeparateSections(st.0, pals, i, st.1, pal');
        ReturnPagesHeld(reg, pal, s, Pages(s));
        OffReturnInfo(pal, pal');
        ReleaseOk(st.0, pals, i, pal', n - 1);
      }
    }
  }

  // --------------------------------------------------------------- sharing

  lemma {:induction false} ShareOk(reg: Table, pals: map<int, Pal>, i: int, pal: Pal, ranges: seq<(Page, nat)>,
                                   walk: map<Page, Page>)
    requires Separate(reg, pals[i := pal]) && Registered(pal) && ShareRanges(reg, pal, ranges, walk).Some?
    ensures var st := ShareRanges(reg, pal, ranges, walk).value;
      Separate(st.0, pals[i := st.1]) && Registered(st.1) && st.1.own == pal.own
    decreases |ranges|
  {
    hide Separate, Registered;
    if ranges != [] {
      if |pal.sections| >= TV_MAX_SECTIONS {
        ReleaseOk(reg, pals, i, pal, |pal.sections|);
      } else {
        var s := Section(ranges[0].0, ranges[0].1, SHARED);
        ShareOne(reg, pals, i, pal, s, walk);
        var st := LendSection(reg, pal, s, walk).value;
        ShareOk(st.0, pals, i, st.1, ranges[1..], walk);
      }
    }
  }

  lemma ShareOne(reg: Table, pals: map<int, Pal>, i: int, pal: Pal, s: Section, walk: map<Page, Page>)
    requires Separate(reg, pals[i := pal]) && Registered(pal) && s.typ == SHARED && LendSection(reg, pal, s, walk).Some?
    ensures var st := LendSection(reg, pal, s, walk).value;
      Separate(st.0, pals[i := st.1]) && Registered(st.1) && st.1.own == pal.own
  {
    hide Separate, Kept, SharedReturn;
    var pals' := pals[i := pal];
    LendPagesSeparate(reg, pals', i, s, Pages(s), walk);
    var st := LendPages(reg, pal, s, Pages(s), walk).value;
    var pal' := LendSection(reg, pal, s, walk).value.1;
    SeparateOne(reg, pals', i);
    LendPagesHeld(reg, pal, s, Pages(s), walk);
    LendPagesKeeps(reg, pal, s, Pages(s), walk);
    OffReturnInfo(pal, pal');
    if !SharedReturn(pal) { ShareKept(reg, pal, s, walk); }
    assert pals'[i := st.1] == pals[i := st.1];
    SeparateSections(st.0, pals, i, st.1, pal');
  }

  /** A shared section joins the others; it cannot lie over the return page. */
  lemma ShareKept(reg: Table, pal: Pal, s: Section, walk: map<Page, Page>)
    requires Kept(pal) && Separate(reg, map[0 := pal]) && s.typ == SHARED && LendSection(reg, pal, s, walk).Some?
    ensures Kept(LendSection(reg, pal, s, walk).value.1)
  {
    var cov :| KeptBy(pal, cov);
    var n := Pages(s);
    hide Mapped, MadeUp, Confined, OffReturn, Separate;
    LendPagesAvoid(reg, pal, s, n, walk, RETURN_PAGE);
    LendPagesMapped(reg, pal, cov - {RETURN_PAGE}, s, n, walk);
    LendPagesKeeps(reg, pal, s, n, walk);
    var cov', pal1 := Extended(cov, s, n), LendPages(reg, pal, s, n, walk).value.1;
    var pal' := LendSection(reg, pal, s, walk).value.1;
    ExtendedElsewhere(cov, s, n, RETURN_PAGE);
    ExtendedAt(cov, s, n, RETURN_PAGE);
    MapSections(pal1, cov' - {RETURN_PAGE}, pal.sections + [s]);
    NewToCover(cov, s);
    MadeUpExtended(pal.sections, cov, s);
    OffReturnInfo(pal, pal');
    if OffReturn(pal) {
      LendPagesConfined(reg, pal, cov, s, n, walk);
      ConfineSections(pal1, cov', pal.sections + [s]);
    }
    assert KeptBy(pal', cov');
  }

  lemma NewToCover(cov: Cover, s: Section)
    requires !(s.start <= RETURN_PAGE < s.start + Pages(s))
    requires forall v :: v in cov - {RETURN_PAGE} ==> !(s.start <= v < s.start + Pages(s))
    ensures forall v :: v in cov ==> !(s.start <= v < s.start + Pages(s))
  {
    forall v: Page | v in cov ensures !(s.start <= v < s.start + Pages(s)) {
      if v != RETURN_PAGE { assert v in cov - {RETURN_PAGE}; }
    }
  }

  lemma MadeUpExtended(ss: seq<Section>, cov: Cover, s: Section)
    requires MadeUp(ss, cov) && forall v :: v in cov ==> !(s.start <= v < s.start + Pages(s))
    ensures MadeUp(ss + [s], Extended(cov, s, Pages(s)))
  {
    hide MadeUp;
    var cov' := Extended(cov, s, Pages(s));
    forall v: Page ensures v in cov' <==> v in cov || Covers(s, v)
      ensures v in cov' ==> cov'[v] == if Covers(s, v) then s.typ else cov[v]
    {
      ExtendedAt(cov, s, Pages(s), v);
    }
    MadeUpAppend(ss, cov, s, cov');
  }

  // ------------------------------------------------------------- unregister

  lemma {:induction false} GiveBackSeparate(w: World, pals: map<int, Pal>, i: int, ss: seq<Section>, n: nat)
    requires Separate(w.reg, pals[i := w.pal]) && Held(w.pal) && n <= |ss| && GiveBack(w, ss, n).Some?
    ensures var w' := GiveBack(w, ss, n).value;
      Separate(w'.reg, pals[i := w'.pal]) && Held(w'.pal) && w'.pal.own == w.pal.own
  {
    hide Separate, Held;
    if n > 0 {
      GiveBackSeparate(w, pals, i, ss, n - 1);
      var w1, s := GiveBack(w, ss, n - 1).value, ss[n - 1];
      ReturnPagesSeparate(w1.reg, pals[i := w1.pal], i, s, Pages(s));
      ReturnPagesHeld(w1.reg, w1.pal, s, Pages(s));
      var w' := GiveBack(w, ss, n).value;
      assert pals[i := w1.pal][i := w'.pal] == pals[i := w'.pal];
    }
  }

  // ------------------------------------------------------------ every run

  /** The free monitor pages, as if they were the pages of one more PAL. */
  const FREE: int := -1

  function WithFree(st: State): map<int, Pal> {
    st.pals[FREE := NewPal([], st.free)]
  }

  ghost predicate Good(st: State) {
    && FREE !in st.pals && RETURN_PAGE !in st.free
    && Separate(st.reg, WithFree(st))
    && forall i :: i in st.pals ==> Registered(st.pals[i])
  }

  /** Some free pages become a PAL of their own. */
  lemma TakeFree(reg: Table, pals: map<int, Pal>, free: set<Page>, i: int, info: seq<Section>, own: set<Page>)
    requires Separate(reg, pals[FREE := NewPal([], free)]) && own <= free && i != FREE && i !in pals && FREE !in pals
    ensures Separate(reg, pals[FREE := NewPal([], free - own)][i := NewPal(info, own)])
  {
    var a, b := pals[FREE := NewPal([], free)], pals[FREE := NewPal([], free - own)][i := NewPal(info, own)];
    forall j, p | j in b && Accessible(b[j].npt, p)
      ensures Accessible(a[if j == i then FREE else j].npt, p)
    {
    }
  }

  lemma NewPalOk(info: seq<Section>, own: set<Page>)
    requires RETURN_PAGE !in own
    ensures PalOk(NewPal(info, own))
  {
    var pal := NewPal(info, own);
    assert Agree(pal, map[]) && MadeUp([], map[]);
  }

  /** Mapping the return page makes a PAL that holds its sections a registered one. */
  lemma MapReturnOk(pal: Pal)
    requires PalOk(pal) && pal.sections == pal.info
    ensures Registered(MapReturn(pal)) && MapReturn(pal).npt == pal.npt
  {
    hide Consistent, SharedReturn;
    var pal' := MapReturn(pal);
    OffReturnInfo(pal, pal');
    if !SharedReturn(pal) { MapReturnKept(pal); }
  }

  lemma MapReturnKept(pal: Pal)
    requires Consistent(pal) && pal.sections == pal.info && !SharedReturn(pal)
    ensures Kept(MapReturn(pal))
  {
    var cov :| Agree(pal, cov) && MadeUp(pal.sections, cov);
    MapReturnMapped(pal, cov);
    CoversReturn(pal, cov);
    OffReturnInfo(pal, MapReturn(pal));
    hide Mapped, MadeUp, Confined, OffReturn, SharedReturn;
    if OffReturn(pal) { MapReturnConfined(pal, cov); }
    assert KeptBy(MapReturn(pal), cov);
  }

  lemma MapReturnMapped(pal: Pal, cov: Cover)
    requires Mapped(pal, cov)
    ensures Mapped(MapReturn(pal), cov - {RETURN_PAGE})
  {
    var pal' := MapReturn(pal);
    forall v | v in cov - {RETURN_PAGE} ensures Leads(pal', v, pal.gpt[v].gpa, cov[v]) {
      assert Leads(pal, v, pal.gpt[v].gpa, cov[v]);
    }
  }

  lemma MapReturnConfined(pal: Pal, cov: Cover)
    requires Confined(pal, cov) && RETURN_PAGE !in cov
    ensures Confined(MapReturn(pal), cov)
  {
    var pal' := MapReturn(pal);
    forall p | Accessible(pal'.npt, p) && p !in pal'.own ensures Reached(pal', cov, p) {
      assert Reached(pal, cov, p);
      var v :| v in cov && v in pal.gpt && pal.gpt[v].gpa == p;
      assert v in cov && v in pal'.gpt && pal'.gpt[v].gpa == p;
    }
  }

  lemma CoversReturn(pal: Pal, cov: Cover)
    requires MadeUp(pal.sections, cov) && pal.sections == pal.info
    ensures RETURN_PAGE in cov <==> !OffReturn(pal)
    ensures RETURN_PAGE in cov && !SharedReturn(pal) ==> cov[RETURN_PAGE] != SHARED
  {
    if RETURN_PAGE in cov {
      var j :| 0 <= j < |pal.sections| && Covers(pal.sections[j], RETURN_PAGE);
      assert pal.sections[j] in pal.info;
    }
    if !OffReturn(pal) {
      var s :| s in pal.info && Covers(s, RETURN_PAGE);
      var j :| 0 <= j < |pal.info| && pal.info[j] == s;
      assert Covers(pal.sections[j], RETURN_PAGE);
    }
  }

  lemma SeparateDrop(reg: Table, pals: map<int, Pal>, i: int)
    requires Separate(reg, pals)
    ensures Separate(reg, pals - {i})
  {
  }

  /** The pages of a PAL that is gone are free again. */
  lemma GiveFree(reg: Table, pals: map<int, Pal>, free: set<Page>, i: int, pal: Pal)
    requires Separate(reg, pals[FREE := NewPal([], free)][i := pal]) && Held(pal) && i != FREE
    ensures Separate(reg, (pals - {i})[FREE := NewPal([], free + pal.own)])
  {
    var a, b := pals[FREE := NewPal([], free)][i := pal], (pals - {i})[FREE := NewPal([], free + pal.own)];
    forall j, p | j in b && Accessible(b[j].npt, p)
      ensures Accessible(a[if j == FREE && p !in free then i else j].npt, p) && !Accessible(reg, p)
    {
    }
    forall j, h, p | j in b && h in b && j != h && Accessible(b[j].npt, p) ensures !Accessible(b[h].npt, p) {
      var j' := if j == FREE && p !in free then i else j;
      var h' := if h == FREE && p !in free then i else h;
      assert Accessible(a[j'].npt, p) && j' != h' && !Accessible(a[h'].npt, p);
    }
  }

  lemma RegisterGood(st: State, i: int, ss: seq<Section>, walk: map<Page, Page>, own: set<Page>, kept: bool)
    requires Good(st) && (forall s :: s in ss ==> Exclusive(s.typ)) && Register(st, i, ss, walk, own, kept).Some?
    ensures Good(Register(st, i, ss, walk, own, kept).value)
  {
    hide Separate, PalOk, Registered, Measure;
    if i < 0 || i in st.pals || |ss| > TV_MAX_SECTIONS || !(own <= st.free) { return; }
    var p0 := NewPal(ss, own);
    var pals := st.pals[FREE := NewPal([], st.free - own)][i := p0];
    TakeFree(st.reg, st.pals, st.free, i, ss, own);
    NewPalOk(ss, own);
    LendSectionsOk(st.reg, pals, i, ss, |ss|, walk);
    var lent := LendSections(st.reg, p0, ss, |ss|, walk).value;
    assert ss[..|ss|] == ss;
    MapReturnOk(lent.1);
    var pals' := pals[i := lent.1];
    if kept {
      SeparateSections(lent.0, pals, i, lent.1, MapReturn(lent.1));
      assert pals[i := MapReturn(lent.1)] == st.pals[i := MapReturn(lent.1)][FREE := NewPal([], st.free - own)];
    } else {
      SeparateDrop(lent.0, pals', i);
      assert pals' - {i} == st.pals[FREE := NewPal([], st.free - own)];
    }
  }

  /** Replacing the tables of one registered PAL. */
  lemma UpdateGood(st: State, i: int, reg': Table, pal': Pal)
    requires Good(st) && i in st.pals && Separate(reg', WithFree(st)[i := pal']) && Registered(pal')
    ensures Good(st.(reg := reg', pals := st.pals[i := pal']))
  {
    hide Separate, Registered;
    assert WithFree(st)[i := pal'] == st.pals[i := pal'][FREE := NewPal([], st.free)];
  }

  lemma UnregisterGood(st: State, i: int)
    requires Good(st) && Unregister(st, i).Some?
    ensures Good(Unregister(st, i).value)
  {
    hide Separate, Consistent;
    if i in st.pals {
      var pal := st.pals[i];
      var w := World(st.reg, st.mem, pal);
      assert WithFree(st)[i := pal] == WithFree(st);
      GiveBackSeparate(w, WithFree(st), i, pal.sections, |pal.sections|);
      var w' := GiveBack(w, pal.sections, |pal.sections|).value;
      GiveFree(w'.reg, st.pals, st.free, i, w'.pal);
    }
  }

  /** Only the two deliberately visible section types are ruled out. */
  predicate UsesExclusive(e: Event) {
    e.DoRegister? ==> forall s :: s in e.ss ==> Exclusive(s.typ)
  }

  lemma StepGood(st: State, e: Event)
    requires Good(st) && UsesExclusive(e) && Step(st, e).Some?
    ensures Good(Step(st, e).value)
  {
    hide Separate, Registered;
    match e
    case DoRegister(i, ss, walk, own, kept) => RegisterGood(st, i, ss, walk, own, kept);
    case DoShare(i, ranges, walk) =>
      if i in st.pals {
        assert WithFree(st)[i := st.pals[i]] == WithFree(st);
        ShareOk(st.reg, WithFree(st), i, st.pals[i], ranges, walk);
        var r := ShareRanges(st.reg, st.pals[i], ranges, walk).value;
        UpdateGood(st, i, r.0, r.1);
      }
    case DoExit(i) =>
      if i in st.pals {
        assert WithFree(st)[i := st.pals[i]] == WithFree(st);
        ReleaseOk(st.reg, WithFree(st), i, st.pals[i], |st.pals[i].sections|);
        var r := Release(st.reg, st.pals[i], |st.pals[i].sections|).value;
        UpdateGood(st, i, r.0, r.1);
      }
    case DoUnregister(i) => UnregisterGood(st, i);
    case GuestWrite(p, c) =>
    case PalWrite(i, p, c) =>
  }

  /** Before the first registration: no PALs, and free monitor pages that the guest
      cannot reach. */
  ghost predicate Initial(st: State) {
    st.pals == map[] && RETURN_PAGE !in st.free && forall p :: p in st.free ==> !Accessible(st.reg, p)
  }

  /** In every reachable state of every run, no page is reachable from two sides. */
  lemma {:induction false} RunIsSafe(st: State, es: seq<Event>, n: nat)
    requires Initial(st) && n <= |es| && (forall e :: e in es ==> UsesExclusive(e)) && Run(st, es, n).Some?
    ensures Good(Run(st, es, n).value) && Separate(Run(st, es, n).value.reg, Run(st, es, n).value.pals)
  {
    if n > 0 {
      RunIsSafe(st, es, n - 1);
      StepGood(Run(st, es, n - 1).value, es[n - 1]);
    }
    GoodSeparate(Run(st, es, n).value);
  }

  lemma GoodSeparate(st: State)
    requires Good(st)
    ensures Separate(st.reg, st.pals)
  {
    SeparateDrop(st.reg, WithFree(st), FREE);
    assert WithFree(st) - {FREE} == st.pals;
  }

  // ------------------------------------------------------- what a run gives

  /** Whenever unregistering a PAL does not halt, in any state whatever, it hands every page
      of its sections back to the guest, cleared unless it is code, and changes no other
      page. */
  lemma UnregisterGives(st: State, i: int)
    requires i in st.pals && Unregister(st, i).Some?
    ensures var st', pal := Unregister(st, i).value, st.pals[i];
      var w, w' := World(st.reg, st.mem, pal), World(st'.reg, st'.mem, pal);
      && i !in st'.pals
      && (forall s, p :: s in pal.sections && PageOf(pal, s, p) ==> GivenBack(w, w', p, s.typ))
      && (forall p :: (forall s :: s in pal.sections ==> !PageOf(pal, s, p)) ==> Untouched(w, w', p))
  {
    hide GivenBack, Untouched, PageOf;
    var pal := st.pals[i];
    var w, ss := World(st.reg, st.mem, pal), pal.sections;
    var st' := Unregister(st, i).value;
    var w0, w' := GiveBack(w, ss, |ss|).value, World(st'.reg, st'.mem, pal);
    forall s, p | s in ss && PageOf(pal, s, p) ensures GivenBack(w, w', p, s.typ) {
      var k :| 0 <= k < |ss| && ss[k] == s;
      GiveBackGives(w, ss, |ss|, p);
      GivenBackTables(w, w0, w', p, s.typ);
    }
    forall p | forall s :: s in ss ==> !PageOf(pal, s, p) ensures Untouched(w, w', p) {
      assert forall k :: 0 <= k < |ss| ==> !PageOf(pal, ss[k], p);
      GiveBackGives(w, ss, |ss|, p);
      UntouchedTables(w, w0, w', p);
    }
  }

  /** In any reachable state it does not halt for a PAL that was not registered over the
      return page. */
  lemma UnregisterWorks(st: State, i: int)
    requires Good(st) && i in st.pals && OffReturn(st.pals[i])
    ensures Unregister(st, i).Some?
  {
    hide Consistent;
    var pal := st.pals[i];
    OffReturnConsistent(pal);
    GiveBackAll(World(st.reg, st.mem, pal));
  }

  lemma OffReturnConsistent(pal: Pal)
    requires Registered(pal) && OffReturn(pal)
    ensures Consistent(pal)
  {
    assert !SharedReturn(pal);
    var cov :| KeptBy(pal, cov);
    TakeOut(cov);
    assert Agree(pal, cov);
  }

  lemma GivenBackTables(w: World, w0: World, w': World, p: Page, t: SectionType)
    requires GivenBack(w, w0, p, t) && w0.reg == w'.reg && w0.mem == w'.mem
    ensures GivenBack(w, w', p, t)
  {
  }

  lemma UntouchedTables(w: World, w0: World, w': World, p: Page)
    requires Untouched(w, w0, p) && w0.reg == w'.reg && w0.mem == w'.mem
    ensures Untouched(w, w', p)
  {
  }

  /** A PAL's memory is its own: no event but its own writes and its own
      unregistration changes a page it can reach. */
  lemma PalMemoryIsIsolated(st: State, e: Event, i: int, p: Page)
    requires Good(st) && Step(st, e).Some? && i in st.pals && Accessible(st.pals[i].npt, p)
    requires !(e.PalWrite? && e.i == i) && !(e.DoUnregister? && e.i == i)
    ensures var st' := Step(st, e).value; (p in st'.mem <==> p in st.mem) && (p in st.mem ==> st'.mem[p] == st.mem[p])
  {
    GoodSeparate(st);
    assert !Accessible(st.reg, p);
    assert forall j :: j in st.pals && j != i ==> !Accessible(st.pals[j].npt, p);
    if e.DoUnregister? && e.i in st.pals {
      var pal := st.pals[e.i];
      GiveBackMemory(World(st.reg, st.mem, pal), pal.sections, |pal.sections|, p);
    }
  }

  /** Clearing and returning touch only memory the PAL can reach. */
  lemma {:induction false} GiveBackMemory(w: World, ss: seq<Section>, n: nat, p: Page)
    requires n <= |ss| && GiveBack(w, ss, n).Some? && !Accessible(w.pal.npt, p)
    ensures SameMemory(w, GiveBack(w, ss, n).value, p) && !Accessible(GiveBack(w, ss, n).value.pal.npt, p)
  {
    if n > 0 {
      GiveBackMemory(w, ss, n - 1, p);
      var w1, s := GiveBack(w, ss, n - 1).value, ss[n - 1];
      if MustClear(s.typ) { ZeroPagesLocal(w1.mem, w1.pal, s, Pages(s), p); }
      ReturnPagesLocal(w1.reg, w1.pal, s, Pages(s), p);
    }
  }

  lemma {:induction false} ZeroPagesLocal(mem: Memory, pal: Pal, s: Section, n: nat, p: Page)
    requires ZeroPages(mem, pal, s, n).Some? && !Accessible(pal.npt, p)
    ensures var m := ZeroPages(mem, pal, s, n).value; (p in m <==> p in mem) && (p in mem ==> m[p] == mem[p])
  {
    if n > 0 { ZeroPagesLocal(mem, pal, s, n - 1, p); }
  }

  lemma {:induction false} ReturnPagesLocal(reg: Table, pal: Pal, s: Section, n: nat, p: Page)
    requires ReturnPages(reg, pal, s, n).Some? && !Accessible(pal.npt, p)
    ensures !Accessible(ReturnPages(reg, pal, s, n).value.1.npt, p)
  {
    if n > 0 { ReturnPagesLocal(reg, pal, s, n - 1, p); }
  }
}
