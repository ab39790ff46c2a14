/** What lending is for: a PAL gets the pages of its sections, at the access their types
    name, and an exit hands the shared ones back. */
module TvLent {
  import opened TvPages
  import opened TvOwnership
  import opened TvGiveBack
  import opened TvReturnable
  import opened TvRuns
  import opened TvSafety

  // ------------------------------------------------------------- in every state

  /** The PAL may read and execute code, and read and write anything else. */
  function AccessOf(t: SectionType): (r: Prot)
    requires t in {CODE, DATA, PARAM, STACK, SHARED}
    ensures r.read && (r.write <==> t != CODE) && (r.exec <==> t == CODE)
  {
    PalProt(t)
  }

  /** In every state of a run: virtual page v of a section leads to a page that the PAL
      reaches just as the type of the section says and that the guest cannot reach. */
  lemma LentPages(st: State, i: int, s: Section, v: Page)
    requires Good(st) && i in st.pals && !SharedReturn(st.pals[i])
    requires s in st.pals[i].sections && Covers(s, v) && v != RETURN_PAGE && Exclusive(s.typ)
    ensures var pal := st.pals[i];
      && v in pal.gpt && pal.gpt[v].prot == Prot(true, true, true)
      && pal.gpt[v].gpa in pal.npt && pal.npt[pal.gpt[v].gpa] == AccessOf(s.typ)
      && !Accessible(st.reg, pal.gpt[v].gpa)
  {
    hide Kept, SharedReturn, Covers;
    GoodSeparate(st);
    LentPage(st.pals[i], s, v);
  }

  lemma LentPage(pal: Pal, s: Section, v: Page)
    requires Kept(pal) && s in pal.sections && Covers(s, v) && v != RETURN_PAGE && Exclusive(s.typ)
    ensures v in pal.gpt && pal.gpt[v].prot == Prot(true, true, true)
    ensures pal.gpt[v].gpa in pal.npt && pal.npt[pal.gpt[v].gpa] == AccessOf(s.typ)
    ensures Accessible(pal.npt, pal.gpt[v].gpa)
  {
    hide Confined, OffReturn, Sentinel;
    var cov :| KeptBy(pal, cov);
    var k :| 0 <= k < |pal.sections| && pal.sections[k] == s;
    assert v in cov && cov[v] == s.typ;
    assert v in cov - {RETURN_PAGE};
  }

  /** Code stays as it was measured: in every state of a run, no event but the PAL's own
      unregistration changes a page of one of its CODE sections, not even a write of the
      PAL. */
  lemma CodeNeverChanges(st: State, e: Event, i: int, s: Section, v: Page)
    requires Good(st) && i in st.pals && !SharedReturn(st.pals[i]) && Step(st, e).Some?
    requires s in st.pals[i].sections && Covers(s, v) && v != RETURN_PAGE && s.typ == CODE
    requires !(e.DoUnregister? && e.i == i)
    ensures v in st.pals[i].gpt
    ensures var p, st' := st.pals[i].gpt[v].gpa, Step(st, e).value;
      (p in st'.mem <==> p in st.mem) && (p in st.mem ==> st'.mem[p] == st.mem[p])
  {
    hide Good, Covers, SharedReturn;
    LentPages(st, i, s, v);
    if !(e.PalWrite? && e.i == i) { PalMemoryIsIsolated(st, e, i, st.pals[i].gpt[v].gpa); }
  }

  // ------------------------------------------------------------------ lending

  /** Virtual page v leads to page p. */
  predicate LeadsTo(pal: Pal, v: Page, p: Page) {
    v in pal.gpt && pal.gpt[v] == Entry(p, RWX)
  }

  lemma {:induction false} LendPagesLead(reg: Table, pal: Pal, s: Section, n: nat, walk: map<Page, Page>, v: Page)
    requires LendPages(reg, pal, s, n, walk).Some? && s.start <= v < s.start + n
    ensures v in walk && LeadsTo(LendPages(reg, pal, s, n, walk).value.1, v, walk[v])
  {
    if n > 0 && v < s.start + (n - 1) { LendPagesLead(reg, pal, s, n - 1, walk, v); }
  }

  /** What one more section changes: its pages lead where the guest's tables lead, and what
      led somewhere still does. */
  lemma LendSectionLeads(reg: Table, pal: Pal, s: Section, walk: map<Page, Page>, v: Page)
    requires LendSection(reg, pal, s, walk).Some?
    ensures var pal' := LendSection(reg, pal, s, walk).value.1;
      && pal'.sections == pal.sections + [s] && pal'.info == pal.info
      && (Covers(s, v) ==> v in walk && LeadsTo(pal', v, walk[v]))
      && (Present(pal.gpt, v) ==> v in pal'.gpt && pal'.gpt[v] == pal.gpt[v])
  {
    LendPagesKeeps(reg, pal, s, Pages(s), walk);
    if Covers(s, v) { LendPagesLead(reg, pal, s, Pages(s), walk, v); }
    if Present(pal.gpt, v) { LendPagesAvoid(reg, pal, s, Pages(s), walk, v); }
  }

  lemma {:induction false} LendSectionsLead(reg: Table, pal: Pal, ss: seq<Section>, n: nat, walk: map<Page, Page>,
                                            v: Page)
    requires n <= |ss| && LendSections(reg, pal, ss, n, walk).Some?
    ensures var pal' := LendSections(reg, pal, ss, n, walk).value.1;
      && pal'.sections == pal.sections + ss[..n] && pal'.info == pal.info
      && (forall j :: 0 <= j < n && Covers(ss[j], v) ==> v in walk && LeadsTo(pal', v, walk[v]))
  {
    if n > 0 {
      LendSectionsLead(reg, pal, ss, n - 1, walk, v);
      var st := LendSections(reg, pal, ss, n - 1, walk).value;
      LendSectionLeads(st.0, st.1, ss[n - 1], walk, v);
    }
  }

  /** scode_register, when it does not give up: the PAL holds all its sections, each page
      of them leads to the page of the guest it was lent from, and memory and the other
      PALs are as before. */
  lemma RegisterLends(st: State, i: int, ss: seq<Section>, walk: map<Page, Page>, own: set<Page>)
    requires 0 <= i && i !in st.pals && |ss| <= TV_MAX_SECTIONS && own <= st.free
    requires Register(st, i, ss, walk, own, true).Some?
    ensures var st' := Register(st, i, ss, walk, own, true).value;
      && st'.pals.Keys == st.pals.Keys + {i} && (forall j :: j in st.pals ==> st'.pals[j] == st.pals[j])
      && st'.mem == st.mem && st'.pals[i].sections == ss && st'.pals[i].info == ss
      && (forall s, v :: s in ss && Covers(s, v) && v != RETURN_PAGE ==>
            v in walk && LeadsTo(st'.pals[i], v, walk[v]))
  {
    hide Measure, Covers;
    var st' := Register(st, i, ss, walk, own, true).value;
    var p0 := NewPal(ss, own);
    assert ss[..|ss|] == ss;
    LendSectionsLead(st.reg, p0, ss, |ss|, walk, 0);
    forall s, v | s in ss && Covers(s, v) && v != RETURN_PAGE ensures v in walk && LeadsTo(st'.pals[i], v, walk[v]) {
      var j :| 0 <= j < |ss| && ss[j] == s;
      LendSectionsLead(st.reg, p0, ss, |ss|, walk, v);
    }
  }

  // ------------------------------------------------------------------ sharing

  function SharedSections(ranges: seq<(Page, nat)>): (ss: seq<Section>)
    ensures |ss| == |ranges| && forall j :: 0 <= j < |ss| ==> ss[j] == Section(ranges[j].0, ranges[j].1, SHARED)
  {
    seq(|ranges|, j requires 0 <= j < |ranges| => Section(ranges[j].0, ranges[j].1, SHARED))
  }

  lemma SharedFirst(ss: seq<Section>, ranges: seq<(Page, nat)>)
    requires ranges != []
    ensures ss + SharedSections(ranges)
         == ss + [Section(ranges[0].0, ranges[0].1, SHARED)] + SharedSections(ranges[1..])
  {
  }

  /** What led somewhere still does after sharing with room for all ranges. */
  lemma {:induction false} SharePersists(reg: Table, pal: Pal, ranges: seq<(Page, nat)>, walk: map<Page, Page>, v: Page)
    requires |pal.sections| + |ranges| <= TV_MAX_SECTIONS && ShareRanges(reg, pal, ranges, walk).Some?
    ensures var pal' := ShareRanges(reg, pal, ranges, walk).value.1;
      && pal'.sections == pal.sections + SharedSections(ranges) && pal'.info == pal.info
      && (Present(pal.gpt, v) ==> v in pal'.gpt && pal'.gpt[v] == pal.gpt[v])
    decreases |ranges|
  {
    hide Covers, LendSection, SharedSections, Release;
    if ranges != [] {
      var s := Section(ranges[0].0, ranges[0].1, SHARED);
      LendSectionLeads(reg, pal, s, walk, v);
      var st := LendSection(reg, pal, s, walk).value;
      SharePersists(st.0, st.1, ranges[1..], walk, v);
      SharedFirst(pal.sections, ranges);
    }
  }

  /** scode_share_ranges with room for all ranges: each has become a section whose pages
      lead where the guest's tables lead. */
  lemma {:induction false} ShareLends(reg: Table, pal: Pal, ranges: seq<(Page, nat)>, walk: map<Page, Page>, j: nat,
                                      v: Page)
    requires |pal.sections| + |ranges| <= TV_MAX_SECTIONS && ShareRanges(reg, pal, ranges, walk).Some?
    requires j < |ranges| && Covers(Section(ranges[j].0, ranges[j].1, SHARED), v)
    ensures var pal' := ShareRanges(reg, pal, ranges, walk).value.1;
      && pal'.sections == pal.sections + SharedSections(ranges) && pal'.info == pal.info
      && v in walk && LeadsTo(pal', v, walk[v])
    decreases |ranges|
  {
    hide Covers, LendSection;
    SharePersists(reg, pal, ranges, walk, v);
    var s := Section(ranges[0].0, ranges[0].1, SHARED);
    LendSectionLeads(reg, pal, s, walk, v);
    var st := LendSection(reg, pal, s, walk).value;
    if j == 0 {
      SharePersists(st.0, st.1, ranges[1..], walk, v);
    } else {
      ShareLends(st.0, st.1, ranges[1..], walk, j - 1, v);
    }
  }

  // ---------------------------------------------------------------- releasing

  /** How many sections are left when the SHARED ones at the end are gone. */
  function Unshared(ss: seq<Section>): (m: nat)
    ensures m <= |ss| && (m > 0 ==> ss[m - 1].typ != SHARED) && forall j :: m <= j < |ss| ==> ss[j].typ == SHARED
  {
    if ss == [] || ss[|ss| - 1].typ != SHARED then |ss| else Unshared(ss[..|ss| - 1])
  }

  lemma {:induction false} ReleaseGrants(reg: Table, pal: Pal, n: nat, p: Page)
    requires n == |pal.sections| && Release(reg, pal, n).Some? && p in reg && reg[p] == RWX
    ensures var reg' := Release(reg, pal, n).value.0; p in reg' && reg'[p] == RWX
    decreases n
  {
    if n > 0 && pal.sections[n - 1].typ == SHARED {
      var s := pal.sections[n - 1];
      ReturnPagesGive(reg, pal, s, Pages(s), p);
      var st := ReturnPages(reg, pal, s, Pages(s)).value;
      ReleaseGrants(st.0, st.1.(sections := pal.sections[..n - 1]), n - 1, p);
    }
  }

  lemma SamePages(reg: Table, pal: Pal, s: Section, t: Section, p: Page)
    requires ReturnPages(reg, pal, s, Pages(s)).Some?
    ensures PageOf(ReturnPages(reg, pal, s, Pages(s)).value.1, t, p) <==> PageOf(pal, t, p)
  {
    var pal' := ReturnPages(reg, pal, s, Pages(s)).value.1;
    forall v: Page ensures v in pal'.gpt <==> v in pal.gpt
      ensures v in pal.gpt ==> pal'.gpt[v].gpa == pal.gpt[v].gpa
    {
      ReturnPagesState(reg, pal, s, Pages(s), v, p);
    }
  }

  /** The page belongs to one of the sections from m on. */
  ghost predicate Among(pal: Pal, ss: seq<Section>, m: nat, p: Page) {
    exists j :: m <= j < |ss| && PageOf(pal, ss[j], p)
  }

  /** The last section apart, after its pages have been returned. */
  lemma AmongLast(reg: Table, pal: Pal, pal': Pal, m: nat, p: Page)
    requires m < |pal.sections|
    requires var s := pal.sections[|pal.sections| - 1];
      ReturnPages(reg, pal, s, Pages(s)).Some? && pal'.gpt == ReturnPages(reg, pal, s, Pages(s)).value.1.gpt
    ensures var n := |pal.sections| - 1;
      Among(pal, pal.sections, m, p) <==> PageOf(pal, pal.sections[n], p) || Among(pal', pal.sections[..n], m, p)
  {
    hide PageOf;
    var ss, n := pal.sections, |pal.sections| - 1;
    var t := ReturnPages(reg, pal, ss[n], Pages(ss[n])).value;
    forall j | 0 <= j < n ensures PageOf(pal', ss[..n][j], p) <==> PageOf(pal, ss[j], p) {
      SamePages(reg, pal, ss[n], ss[j], p);
      SectionsDoNotMatter(t.1, pal', ss[j], p);
    }
    if Among(pal, ss, m, p) {
      var j :| m <= j < |ss| && PageOf(pal, ss[j], p);
      if j < n { assert PageOf(pal', ss[..n][j], p); }
    }
    if Among(pal', ss[..n], m, p) {
      var j :| m <= j < n && PageOf(pal', ss[..n][j], p);
      assert PageOf(pal, ss[j], p);
    }
  }

  /** scode_release_all_shared_pages: just the SHARED sections at the end are gone, their
      pages are the guest's again, and its access to no other page has changed. */
  lemma {:induction false} ReleaseGives(reg: Table, pal: Pal, n: nat, p: Page)
    requires n == |pal.sections| && Release(reg, pal, n).Some?
    ensures var st, m := Release(reg, pal, n).value, Unshared(pal.sections);
      && st.1.sections == pal.sections[..m] && st.1.info == pal.info
      && (Among(pal, pal.sections, m, p) ==> p in st.0 && st.0[p] == Prot(true, true, true))
      && (!Among(pal, pal.sections, m, p) ==> (p in st.0 <==> p in reg) && (p in reg ==> st.0[p] == reg[p]))
    decreases n
  {
    hide PageOf, Among, ReturnPages;
    var ss, m := pal.sections, Unshared(pal.sections);
    if n > 0 && ss[n - 1].typ == SHARED {
      var s := ss[n - 1];
      var t := ReturnPages(reg, pal, s, Pages(s)).value;
      var pal' := t.1.(sections := ss[..n - 1]);
      ReturnPagesInfo(reg, pal, s, Pages(s));
      ReleaseGives(t.0, pal', n - 1, p);
      GivesOne(reg, pal, s, p);
      AmongLast(reg, pal, pal', m, p);
      if PageOf(pal, s, p) { ReleaseGrants(t.0, pal', n - 1, p); }
      assert ss[..n - 1][..m] == ss[..m];
    } else {
      AmongNone(pal, ss, p);
    }
  }

  lemma AmongNone(pal: Pal, ss: seq<Section>, p: Page)
    ensures !Among(pal, ss, |ss|, p)
  {
  }

  lemma GivesOne(reg: Table, pal: Pal, s: Section, p: Page)
    requires ReturnPages(reg, pal, s, Pages(s)).Some?
    ensures var reg' := ReturnPages(reg, pal, s, Pages(s)).value.0;
      && (PageOf(pal, s, p) ==> p in reg' && reg'[p] == RWX)
      && (!PageOf(pal, s, p) ==> (p in reg' <==> p in reg) && (p in reg ==> reg'[p] == reg[p]))
  {
    ReturnPagesGive(reg, pal, s, Pages(s), p);
  }

  lemma SectionsDoNotMatter(pal: Pal, pal': Pal, s: Section, p: Page)
    requires pal'.gpt == pal.gpt
    ensures PageOf(pal', s, p) <==> PageOf(pal, s, p)
  {
  }

  // --------------------------------------------------------- over a whole run

  /** A PAL registered without SHARED sections holds the sections of its registration and
      then SHARED ones only. */
  ghost predicate Layered(pal: Pal) {
    (forall s :: s in pal.info ==> s.typ != SHARED) ==>
      && |pal.info| <= |pal.sections| && pal.sections[..|pal.info|] == pal.info
      && forall j :: |pal.info| <= j < |pal.sections| ==> pal.sections[j].typ == SHARED
  }

  lemma InfoUnshared(pal: Pal)
    requires Layered(pal) && forall s :: s in pal.info ==> s.typ != SHARED
    ensures |pal.info| <= |pal.sections|
    ensures forall j :: 0 <= j < |pal.sections| ==> (pal.sections[j].typ == SHARED <==> |pal.info| <= j)
  {
    forall j | 0 <= j < |pal.info| ensures pal.sections[j].typ != SHARED {
      assert pal.sections[..|pal.info|][j] in pal.info;
    }
  }

  lemma ReleaseLayered(reg: Table, pal: Pal)
    requires Layered(pal) && Release(reg, pal, |pal.sections|).Some?
    ensures var pal' := Release(reg, pal, |pal.sections|).value.1;
      Layered(pal') && ((forall s :: s in pal.info ==> s.typ != SHARED) ==> pal'.sections == pal.info)
  {
    ReleaseGives(reg, pal, |pal.sections|, 0);
    var m := Unshared(pal.sections);
    if forall s :: s in pal.info ==> s.typ != SHARED {
      InfoUnshared(pal);
      assert m < |pal.sections| ==> pal.sections[m].typ == SHARED;
    }
  }

  lemma {:induction false} ShareLayered(reg: Table, pal: Pal, ranges: seq<(Page, nat)>, walk: map<Page, Page>)
    requires Layered(pal) && ShareRanges(reg, pal, ranges, walk).Some?
    ensures Layered(ShareRanges(reg, pal, ranges, walk).value.1)
    decreases |ranges|
  {
    if ranges != [] {
      if |pal.sections| >= TV_MAX_SECTIONS {
        ReleaseLayered(reg, pal);
      } else {
        var s := Section(ranges[0].0, ranges[0].1, SHARED);
        LendSectionLeads(reg, pal, s, walk, 0);
        var st := LendSection(reg, pal, s, walk).value;
        assert |pal.info| <= |pal.sections| ==> st.1.sections[..|pal.info|] == pal.sections[..|pal.info|];
        ShareLayered(st.0, st.1, ranges[1..], walk);
      }
    }
  }

  lemma LayeredStep(st: State, e: Event)
    requires (forall i :: i in st.pals ==> Layered(st.pals[i])) && Step(st, e).Some?
    ensures forall i :: i in Step(st, e).value.pals ==> Layered(Step(st, e).value.pals[i])
  {
    hide Layered, Measure;
    match e
    case DoRegister(i, ss, walk, own, kept) =>
      if kept && 0 <= i && i !in st.pals && |ss| <= TV_MAX_SECTIONS && own <= st.free {
        RegisterLends(st, i, ss, walk, own);
        FreshLayered(Step(st, e).value.pals[i]);
      }
    case DoShare(i, ranges, walk) =>
      if i in st.pals { ShareLayered(st.reg, st.pals[i], ranges, walk); }
    case DoExit(i) =>
      if i in st.pals { ReleaseLayered(st.reg, st.pals[i]); }
    case DoUnregister(i) =>
    case GuestWrite(p, c) =>
    case PalWrite(i, p, c) =>
  }

  lemma FreshLayered(pal: Pal)
    requires pal.sections == pal.info
    ensures Layered(pal)
  {
  }

  lemma {:induction false} RunIsLayered(st: State, es: seq<Event>, n: nat)
    requires Initial(st) && n <= |es| && Run(st, es, n).Some?
    ensures forall i :: i in Run(st, es, n).value.pals ==> Layered(Run(st, es, n).value.pals[i])
  {
    hide Layered;
    if n > 0 {
      RunIsLayered(st, es, n - 1);
      LayeredStep(Run(st, es, n - 1).value, es[n - 1]);
    }
  }

  /** At any point of any run, an exit of a PAL registered without SHARED sections does not
      halt and leaves it with just the sections of its registration; every page that was
      shared with it is the guest's again. */
  lemma ExitRestores(st: State, es: seq<Event>, n: nat, i: int, p: Page)
    requires Initial(st) && n <= |es| && (forall e :: e in es ==> UsesExclusive(e)) && Run(st, es, n).Some?
    requires i in Run(st, es, n).value.pals
    requires forall s :: s in Run(st, es, n).value.pals[i].info ==> s.typ != SHARED
    ensures var st0 := Run(st, es, n).value;
      && Step(st0, DoExit(i)).Some? && i in Step(st0, DoExit(i)).value.pals
      && Step(st0, DoExit(i)).value.pals[i].sections == st0.pals[i].info
      && ((exists s :: s in st0.pals[i].sections && s.typ == SHARED && PageOf(st0.pals[i], s, p)) ==>
            p in Step(st0, DoExit(i)).value.reg && Step(st0, DoExit(i)).value.reg[p] == Prot(true, true, true))
  {
    hide PageOf, Good, Layered, Step;
    RunIsSafe(st, es, n);
    RunIsLayered(st, es, n);
    ExitGives(Run(st, es, n).value, i, p);
  }

  lemma NoSharedReturn(pal: Pal)
    requires forall s :: s in pal.info ==> s.typ != SHARED
    ensures !SharedReturn(pal)
  {
  }

  lemma AmongAt(pal: Pal, j: nat, p: Page)
    requires Unshared(pal.sections) <= j < |pal.sections| && PageOf(pal, pal.sections[j], p)
    ensures Among(pal, pal.sections, Unshared(pal.sections), p)
  {
  }

  lemma ExitGives(st: State, i: int, p: Page)
    requires Good(st) && i in st.pals && Layered(st.pals[i])
    requires forall s :: s in st.pals[i].info ==> s.typ != SHARED
    ensures Step(st, DoExit(i)).Some? && i in Step(st, DoExit(i)).value.pals
    ensures Step(st, DoExit(i)).value.pals[i].sections == st.pals[i].info
    ensures (exists s :: s in st.pals[i].sections && s.typ == SHARED && PageOf(st.pals[i], s, p)) ==>
      p in Step(st, DoExit(i)).value.reg && Step(st, DoExit(i)).value.reg[p] == Prot(true, true, true)
  {
    hide PageOf, Separate, Layered, Registered, SharedReturn, Release, Among, ShareRanges, Register, Unregister;
    NoSharedReturn(st.pals[i]);
    var pal := st.pals[i];
    assert WithFree(st)[i := pal] == WithFree(st);
    ReleaseOk(st.reg, WithFree(st), i, pal, |pal.sections|);
    ReleaseLayered(st.reg, pal);
    ReleaseGives(st.reg, pal, |pal.sections|, p);
    if s :| s in pal.sections && s.typ == SHARED && PageOf(pal, s, p) {
      var j :| 0 <= j < |pal.sections| && pal.sections[j] == s;
      LayeredBelow(pal, j);
      AmongAt(pal, j, p);
    }
  }

  lemma LayeredBelow(pal: Pal, j: nat)
    requires Layered(pal) && (forall s :: s in pal.info ==> s.typ != SHARED)
    requires j < |pal.sections| && pal.sections[j].typ == SHARED
    ensures Unshared(pal.sections) <= j
  {
    InfoUnshared(pal);
  }
}
