/** PALs with a section over the page of the sentinel return address. Mapping that page
    replaces what the section had there: registering such a PAL may halt, and so may
    unregistering it. */
module TvReturnPage {
  import opened Wrappers
  import opened TvPages
  import opened TvGiveBack
  import opened TvReturnable
  import opened TvRuns
  import opened TvSafety

  /** No page of the sections but the return page itself leads to the return page. */
  ghost predicate Alone(pal: Pal) {
    forall s, v :: s in pal.sections && Covers(s, v) && v != RETURN_PAGE ==> !LeadsTo(pal, v, RETURN_PAGE)
  }

  /** The return page can be handed back: nothing to clear, readable, and not the page of
      another virtual page. */
  ghost predicate ReturnsReturn(pal: Pal, s: Section) {
    !MustClear(s.typ) && CanRead(pal, RETURN_PAGE) && Alone(pal)
  }

  /** Away from the return page every page of a registered PAL can be handed back. */
  lemma UsableElsewhere(pal: Pal, cov: Cover, j: nat, v: Page)
    requires KeptBy(pal, cov) && j < |pal.sections| && Covers(pal.sections[j], v) && v != RETURN_PAGE
    ensures v in cov - {RETURN_PAGE} && Usable(pal, pal.sections[j].typ, v)
  {
    var c := cov - {RETURN_PAGE};
    assert v in c && c[v] == pal.sections[j].typ;
    assert Leads(pal, v, pal.gpt[v].gpa, c[v]);
  }

  lemma NoClashElsewhere(pal: Pal, cov: Cover, v: Page, u: Page)
    requires KeptBy(pal, cov) && v in cov - {RETURN_PAGE} && u in cov - {RETURN_PAGE} && v != u
    ensures !Clash(pal, v, u)
  {
  }

  lemma SectionsDisjoint(pal: Pal, cov: Cover, j: nat, k: nat, v: Page)
    requires KeptBy(pal, cov) && j < |pal.sections| && k < |pal.sections|
    requires Covers(pal.sections[j], v) && Covers(pal.sections[k], v)
    ensures j == k
  {
  }

  lemma ReturnableIf(pal: Pal, cov: Cover)
    requires KeptBy(pal, cov)
    requires forall s :: s in pal.sections && Covers(s, RETURN_PAGE) ==> ReturnsReturn(pal, s)
    ensures Returnable(pal, pal.sections, |pal.sections|)
  {
    hide KeptBy, Alone;
    var ss := pal.sections;
    SentinelOf(pal, cov);
    forall j, v: Page | 0 <= j < |ss| && Covers(ss[j], v) ensures Usable(pal, ss[j].typ, v) {
      if v != RETURN_PAGE { UsableElsewhere(pal, cov, j, v); } else { assert ss[j] in ss; }
    }
    forall j, k, v: Page, u: Page |
      0 <= j < |ss| && 0 <= k < |ss| && Covers(ss[j], v) && Covers(ss[k], u) && (j != k || v != u)
      ensures !Clash(pal, v, u)
    {
      NoClashIf(pal, cov, j, k, v, u);
    }
  }

  lemma SentinelOf(pal: Pal, cov: Cover)
    requires KeptBy(pal, cov)
    ensures Sentinel(pal)
  {
  }

  lemma NoClashIf(pal: Pal, cov: Cover, j: nat, k: nat, v: Page, u: Page)
    requires KeptBy(pal, cov) && j < |pal.sections| && k < |pal.sections| && (j != k || v != u)
    requires Covers(pal.sections[j], v) && Covers(pal.sections[k], u)
    requires forall s :: s in pal.sections && Covers(s, RETURN_PAGE) ==> ReturnsReturn(pal, s)
    ensures !Clash(pal, v, u)
  {
    hide KeptBy;
    if v == u { SectionsDisjoint(pal, cov, j, k, v); }
    SentinelOf(pal, cov);
    assert pal.sections[j] in pal.sections && pal.sections[k] in pal.sections;
    if v != RETURN_PAGE && u != RETURN_PAGE {
      UsableElsewhere(pal, cov, j, v);
      UsableElsewhere(pal, cov, k, u);
      NoClashElsewhere(pal, cov, v, u);
    } else if v == RETURN_PAGE {
      assert ReturnsReturn(pal, pal.sections[j]) && !LeadsTo(pal, u, RETURN_PAGE);
    } else {
      assert ReturnsReturn(pal, pal.sections[k]) && !LeadsTo(pal, v, RETURN_PAGE);
    }
  }

  lemma OnlyReturnableIf(pal: Pal, s: Section)
    requires Sentinel(pal) && Returnable(pal, pal.sections, |pal.sections|)
    requires s in pal.sections && Covers(s, RETURN_PAGE)
    ensures ReturnsReturn(pal, s)
  {
    var ss := pal.sections;
    var j :| 0 <= j < |ss| && ss[j] == s;
    assert Usable(pal, ss[j].typ, RETURN_PAGE);
    forall t, v: Page | t in ss && Covers(t, v) && v != RETURN_PAGE ensures !LeadsTo(pal, v, RETURN_PAGE) {
      var k :| 0 <= k < |ss| && ss[k] == t;
      assert !Clash(pal, RETURN_PAGE, v);
    }
  }

  /** In every reachable state, unregistering a PAL works exactly when no section lies over
      the return page, or the one that does needs no clearing, the PAL can read the return
      page, and no other page of its sections leads there. Left aside is a PAL registered
      with a SHARED section over the return page, for which GiveBackIff gives the
      condition. */
  lemma UnregisterIff(st: State, i: int)
    requires Good(st) && i in st.pals && !SharedReturn(st.pals[i])
    ensures Unregister(st, i).Some? <==>
      forall s :: s in st.pals[i].sections && Covers(s, RETURN_PAGE) ==> ReturnsReturn(st.pals[i], s)
  {
    hide ReturnsReturn, Returnable, KeptBy, Separate;
    var pal := st.pals[i];
    assert Registered(pal);
    var cov :| KeptBy(pal, cov);
    SentinelOf(pal, cov);
    GiveBackIff(World(st.reg, st.mem, pal), pal.sections, |pal.sections|);
    if Unregister(st, i).Some? {
      forall s | s in pal.sections && Covers(s, RETURN_PAGE) ensures ReturnsReturn(pal, s) { OnlyReturnableIf(pal, s); }
    }
    if forall s :: s in pal.sections && Covers(s, RETURN_PAGE) ==> ReturnsReturn(pal, s) { ReturnableIf(pal, cov); }
  }

  /** Reading the sections of a PAL that is being registered works exactly when none of
      them lies over the return page, or the PAL can read the return page. */
  lemma MeasureIff(pal: Pal)
    requires Consistent(pal)
    ensures var pal' := MapReturn(pal);
      Measure(pal', |pal'.sections|) <==>
      (forall s :: s in pal.sections && Covers(s, RETURN_PAGE) ==> CanRead(pal, RETURN_PAGE))
  {
    var cov :| Agree(pal, cov) && MadeUp(pal.sections, cov);
    hide Agree, MadeUp, Measure, Readable;
    var pal', ss := MapReturn(pal), pal.sections;
    MeasureMeans(pal', |ss|);
    SentinelReadable(pal);
    if Measure(pal', |ss|) {
      forall s | s in ss && Covers(s, RETURN_PAGE) ensures CanRead(pal, RETURN_PAGE) {
        var j :| 0 <= j < |ss| && ss[j] == s;
        assert Covers(pal'.sections[j], RETURN_PAGE);
      }
    } else {
      var j, v: Page :| 0 <= j < |ss| && Covers(pal'.sections[j], v) && !Readable(pal', v);
      if v != RETURN_PAGE { ReadableElsewhere(pal, cov, j, v); }
      assert ss[j] in ss && Covers(ss[j], v);
    }
  }

  lemma SentinelReadable(pal: Pal)
    ensures Readable(MapReturn(pal), RETURN_PAGE) <==> CanRead(pal, RETURN_PAGE)
  {
  }

  lemma ReadableElsewhere(pal: Pal, cov: Cover, j: nat, v: Page)
    requires Agree(pal, cov) && MadeUp(pal.sections, cov)
    requires j < |pal.sections| && Covers(pal.sections[j], v) && v != RETURN_PAGE
    ensures Readable(MapReturn(pal), v)
  {
    assert v in cov && Leads(pal, v, pal.gpt[v].gpa, cov[v]);
  }

  lemma {:induction false} MeasurePagesMeans(pal: Pal, s: Section, n: nat)
    ensures MeasurePages(pal, s, n) <==> forall v :: s.start <= v < s.start + n ==> Readable(pal, v)
  {
    if n > 0 { MeasurePagesMeans(pal, s, n - 1); }
  }

  lemma {:induction false} MeasureMeans(pal: Pal, n: nat)
    requires n <= |pal.sections|
    ensures Measure(pal, n) <==> forall j, v :: 0 <= j < n && Covers(pal.sections[j], v) ==> Readable(pal, v)
  {
    if n > 0 {
      MeasureMeans(pal, n - 1);
      var s := pal.sections[n - 1];
      MeasurePagesMeans(pal, s, Pages(s));
      assert forall v: Page :: Covers(s, v) <==> s.start <= v < s.start + Pages(s);
    }
  }

  /** A section to be cleared over the return page: unregistering always halts. */
  lemma UnregisterHalts(st: State, i: int, k: nat)
    requires i in st.pals && k < |st.pals[i].sections| && Sentinel(st.pals[i])
    requires Covers(st.pals[i].sections[k], RETURN_PAGE) && MustClear(st.pals[i].sections[k].typ)
    ensures Unregister(st, i) == None
  {
    var pal := st.pals[i];
    assert !Usable(pal, pal.sections[k].typ, RETURN_PAGE);
    GiveBackIff(World(st.reg, st.mem, pal), pal.sections, |pal.sections|);
  }

  /** A guest with two pages, one of them the return page. */
  const TWO_PAGES := State(map[0 := RWX, 7 := RWX], map[], map[], {})

  /** Registering a section of n pages and unregistering it. */
  function BackAndForth(n: nat, t: SectionType, walk: map<Page, Page>): seq<Event> {
    [DoRegister(1, [Section(0, n * PAGE_SIZE, t)], walk, {}, true), DoUnregister(1)]
  }

  /** The PAL that lending n pages from page 0 on makes up, before its return page is mapped. */
  function Lent(n: nat, t: SectionType, npt: Table, gpt: GuestTable): Pal {
    var ss := [Section(0, n * PAGE_SIZE, t)];
    Pal(ss, ss, npt, gpt, {})
  }

  lemma LendOne(t: SectionType, q: Page)
    requires Exclusive(t) && (q == 0 || q == 7)
    ensures var s := Section(0, PAGE_SIZE, t);
      LendSections(TWO_PAGES.reg, NewPal([s], {}), [s], 1, map[0 := q]) ==
      Some((TWO_PAGES.reg[q := RegProt(t)], Lent(1, t, map[q := PalProt(t)], map[0 := Entry(q, RWX)])))
  {
    var s, pal, walk := Section(0, PAGE_SIZE, t), NewPal([Section(0, PAGE_SIZE, t)], {}), map[0 := q];
    assert pal.npt == map[];
    assert LendPages(TWO_PAGES.reg, pal, s, 0, walk) == Some((TWO_PAGES.reg, pal));
    var st := LendPage(TWO_PAGES.reg, pal, s, 0, walk).value;
    assert LendPages(TWO_PAGES.reg, pal, s, 1, walk) == Some(st);
    assert st.1.npt == map[q := PalProt(t)] && st.1.gpt == map[0 := Entry(q, RWX)];
    assert LendSections(TWO_PAGES.reg, pal, [s], 0, walk) == Some((TWO_PAGES.reg, pal));
    assert LendSections(TWO_PAGES.reg, pal, [s], 1, walk) == LendSection(TWO_PAGES.reg, pal, s, walk);
    assert pal.sections + [s] == [s];
  }

  lemma LendTwo()
    ensures var s := Section(0, 2 * PAGE_SIZE, CODE);
      LendSections(TWO_PAGES.reg, NewPal([s], {}), [s], 1, map[0 := 7, 1 := 0]) ==
      Some((map[0 := NONE, 7 := NONE],
            Lent(2, CODE, map[7 := RX, 0 := RX], map[0 := Entry(7, RWX), 1 := Entry(0, RWX)])))
  {
    var s, walk := Section(0, 2 * PAGE_SIZE, CODE), map[0 := 7, 1 := 0];
    var pal := NewPal([s], {});
    assert pal.npt == map[];
    assert LendPages(TWO_PAGES.reg, pal, s, 0, walk) == Some((TWO_PAGES.reg, pal));
    var st := LendPage(TWO_PAGES.reg, pal, s, 0, walk).value;
    assert LendPages(TWO_PAGES.reg, pal, s, 1, walk) == Some(st);
    var st' := LendPage(st.0, st.1, s, 1, walk).value;
    assert LendPages(TWO_PAGES.reg, pal, s, 2, walk) == Some(st');
    assert st'.0 == map[0 := NONE, 7 := NONE] && st'.1.npt == map[7 := RX, 0 := RX];
    assert st'.1.gpt == map[0 := Entry(7, RWX), 1 := Entry(0, RWX)];
    assert LendSections(TWO_PAGES.reg, pal, [s], 0, walk) == Some((TWO_PAGES.reg, pal));
    assert LendSections(TWO_PAGES.reg, pal, [s], 1, walk) == LendSection(TWO_PAGES.reg, pal, s, walk);
    assert pal.sections + [s] == [s];
  }

  /** The first step of a run, by what was lent. */
  lemma FirstStep(n: nat, t: SectionType, walk: map<Page, Page>, reg: Table, pal: Pal)
    requires var ss := [Section(0, n * PAGE_SIZE, t)];
      LendSections(TWO_PAGES.reg, NewPal(ss, {}), ss, 1, walk) == Some((reg, pal))
    requires |pal.sections| == 1 && pal.sections[0] == Section(0, n * PAGE_SIZE, t)
    ensures Initial(TWO_PAGES)
    ensures var r := Run(TWO_PAGES, BackAndForth(n, t, walk), 1);
      && (r.Some? <==> forall v :: 0 <= v < n ==> Readable(MapReturn(pal), v))
      && (r.Some? ==> r.value.pals == map[1 := MapReturn(pal)])
  {
    var es := BackAndForth(n, t, walk);
    assert Run(TWO_PAGES, es, 0) == Some(TWO_PAGES);
    MeasureMeans(MapReturn(pal), 1);
    MeasurePagesMeans(MapReturn(pal), pal.sections[0], n);
    assert Pages(pal.sections[0]) == n;
    assert Measure(MapReturn(pal), 0);
  }

  lemma SecondStep(n: nat, t: SectionType, walk: map<Page, Page>)
    requires Run(TWO_PAGES, BackAndForth(n, t, walk), 1).Some?
    ensures var es := BackAndForth(n, t, walk);
      Run(TWO_PAGES, es, 2) == Unregister(Run(TWO_PAGES, es, 1).value, 1)
  {
  }

  /** Runs from the start over the return page. Code mapped to itself comes back. */
  lemma CodeComesBack()
    ensures Initial(TWO_PAGES) && Run(TWO_PAGES, BackAndForth(1, CODE, map[0 := 0]), 2).Some?
  {
    hide Run, Returnable, LendSections, Measure;
    var pal := Lent(1, CODE, map[0 := RX], map[0 := Entry(0, RWX)]);
    LendOne(CODE, 0);
    FirstStep(1, CODE, map[0 := 0], TWO_PAGES.reg[0 := NONE], pal);
    SecondStep(1, CODE, map[0 := 0]);
    var st := Run(TWO_PAGES, BackAndForth(1, CODE, map[0 := 0]), 1).value;
    OneReturnable(MapReturn(pal));
    GiveBackIff(World(st.reg, st.mem, st.pals[1]), st.pals[1].sections, 1);
  }

  lemma OneReturnable(pal: Pal)
    requires pal.sections == [Section(0, PAGE_SIZE, CODE)] && Usable(pal, CODE, 0)
    ensures Returnable(pal, pal.sections, 1)
  {
  }

  /** A stack does not. */
  lemma StackDoesNot()
    ensures var es := BackAndForth(1, STACK, map[0 := 0]);
      Initial(TWO_PAGES) && Run(TWO_PAGES, es, 1).Some? && Run(TWO_PAGES, es, 2) == None
  {
    hide Run, Returnable, LendSections, Measure;
    var pal := Lent(1, STACK, map[0 := RW], map[0 := Entry(0, RWX)]);
    LendOne(STACK, 0);
    FirstStep(1, STACK, map[0 := 0], TWO_PAGES.reg[0 := NONE], pal);
    SecondStep(1, STACK, map[0 := 0]);
    UnregisterHalts(Run(TWO_PAGES, BackAndForth(1, STACK, map[0 := 0]), 1).value, 1, 0);
  }

  /** Code mapped to another page is not even registered. */
  lemma CodeElsewhereHalts()
    ensures Initial(TWO_PAGES) && Run(TWO_PAGES, BackAndForth(1, CODE, map[0 := 7]), 1) == None
  {
    var pal := Lent(1, CODE, map[7 := RX], map[0 := Entry(7, RWX)]);
    LendOne(CODE, 7);
    FirstStep(1, CODE, map[0 := 7], TWO_PAGES.reg[7 := NONE], pal);
    assert !Readable(MapReturn(pal), 0);
  }

  /** Unless another page of it leads to the return page; then it does not come back. */
  lemma CodeTwiceDoesNot()
    ensures var es := BackAndForth(2, CODE, map[0 := 7, 1 := 0]);
      Initial(TWO_PAGES) && Run(TWO_PAGES, es, 1).Some? && Run(TWO_PAGES, es, 2) == None
  {
    hide Run, Returnable, LendSections, Measure;
    var walk := map[0 := 7, 1 := 0];
    var pal := Lent(2, CODE, map[7 := RX, 0 := RX], map[0 := Entry(7, RWX), 1 := Entry(0, RWX)]);
    LendTwo();
    FirstStep(2, CODE, walk, map[0 := NONE, 7 := NONE], pal);
    SecondStep(2, CODE, walk);
    var st := Run(TWO_PAGES, BackAndForth(2, CODE, walk), 1).value;
    ClashNotReturnable(MapReturn(pal));
    GiveBackIff(World(st.reg, st.mem, st.pals[1]), st.pals[1].sections, 1);
  }

  lemma ClashNotReturnable(pal: Pal)
    requires pal.sections == [Section(0, 2 * PAGE_SIZE, CODE)] && Clash(pal, 0, 1)
    ensures !Returnable(pal, pal.sections, 1)
  {
    assert Covers(pal.sections[0], 0) && Covers(pal.sections[0], 1);
  }
}
