/** Runs of TrustVisor: registering and unregistering PALs, sharing memory with
    them and taking it back at PAL exit, interleaved with any writes by the guest
    and by PALs. A halt ends a run. */
module TvRuns {
  import opened Wrappers
  import opened TvPages
  import opened TvGiveBack

  const TV_MAX_SECTIONS: nat := 10

  /** The regular guest's nested table, the registered PALs, physical memory, and
      the pages of monitor memory that are free for PAL page tables. */
  datatype State = State(reg: Table, pals: map<int, Pal>, mem: Memory, free: set<Page>)

  // -------------------------------------------------------------- operations

  /** The loop of scode_register over the first n sections. */
  function LendSections(reg: Table, pal: Pal, ss: seq<Section>, n: nat, walk: map<Page, Page>): Option<(Table, Pal)>
    requires n <= |ss|
  {
    if n == 0 then Some((reg, pal))
    else match LendSections(reg, pal, ss, n - 1, walk)
      case None => None
      case Some(st) => LendSection(st.0, st.1, ss[n - 1], walk)
  }

  /** A new PAL: its tables hold only the pages of its own guest page tables. */
  function NewPal(info: seq<Section>, own: set<Page>): Pal {
    Pal(info, [], map p | p in own :: RWX, map[], own)
  }

  /** The page of the sentinel return address is mapped for the guest only. */
  function MapReturn(pal: Pal): Pal {
    pal.(gpt := pal.gpt[RETURN_PAGE := Entry(RETURN_PAGE, RX)])
  }

  /** hptw_checked_access_va for reading: both tables of the PAL must allow it. */
  predicate Readable(pal: Pal, v: Page) {
    && v in pal.gpt && pal.gpt[v].prot.read
    && pal.gpt[v].gpa in pal.npt && pal.npt[pal.gpt[v].gpa].read
  }

  /** scode_measure_section reads n pages; it aborts at one it cannot read. */
  predicate MeasurePages(pal: Pal, s: Section, n: nat) {
    n == 0 || (MeasurePages(pal, s, n - 1) && Readable(pal, s.start + (n - 1)))
  }

  /** scode_measure_sections, the first n sections. */
  predicate Measure(pal: Pal, n: nat)
    requires n <= |pal.sections|
  {
    n == 0 || (Measure(pal, n - 1) && MeasurePages(pal, pal.sections[n - 1], Pages(pal.sections[n - 1])))
  }

  /** scode_register into whitelist slot i. It gives up before touching memory when
      the whitelist is full, there are too many sections or no memory is left.
      When it gives up after the measurement (kept is false) the lent pages are not
      handed back. */
  function Register(st: State, i: int, ss: seq<Section>, walk: map<Page, Page>, own: set<Page>,
                    kept: bool): Option<State> {
    if i < 0 || i in st.pals || |ss| > TV_MAX_SECTIONS || !(own <= st.free) then Some(st)
    else match LendSections(st.reg, NewPal(ss, own), ss, |ss|, walk)
      case None => None
      case Some(lent) =>
        var pal, st' := MapReturn(lent.1), st.(reg := lent.0, free := st.free - own);
        if !Measure(pal, |pal.sections|) then None
        else if kept then Some(st'.(pals := st.pals[i := pal]))
        else Some(st')
  }

  /** scode_release_all_shared_pages: return SHARED sections from the end. */
  function Release(reg: Table, pal: Pal, n: nat): Option<(Table, Pal)>
    requires n == |pal.sections|
    decreases n
  {
    if n == 0 || pal.sections[n - 1].typ != SHARED then Some((reg, pal))
    else match ReturnPages(reg, pal, pal.sections[n - 1], Pages(pal.sections[n - 1]))
      case None => None
      case Some(st) => Release(st.0, st.1.(sections := pal.sections[..n - 1]), n - 1)
  }

  /** scode_share_ranges: each range becomes a SHARED section. When there is no
      room for one more, all shared sections are returned. */
  function ShareRanges(reg: Table, pal: Pal, ranges: seq<(Page, nat)>, walk: map<Page, Page>): Option<(Table, Pal)>
    decreases |ranges|
  {
    if ranges == [] then Some((reg, pal))
    else if |pal.sections| >= TV_MAX_SECTIONS then Release(reg, pal, |pal.sections|)
    else match LendSection(reg, pal, Section(ranges[0].0, ranges[0].1, SHARED), walk)
      case None => None
      case Some(st) => ShareRanges(st.0, st.1, ranges[1..], walk)
  }

  function Update(st: State, i: int, r: Option<(Table, Pal)>): Option<State> {
    match r
    case None => None
    case Some(t) => Some(st.(reg := t.0, pals := st.pals[i := t.1]))
  }

  /** scode_unregister */
  function Unregister(st: State, i: int): Option<State> {
    if i !in st.pals then Some(st)
    else
      var pal := st.pals[i];
      match GiveBack(World(st.reg, st.mem, pal), pal.sections, |pal.sections|)
      case None => None
      case Some(w) => Some(State(w.reg, st.pals - {i}, w.mem, st.free + pal.own))
  }

  datatype Event =
    | DoRegister(i: int, ss: seq<Section>, walk: map<Page, Page>, own: set<Page>, kept: bool)
    | DoShare(i: int, ranges: seq<(Page, nat)>, walk: map<Page, Page>)
    | DoExit(i: int)
    | DoUnregister(i: int)
    | GuestWrite(p: Page, c: Contents)
    | PalWrite(i: int, p: Page, c: Contents)

  /** One event. A write that the tables do not allow has no effect. */
  function Step(st: State, e: Event): Option<State> {
    match e
    case DoRegister(i, ss, walk, own, kept) => Register(st, i, ss, walk, own, kept)
    case DoShare(i, ranges, walk) =>
      if i !in st.pals then Some(st) else Update(st, i, ShareRanges(st.reg, st.pals[i], ranges, walk))
    case DoExit(i) =>
      if i !in st.pals then Some(st) else Update(st, i, Release(st.reg, st.pals[i], |st.pals[i].sections|))
    case DoUnregister(i) => Unregister(st, i)
    case GuestWrite(p, c) =>
      Some(if p in st.reg && st.reg[p].write then st.(mem := st.mem[p := c]) else st)
    case PalWrite(i, p, c) =>
      Some(if i in st.pals && p in st.pals[i].npt && st.pals[i].npt[p].write then st.(mem := st.mem[p := c]) else st)
  }

  /** The first n events of a run. */
  function Run(st: State, es: seq<Event>, n: nat): Option<State>
    requires n <= |es|
  {
    if n == 0 then Some(st)
    else match Run(st, es, n - 1)
      case None => None
      case Some(st') => Step(st', es[n - 1])
  }
}
