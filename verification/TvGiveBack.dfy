/** Taking memory back from a PAL: zeroing what only the PAL could see, and handing
    every page to the regular guest again. */
module TvGiveBack {
  import opened Wrappers
  import opened TvPages
  import opened TvOwnership

  type Contents = seq<nat>
  type Memory = map<Page, Contents>

  /** A page of zeros. */
  function ZeroBytes(): (c: Contents)
    ensures |c| == PAGE_SIZE && forall i :: 0 <= i < |c| ==> c[i] == 0
  {
    seq(PAGE_SIZE, i => 0)
  }

  /** Sections that the PAL may write and the guest may not read are cleared. */
  predicate MustClear(t: SectionType) {
    PalProt(t).write && !RegProt(t).read
  }

  /** One page of hptw_checked_memset_va: both tables of the PAL must allow the write. */
  function ZeroPage(mem: Memory, pal: Pal, s: Section, k: nat): Option<Memory> {
    var v := s.start + k;
    if v !in pal.gpt || !pal.gpt[v].prot.write then None
    else
      var p := pal.gpt[v].gpa;
      if p !in pal.npt || !pal.npt[p].write then None else Some(mem[p := ZeroBytes()])
  }

  function ZeroPages(mem: Memory, pal: Pal, s: Section, n: nat): Option<Memory> {
    if n == 0 then Some(mem)
    else match ZeroPages(mem, pal, s, n - 1)
      case None => None
      case Some(m) => ZeroPage(m, pal, s, n - 1)
  }

  datatype World = World(reg: Table, mem: Memory, pal: Pal)

  /** One section of scode_unregister: clear if necessary, then return. */
  function GiveBackSection(w: World, s: Section): Option<World> {
    var cleared := if MustClear(s.typ) then ZeroPages(w.mem, w.pal, s, Pages(s)) else Some(w.mem);
    match cleared
    case None => None
    case Some(m) =>
      match ReturnPages(w.reg, w.pal, s, Pages(s))
      case None => None
      case Some(st) => Some(World(st.0, m, st.1))
  }

  /** The first n of a list of sections. */
  function GiveBack(w: World, ss: seq<Section>, n: nat): Option<World>
    requires n <= |ss|
  {
    if n == 0 then Some(w)
    else match GiveBack(w, ss, n - 1)
      case None => None
      case Some(w') => GiveBackSection(w', ss[n - 1])
  }

  lemma {:induction false} GiveBackHaltStays(w: World, ss: seq<Section>, k: nat, n: nat)
    requires k <= n <= |ss| && GiveBack(w, ss, k) == None
    ensures GiveBack(w, ss, n) == None
  {
    if k < n { GiveBackHaltStays(w, ss, k, n - 1); }
  }

  // ---------------------------------------------------------- what is changed

  /** Page p belongs to the first n pages of section s. */
  predicate BelongsTo(pal: Pal, s: Section, n: nat, p: Page) {
    exists v :: s.start <= v < s.start + n && v in pal.gpt && pal.gpt[v].gpa == p
  }

  lemma BelongsStep(pal: Pal, s: Section, n: nat, p: Page)
    requires n > 0 && s.start + (n - 1) in pal.gpt
    ensures BelongsTo(pal, s, n, p) <==> BelongsTo(pal, s, n - 1, p) || pal.gpt[s.start + (n - 1)].gpa == p
  {
  }

  /** Clearing succeeds on lent writable pages. */
  lemma {:induction false} ZeroPagesWork(mem: Memory, pal: Pal, cov: Cover, s: Section, n: nat)
    requires Agree(pal, cov) && MustClear(s.typ)
    requires forall v :: s.start <= v < s.start + n ==> v in cov && cov[v] == s.typ
    ensures ZeroPages(mem, pal, s, n).Some?
  {
    if n > 0 {
      ZeroPagesWork(mem, pal, cov, s, n - 1);
      var v := s.start + (n - 1);
      assert v in cov && Leads(pal, v, pal.gpt[v].gpa, cov[v]);
    }
  }

  /** The page holds 4096 zero bytes. */
  ghost predicate Zeroed(mem: Memory, p: Page) {
    p in mem && |mem[p]| == 4096 && forall i :: 0 <= i < 4096 ==> mem[p][i] == 0
  }

  /** What giving back does to page p of a section of type t: it becomes the guest's again,
      all zero if it was data, parameter, stack or shared memory, else unchanged. */
  ghost predicate GivenBack(w: World, w': World, p: Page, t: SectionType) {
    && p in w'.reg && w'.reg[p] == Prot(true, true, true)
    && (t in {DATA, PARAM, STACK, SHARED} ==> Zeroed(w'.mem, p))
    && (t !in {DATA, PARAM, STACK, SHARED} ==> SameMemory(w, w', p))
  }

  ghost predicate SameMemory(w: World, w': World, p: Page) {
    (p in w'.mem <==> p in w.mem) && (p in w.mem ==> w'.mem[p] == w.mem[p])
  }

  ghost predicate Untouched(w: World, w': World, p: Page) {
    && (p in w'.reg <==> p in w.reg) && (p in w.reg ==> w'.reg[p] == w.reg[p])
    && SameMemory(w, w', p)
  }

  lemma {:induction false} GiveBackSectionWorks(w: World, cov: Cover, s: Section)
    requires Agree(w.pal, cov) && forall v :: Covers(s, v) ==> v in cov && cov[v] == s.typ
    ensures GiveBackSection(w, s).Some? && Agree(GiveBackSection(w, s).value.pal, Shrunk(cov, s, Pages(s)))
  {
    hide Agree;
    var n := Pages(s);
    forall v | s.start <= v < s.start + n ensures v in cov && cov[v] == s.typ {
      assert Covers(s, v);
    }
    ReturnPagesAgree(w.reg, w.pal, cov, s, n);
    if MustClear(s.typ) { ZeroPagesWork(w.mem, w.pal, cov, s, n); }
  }

  // --------------------------------------------------------- all the sections

  /** The cover left after the first n sections are handed back. */
  function Remaining(cov: Cover, ss: seq<Section>, n: nat): Cover
    requires n <= |ss|
  {
    if n == 0 then cov else Shrunk(Remaining(cov, ss, n - 1), ss[n - 1], Pages(ss[n - 1]))
  }

  lemma {:induction false} RemainingAt(cov: Cover, ss: seq<Section>, n: nat, v: Page)
    requires n <= |ss|
    ensures v in Remaining(cov, ss, n) <==> v in cov && forall i :: 0 <= i < n ==> !Covers(ss[i], v)
    ensures v in Remaining(cov, ss, n) ==> Remaining(cov, ss, n)[v] == cov[v]
  {
    if n > 0 {
      RemainingAt(cov, ss, n - 1, v);
      ShrunkAt(Remaining(cov, ss, n - 1), ss[n - 1], Pages(ss[n - 1]), v);
    }
  }

  /** A section not handed back yet is still covered. */
  lemma StillCovered(cov: Cover, ss: seq<Section>, n: nat)
    requires MadeUp(ss, cov) && n < |ss|
    ensures forall v :: Covers(ss[n], v) ==> v in Remaining(cov, ss, n) && Remaining(cov, ss, n)[v] == ss[n].typ
  {
    forall v | Covers(ss[n], v) ensures v in Remaining(cov, ss, n) && Remaining(cov, ss, n)[v] == ss[n].typ {
      RemainingAt(cov, ss, n, v);
    }
  }

  /** Handing back any number of sections never halts. */
  lemma {:induction false} GiveBackWorks(w: World, cov: Cover, ss: seq<Section>, n: nat)
    requires Agree(w.pal, cov) && MadeUp(ss, cov) && n <= |ss|
    ensures GiveBack(w, ss, n).Some? && Agree(GiveBack(w, ss, n).value.pal, Remaining(cov, ss, n))
  {
    hide Agree, MadeUp;
    if n > 0 {
      GiveBackWorks(w, cov, ss, n - 1);
      StillCovered(cov, ss, n - 1);
      GiveBackSectionWorks(GiveBack(w, ss, n - 1).value, Remaining(cov, ss, n - 1), ss[n - 1]);
    }
  }

  /** Page p is one of section s. */
  predicate PageOf(pal: Pal, s: Section, p: Page) { BelongsTo(pal, s, Pages(s), p) }

  lemma NothingRemains(cov: Cover, ss: seq<Section>)
    requires MadeUp(ss, cov)
    ensures forall v :: v !in Remaining(cov, ss, |ss|)
  {
    forall v ensures v !in Remaining(cov, ss, |ss|) {
      RemainingAt(cov, ss, |ss|, v);
    }
  }

  lemma OnlyOwn(pal: Pal, cov: Cover)
    requires Agree(pal, cov) && forall v :: v !in cov
    ensures forall p :: Accessible(pal.npt, p) ==> p in pal.own
  {
  }
}
