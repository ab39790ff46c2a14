/** The page tables through which TrustVisor lends memory of the regular guest to
    PALs (pieces of application logic) and takes it back, one 4K page at a time.
    Addresses are page numbers. The nested table of the regular guest is an
    identity mapping, so a table only records protections. */
module TvPages {
  import opened Wrappers

  type Page = nat

  const PAGE_SIZE: nat := 4096

  // ------------------------------------------------------------- protections

  datatype Prot = Prot(read: bool, write: bool, exec: bool)

  const NONE := Prot(false, false, false)
  const RX := Prot(true, false, true)
  const RW := Prot(true, true, false)
  const RWX := Prot(true, true, true)

  predicate Grants(have: Prot, want: Prot) {
    (want.read ==> have.read) && (want.write ==> have.write) && (want.exec ==> have.exec)
  }

  datatype SectionType = CODE | DATA | PARAM | STACK | SHARED_CODE | SHARED | GUEST_PAGE_TABLES

  /** pal_prot_of_type */
  function PalProt(t: SectionType): Prot {
    match t
    case CODE => RX
    case SHARED_CODE => RX
    case DATA => RW
    case PARAM => RW
    case STACK => RW
    case SHARED => RW
    case GUEST_PAGE_TABLES => RWX
  }

  /** reg_prot_of_type */
  function RegProt(t: SectionType): Prot {
    match t
    case CODE => NONE
    case SHARED_CODE => RX
    case DATA => NONE
    case PARAM => NONE
    case STACK => NONE
    case SHARED => NONE
    case GUEST_PAGE_TABLES => RWX
  }

  /** The types that are lent for exclusive use; the other two stay visible to the guest. */
  predicate Exclusive(t: SectionType) {
    t != SHARED_CODE && t != GUEST_PAGE_TABLES
  }

  // ------------------------------------------------------------------ tables

  /** A nested page table: the protection of every mapped page. */
  type Table = map<Page, Prot>

  predicate Accessible(t: Table, p: Page) {
    p in t && t[p] != NONE
  }

  /** An entry of a PAL's own guest page table. */
  datatype Entry = Entry(gpa: Page, prot: Prot)

  type GuestTable = map<Page, Entry>

  predicate Present(g: GuestTable, v: Page) {
    v in g && g[v].prot != NONE
  }

  /** A section of a PAL: size bytes from virtual page start on, at the same
      address in the guest and in the PAL. */
  datatype Section = Section(start: Page, size: nat, typ: SectionType)

  function Pages(s: Section): nat { s.size / PAGE_SIZE }

  predicate Covers(s: Section, v: Page) {
    s.start <= v < s.start + Pages(s)
  }

  /** The parts of a whitelist entry that concern memory: the sections it was
      registered with, those it holds now, its two tables, and the pages of monitor
      memory that hold its guest page table. */
  datatype Pal = Pal(info: seq<Section>, sections: seq<Section>, npt: Table, gpt: GuestTable, own: set<Page>)

  /** The page of the sentinel return address. */
  const RETURN_PAGE: Page := 0

  // ----------------------------------------------------------------- lending

  /** scode_lend_section for page k of a section. `walk` gives the guest-physical
      page of each virtual page whose guest mapping (and nested mapping, for a
      nested guest) grants the access asked for. None is a halt. */
  function LendPage(reg: Table, pal: Pal, s: Section, k: nat, walk: map<Page, Page>): Option<(Table, Pal)> {
    var v := s.start + k;
    if v !in walk then None
    else if Present(pal.gpt, v) then None
    else if walk[v] !in reg || !Grants(reg[walk[v]], PalProt(s.typ)) then None
    else
      var p := walk[v];
      Some((reg[p := RegProt(s.typ)], pal.(gpt := pal.gpt[v := Entry(p, RWX)], npt := pal.npt[p := PalProt(s.typ)])))
  }

  /** The first n pages of a section. */
  function LendPages(reg: Table, pal: Pal, s: Section, n: nat, walk: map<Page, Page>): Option<(Table, Pal)> {
    if n == 0 then Some((reg, pal))
    else match LendPages(reg, pal, s, n - 1, walk)
      case None => None
      case Some(st) => LendPage(st.0, st.1, s, n - 1, walk)
  }

  /** scode_lend_section, and the section recorded with the PAL. */
  function LendSection(reg: Table, pal: Pal, s: Section, walk: map<Page, Page>): Option<(Table, Pal)> {
    if s.size % PAGE_SIZE != 0 then None
    else match LendPages(reg, pal, s, Pages(s), walk)
      case None => None
      case Some(st) => Some((st.0, st.1.(sections := st.1.sections + [s])))
  }

  /** scode_return_section for page k of a section. */
  function ReturnPage(reg: Table, pal: Pal, s: Section, k: nat): Option<(Table, Pal)> {
    var v := s.start + k;
    if v !in pal.gpt then None
    else
      var p := pal.gpt[v].gpa;
      if p !in pal.npt || !pal.npt[p].read then None
      else Some((reg[p := RWX], pal.(gpt := pal.gpt[v := Entry(p, NONE)], npt := pal.npt[p := NONE])))
  }

  function ReturnPages(reg: Table, pal: Pal, s: Section, n: nat): Option<(Table, Pal)> {
    if n == 0 then Some((reg, pal))
    else match ReturnPages(reg, pal, s, n - 1)
      case None => None
      case Some(st) => ReturnPage(st.0, st.1, s, n - 1)
  }

  // -------------------------------------------------------------- ownership

  /** No page can be reached both from the regular guest and from a PAL, nor from
      two PALs; i ranges over the PALs. */
  ghost predicate Separate(reg: Table, pals: map<int, Pal>) {
    && (forall i, p :: i in pals && Accessible(pals[i].npt, p) ==> !Accessible(reg, p))
    && (forall i, j, p :: i in pals && j in pals && i != j && Accessible(pals[i].npt, p) ==>
          !Accessible(pals[j].npt, p))
  }

  /** Virtual pages a PAL has been lent, with the type of their section. */
  type Cover = map<Page, SectionType>

  predicate HasProt(pal: Pal, p: Page, t: SectionType) {
    p in pal.npt && pal.npt[p] == PalProt(t)
  }

  /** Virtual page v leads to page p, which the PAL reaches as its type allows. */
  predicate Leads(pal: Pal, v: Page, p: Page, t: SectionType) {
    v in pal.gpt && pal.gpt[v] == Entry(p, RWX) && HasProt(pal, p, t)
  }

  /** Some lent virtual page leads to p. */
  ghost predicate Reached(pal: Pal, cov: Cover, p: Page) {
    exists v :: v in cov && v in pal.gpt && pal.gpt[v].gpa == p
  }

  /** A PAL's tables lead from every lent virtual page to a page of its own, with the
      access its type allows, and from no other virtual page but the one of the sentinel
      return address. */
  ghost predicate Mapped(pal: Pal, cov: Cover) {
    && (forall v :: Present(pal.gpt, v) && v != RETURN_PAGE ==> v in cov)
    && (forall v :: v in cov ==>
          v in pal.gpt && Leads(pal, v, pal.gpt[v].gpa, cov[v]) && pal.gpt[v].gpa !in pal.own)
    && (forall v, u :: v in cov && u in cov && v != u ==> pal.gpt[v].gpa != pal.gpt[u].gpa)
    && (forall p :: p in pal.own ==> Accessible(pal.npt, p))
  }

  /** The PAL reaches nothing but its page tables and the pages it was lent. */
  ghost predicate Confined(pal: Pal, cov: Cover) {
    forall p :: Accessible(pal.npt, p) ==> p in pal.own || Reached(pal, cov, p)
  }

  ghost predicate Agree(pal: Pal, cov: Cover) {
    Mapped(pal, cov) && Confined(pal, cov)
  }

  /** The cover that a list of disjoint sections makes up. */
  ghost predicate MadeUp(ss: seq<Section>, cov: Cover) {
    && (forall v :: v in cov ==> exists i :: 0 <= i < |ss| && Covers(ss[i], v))
    && (forall i, v :: 0 <= i < |ss| && Covers(ss[i], v) ==> v in cov && cov[v] == ss[i].typ)
    && (forall i, j, v :: 0 <= i < j < |ss| && Covers(ss[i], v) ==> !Covers(ss[j], v))
  }

  ghost predicate Consistent(pal: Pal) {
    exists cov :: Agree(pal, cov) && MadeUp(pal.sections, cov)
  }
}
