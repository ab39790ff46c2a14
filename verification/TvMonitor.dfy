/** The operations of pt.c and scode.c on page tables as they run: loops over the
    pages of a section and over the sections of a PAL, updating the tables in
    place. Each computes what the corresponding function of TvPages, TvGiveBack and
    TvRuns says. */
module TvMonitor {
  import opened Wrappers
  import opened TvPages
  import opened TvOwnership
  import opened TvGiveBack
  import opened TvRuns

  class Monitor {
    var reg: Table
    var pals: map<int, Pal>
    var mem: Memory
    var free: set<Page>
    var halted: bool

    ghost function Snapshot(): State
      reads this
    {
      State(reg, pals, mem, free)
    }

    /** scode_lend_section */
    method Lend(pal0: Pal, s: Section, walk: map<Page, Page>) returns (pal: Pal)
      requires !halted
      modifies this`reg, this`halted
      ensures match LendSection(old(reg), pal0, s, walk)
        case None => halted
        case Some(st) => !halted && reg == st.0 && pal == st.1
    {
      pal := pal0;
      if s.size % PAGE_SIZE != 0 {
        halted := true;
        return;
      }
      var k := 0;
      while k < Pages(s)
        invariant k <= Pages(s) && !halted && LendPages(old(reg), pal0, s, k, walk) == Some((reg, pal))
      {
        var v := s.start + k;
        if v !in walk || Present(pal.gpt, v) || walk[v] !in reg || !Grants(reg[walk[v]], PalProt(s.typ)) {
          halted := true;
          LendHaltStays(old(reg), pal0, s, k + 1, Pages(s), walk);
          return;
        }
        var p := walk[v];
        reg := reg[p := RegProt(s.typ)];
        pal := pal.(gpt := pal.gpt[v := Entry(p, RWX)], npt := pal.npt[p := PalProt(s.typ)]);
        k := k + 1;
      }
      LendPagesKeeps(old(reg), pal0, s, Pages(s), walk);
      pal := pal.(sections := pal.sections + [s]);
    }

    /** scode_return_section */
    method Return(pal0: Pal, s: Section) returns (pal: Pal)
      requires !halted
      modifies this`reg, this`halted
      ensures match ReturnPages(old(reg), pal0, s, Pages(s))
        case None => halted
        case Some(st) => !halted && reg == st.0 && pal == st.1
    {
      pal := pal0;
      var k := 0;
      while k < Pages(s)
        invariant k <= Pages(s) && !halted && ReturnPages(old(reg), pal0, s, k) == Some((reg, pal))
      {
        var v := s.start + k;
        if v !in pal.gpt || pal.gpt[v].gpa !in pal.npt || !pal.npt[pal.gpt[v].gpa].read {
          halted := true;
          ReturnHaltStays(old(reg), pal0, s, k + 1, Pages(s));
          return;
        }
        var p := pal.gpt[v].gpa;
        pal := pal.(npt := pal.npt[p := NONE], gpt := pal.gpt[v := Entry(p, NONE)]);
        reg := reg[p := RWX];
        k := k + 1;
      }
    }

    /** hptw_checked_memset_va over a section, through the tables of the PAL */
    method Clear(pal: Pal, s: Section)
      requires !halted
      modifies this`mem, this`halted
      ensures match ZeroPages(old(mem), pal, s, Pages(s))
        case None => halted
        case Some(m) => !halted && mem == m
    {
      var k := 0;
      while k < Pages(s)
        invariant k <= Pages(s) && !halted && ZeroPages(old(mem), pal, s, k) == Some(mem)
      {
        var v := s.start + k;
        if v !in pal.gpt || !pal.gpt[v].prot.write || pal.gpt[v].gpa !in pal.npt || !pal.npt[pal.gpt[v].gpa].write {
          halted := true;
          ZeroHaltStays(old(mem), pal, s, k + 1, Pages(s));
          return;
        }
        mem := mem[pal.gpt[v].gpa := ZeroBytes()];
        k := k + 1;
      }
    }

    /** scode_unregister: the loop over the sections, then the entry goes. */
    method Remove(i: int)
      requires !halted
      modifies this
      ensures match Unregister(old(Snapshot()), i)
        case None => halted
        case Some(st) => !halted && Snapshot() == st
    {
      if i !in pals { return; }
      var pal := pals[i];
      var ss := pal.sections;
      ghost var w := World(reg, mem, pal);
      var j := 0;
      while j < |ss|
        invariant j <= |ss| && !halted && GiveBack(w, ss, j) == Some(World(reg, mem, pal))
        invariant pals == old(pals) && free == old(free)
      {
        ghost var w1 := World(reg, mem, pal);
        if MustClear(ss[j].typ) {
          Clear(pal, ss[j]);
        }
        if !halted {
          pal := Return(pal, ss[j]);
        }
        if halted {
          assert GiveBackSection(w1, ss[j]) == None;
          GiveBackHaltStays(w, ss, j + 1, |ss|);
          return;
        }
        j := j + 1;
      }
      free := free + pals[i].own;
      pals := pals - {i};
    }

    /** scode_measure_sections, as far as reading goes: the hash has no effect here. */
    method ReadSections(pal: Pal) returns (ok: bool)
      ensures ok == Measure(pal, |pal.sections|)
    {
      var j := 0;
      while j < |pal.sections|
        invariant j <= |pal.sections| && Measure(pal, j)
      {
        ok := ReadPages(pal, pal.sections[j]);
        if !ok {
          MeasureFails(pal, j + 1, |pal.sections|);
          return;
        }
        j := j + 1;
      }
      ok := true;
    }

    /** scode_measure_section */
    method ReadPages(pal: Pal, s: Section) returns (ok: bool)
      ensures ok == MeasurePages(pal, s, Pages(s))
    {
      var k := 0;
      while k < Pages(s)
        invariant k <= Pages(s) && MeasurePages(pal, s, k)
      {
        if !Readable(pal, s.start + k) {
          MeasurePagesFails(pal, s, k + 1, Pages(s));
          return false;
        }
        k := k + 1;
      }
      ok := true;
    }

    /** scode_register: allocate the tables, lend the sections, map the return page, read
        all of it. */
    method Add(i: int, ss: seq<Section>, walk: map<Page, Page>, own: set<Page>, kept: bool)
      requires !halted
      modifies this
      ensures match Register(old(Snapshot()), i, ss, walk, own, kept)
        case None => halted
        case Some(st) => !halted && Snapshot() == st
    {
      if i < 0 || i in pals || |ss| > TV_MAX_SECTIONS || !(own <= free) { return; }
      free := free - own;
      var pal := NewPal(ss, own);
      var j := 0;
      while j < |ss|
        invariant j <= |ss| && !halted && LendSections(old(reg), NewPal(ss, own), ss, j, walk) == Some((reg, pal))
        invariant pals == old(pals) && free == old(free) - own && mem == old(mem)
      {
        pal := Lend(pal, ss[j], walk);
        if halted {
          LendSectionsHaltStays(old(reg), NewPal(ss, own), ss, j + 1, |ss|, walk);
          return;
        }
        j := j + 1;
      }
      pal := MapReturn(pal);
      var ok := ReadSections(pal);
      if !ok {
        halted := true;
        return;
      }
      if kept {
        pals := pals[i := pal];
      }
    }

    /** scode_share_ranges */
    method Share(i: int, ranges: seq<(Page, nat)>, walk: map<Page, Page>)
      requires !halted
      modifies this
      ensures match Step(old(Snapshot()), DoShare(i, ranges, walk))
        case None => halted
        case Some(st) => !halted && Snapshot() == st
    {
      if i !in pals { return; }
      var pal := pals[i];
      var k := 0;
      while k < |ranges|
        invariant k <= |ranges| && !halted && pals == old(pals) && free == old(free) && mem == old(mem)
        invariant ShareRanges(old(reg), old(pals)[i], ranges, walk) == ShareRanges(reg, pal, ranges[k..], walk)
      {
        if |pal.sections| >= TV_MAX_SECTIONS {
          pal := ReleaseShared(pal);
          if !halted { pals := pals[i := pal]; }
          return;
        }
        assert ranges[k..][1..] == ranges[k + 1..];
        pal := Lend(pal, Section(ranges[k].0, ranges[k].1, SHARED), walk);
        if halted { return; }
        k := k + 1;
      }
      pals := pals[i := pal];
    }

    /** scode_release_all_shared_pages */
    method ReleaseShared(pal0: Pal) returns (pal: Pal)
      requires !halted
      modifies this`reg, this`halted
      ensures match Release(old(reg), pal0, |pal0.sections|)
        case None => halted
        case Some(st) => !halted && reg == st.0 && pal == st.1
    {
      pal := pal0;
      var i := |pal.sections| - 1;
      while i >= 0 && pal.sections[i].typ == SHARED
        invariant -1 <= i && i + 1 == |pal.sections| && !halted
        invariant Release(old(reg), pal0, |pal0.sections|) == Release(reg, pal, |pal.sections|)
        decreases i + 1
      {
        ghost var ss := pal.sections;
        ReturnKeeps(reg, pal, pal.sections[i], Pages(pal.sections[i]));
        pal := Return(pal, pal.sections[i]);
        if halted { return; }
        pal := pal.(sections := pal.sections[..i]);
        i := i - 1;
      }
    }
  }

  lemma {:induction false} MeasureFails(pal: Pal, k: nat, n: nat)
    requires k <= n <= |pal.sections| && !Measure(pal, k)
    ensures !Measure(pal, n)
  {
    if k < n { MeasureFails(pal, k, n - 1); }
  }

  lemma {:induction false} MeasurePagesFails(pal: Pal, s: Section, k: nat, n: nat)
    requires k <= n && !MeasurePages(pal, s, k)
    ensures !MeasurePages(pal, s, n)
  {
    if k < n { MeasurePagesFails(pal, s, k, n - 1); }
  }

  lemma {:induction false} LendHaltStays(reg: Table, pal: Pal, s: Section, k: nat, n: nat, walk: map<Page, Page>)
    requires k <= n && LendPages(reg, pal, s, k, walk) == None
    ensures LendPages(reg, pal, s, n, walk) == None
  {
    if k < n { LendHaltStays(reg, pal, s, k, n - 1, walk); }
  }

  lemma {:induction false} ReturnHaltStays(reg: Table, pal: Pal, s: Section, k: nat, n: nat)
    requires k <= n && ReturnPages(reg, pal, s, k) == None
    ensures ReturnPages(reg, pal, s, n) == None
  {
    if k < n { ReturnHaltStays(reg, pal, s, k, n - 1); }
  }

  lemma {:induction false} ZeroHaltStays(mem: Memory, pal: Pal, s: Section, k: nat, n: nat)
    requires k <= n && ZeroPages(mem, pal, s, k) == None
    ensures ZeroPages(mem, pal, s, n) == None
  {
    if k < n { ZeroHaltStays(mem, pal, s, k, n - 1); }
  }

  lemma {:induction false} ReturnKeeps(reg: Table, pal: Pal, s: Section, n: nat)
    ensures ReturnPages(reg, pal, s, n).Some? ==> ReturnPages(reg, pal, s, n).value.1.sections == pal.sections
  {
    if n > 0 { ReturnKeeps(reg, pal, s, n - 1); }
  }

  lemma {:induction false} LendSectionsHaltStays(reg: Table, pal: Pal, ss: seq<Section>, k: nat, n: nat,
                                                 walk: map<Page, Page>)
    requires k <= n <= |ss| && LendSections(reg, pal, ss, k, walk) == None
    ensures LendSections(reg, pal, ss, n, walk) == None
  {
    if k < n { LendSectionsHaltStays(reg, pal, ss, k, n - 1, walk); }
  }
}
