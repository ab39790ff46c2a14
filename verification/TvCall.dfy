/** hpt_scode_switch_scode and hpt_scode_switch_regular: entering a PAL, leaving it, and
    the whole call. */
module TvCall {
  import opened ByteNumbers
  import TvPages
  import opened TvSpace
  import opened TvMessage
  import opened TvMarshall

  const RETURN_FROM_PAL_ADDRESS: nat := 4
  const EPT12_INVALID: int := -1
  const ALL_EXCEPTIONS: nat := 0xffff_ffff

  /** CR3: the address of the page tables, and the other bits. */
  datatype Cr3 = Cr3(address: nat, flags: nat)

  /** Which tables translate addresses. */
  datatype Tables = Tables(root: int, ept12: int, cr3: Cr3)

  /** Which events can reach the guest: IF, CR0.EM, the exception bitmap, NMI blocking. */
  datatype Events = Events(interrupts: bool, em: bool, exceptions: nat, nmiBlocked: bool)

  /** What nested virtualization would react to. */
  datatype Nesting = Nesting(interruptExit: bool, timer: nat, bitmap: nat)

  const QUIET: Nesting := Nesting(false, 0, 0)

  /** The parts of a virtual CPU that a call changes. */
  class Vcpu {
    var rsp: nat
    var rip: nat
    var regs: Regs
    var tables: Tables
    var events: Events
    var nesting: Nesting

    constructor (rsp: nat, rip: nat, regs: Regs, tables: Tables, events: Events, nesting: Nesting)
    {
      this.rsp, this.rip, this.regs, this.tables, this.events, this.nesting := rsp, rip, regs, tables, events, nesting;
    }
  }

  /** What a whitelist entry saves during a call. */
  datatype Saved = Saved(root: int, ept12: int, em: bool, exceptions: nat, nesting: Nesting)

  /** A whitelist entry. */
  class Pal {
    const info: Info
    const mem: Memory
    const root: int
    const palCr3: Cr3
    const gcr3: nat
    var grsp: int
    var returnV: nat
    var saved: Saved
    var runningVcpu: int
    var locked: bool

    constructor (info: Info, mem: Memory, root: int, palCr3: Cr3, gcr3: nat)
      ensures this.info == info && this.mem == mem && !locked && runningVcpu == -1
    {
      this.info, this.mem, this.root, this.palCr3, this.gcr3 := info, mem, root, palCr3, gcr3;
      grsp, returnV, saved, runningVcpu, locked := -1, 0, Saved(0, 0, false, 0, QUIET), -1, false;
    }
  }

  /** The state of the caller that a call has to bring back. */
  datatype Caller = Caller(rsp: nat, returnAddress: nat, cr3: nat, saved: Saved)

  ghost function CallerOf(v: Vcpu, guest: Space, g64: bool): Caller
    reads v
  {
    Caller(v.rsp, Decode(Load(guest, v.rsp, Word(g64))), v.tables.cr3.address,
           Saved(v.tables.root, v.tables.ept12, v.events.em, v.events.exceptions, v.nesting))
  }

  /** The entry remembers the caller. */
  ghost predicate Remembers(p: Pal, c: Caller)
    reads p
  {
    p.locked && p.grsp == c.rsp && p.returnV == c.returnAddress && p.gcr3 == c.cr3 && p.saved == c.saved
  }

  /** The caller is back where it was, one word up the stack at its return address. */
  ghost predicate Restored(v: Vcpu, c: Caller, g64: bool)
    reads v
  {
    && v.rsp == c.rsp + Word(g64) && v.rip == c.returnAddress
    && v.tables.root == c.saved.root && v.tables.ept12 == c.saved.ept12 && v.tables.cr3.address == c.cr3
    && v.events == Events(true, c.saved.em, c.saved.exceptions, false) && v.nesting == c.saved.nesting
  }

  /** The machine as a running PAL sees it. */
  ghost predicate Confined(v: Vcpu, p: Pal)
    reads v
  {
    && v.tables == Tables(p.root, EPT12_INVALID, p.palCr3) && v.nesting == QUIET
    && v.events == Events(false, true, ALL_EXCEPTIONS, true)
  }

  // --------------------------------------------------------------------- entry

  /** A call can be entered. */
  ghost predicate Enterable(v: Vcpu, p: Pal, guest: Space)
    requires Separate(p.info)
    reads v, p.mem
  {
    && CanRead(guest, v.rsp, Word(p.info.g64))
    && Allowed(p.mem.space, guest, p.info, Args(guest, p.info.params, v.regs, v.rsp, p.info.g64), v.rsp)
    && RspAt(p.info, 0) >= Word(p.info.g64)
    && CanWrite(p.mem.space, RspAt(p.info, 0) - Word(p.info.g64), Word(p.info.g64))
  }

  /** The parameters are laid out for the PAL: the message in the parameter pages, the
      stack parameters above the sentinel, the others in the argument registers. */
  ghost predicate Laid(v: Vcpu, p: Pal, args: seq<Arg>, r0: Regs)
    requires |args| == |p.info.params|
    reads v, p.mem
  {
    var w := Word(p.info.g64);
    && v.rsp + w == RspAt(p.info, 0) && Load(p.mem.space, v.rsp, w) == Encode(RETURN_FROM_PAL_ADDRESS, w)
    && Done(p.mem.space, p.info, args, 0, |Message(args)|, v.rsp + w) && RegsDone(r0, v.regs, p.info, args, 0)
  }

  /** Pushing the sentinel keeps the parameters. */
  lemma SentinelKeeps(s: Space, info: Info, args: seq<Arg>, rsp: nat)
    requires |args| == |info.params| && Separate(info) && Done(s, info, args, 0, |Message(args)|, rsp)
    requires |Message(args)| <= info.gpmPages * TvPages.PAGE_SIZE
    requires Word(info.g64) <= rsp && CanWrite(s, rsp - Word(info.g64), Word(info.g64))
    ensures var t := Store(s, rsp - Word(info.g64), Encode(RETURN_FROM_PAL_ADDRESS, Word(info.g64)));
      Done(t, info, args, 0, |Message(args)|, rsp)
      && Load(t, rsp - Word(info.g64), Word(info.g64)) == Encode(RETURN_FROM_PAL_ADDRESS, Word(info.g64))
  {
    hide Upto, Load, Store, CanWrite, Encode, Slots, Lowest, RspAt;
    var w := Word(info.g64);
    var data := Encode(RETURN_FROM_PAL_ADDRESS, w);
    RspBounds(info, 0);
    LoadBack(s, rsp - w, data);
    LoadElsewhere(s, rsp - w, data, rsp, info.gssp - rsp);
    LoadElsewhere(s, rsp - w, data, info.gpmp, |Message(args)|);
  }

  /** The PAL finds each argument, the value itself or the address of the copied data, where
      its calling convention puts it: in rdi, rsi, rdx, rcx, r8, r9 and then in words above
      the return address for a 64-bit PAL, in words there for a 32-bit one. */
  lemma CalleeSees(v: Vcpu, p: Pal, args: seq<Arg>, r0: Regs, i: nat)
    requires |args| == |p.info.params| && Separate(p.info) && Laid(v, p, args, r0) && i < |args|
    requires Passed(args, p.info.gpmp, i) < Pow256(Word(p.info.g64))
    ensures var g64, passed := p.info.g64, Passed(args, p.info.gpmp, i);
      && (g64 && i == 0 ==> v.regs.rdi == passed) && (g64 && i == 1 ==> v.regs.rsi == passed)
      && (g64 && i == 2 ==> v.regs.rdx == passed) && (g64 && i == 3 ==> v.regs.rcx == passed)
      && (g64 && i == 4 ==> v.regs.r8 == passed) && (g64 && i == 5 ==> v.regs.r9 == passed)
      && (g64 && i >= 6 ==> Decode(Load(p.mem.space, v.rsp + 8 + 8 * (i - 6), 8)) == passed)
      && (!g64 ==> Decode(Load(p.mem.space, v.rsp + 4 + 4 * i, 4)) == passed)
  {
    hide Load, Encode, Decode, Passed, Slots, Upto;
    var w, first := Word(p.info.g64), First(p.info.g64);
    if i >= first {
      var low, rsp := v.rsp + w, v.rsp;
      RspBounds(p.info, 0);
      SlotAt(args, p.info.gpmp, w, first, i);
      var o := (i - first) * w;
      LoadSlice(p.mem.space, low, p.info.gssp - low, o, o + w);
      DecodeEncode(Passed(args, p.info.gpmp, i), w);
    }
  }

  /** A copied buffer starts out as the caller's. */
  lemma CalleeReads(v: Vcpu, p: Pal, args: seq<Arg>, r0: Regs, i: nat)
    requires |args| == |p.info.params| && Laid(v, p, args, r0) && IsPointer(args, i)
    ensures Load(p.mem.space, Passed(args, p.info.gpmp, i), |args[i].data|) == args[i].data
  {
    hide Load, Encode, Upto;
    var m, u, n := |Message(args)|, |Upto(args, i + 1)|, |Record(args[i])|;
    RecordInMessage(args, i);
    LoadSlice(p.mem.space, p.info.gpmp, m, u, u + n);
    LoadSlice(p.mem.space, p.info.gpmp + u, n, 24, n);
    assert Record(args[i])[24..] == args[i].data;
  }

  /** The sentinel return address below the arguments. */
  method PushSentinel(p: Pal, rsp: nat) returns (ok: bool)
    requires Word(p.info.g64) <= rsp
    modifies p.mem
    ensures ok == CanWrite(old(p.mem.space), rsp - Word(p.info.g64), Word(p.info.g64))
    ensures ok ==>
      p.mem.space == Store(old(p.mem.space), rsp - Word(p.info.g64), Encode(RETURN_FROM_PAL_ADDRESS, Word(p.info.g64)))
  {
    ok := CopyTo(p.mem, rsp - Word(p.info.g64), Encode(RETURN_FROM_PAL_ADDRESS, Word(p.info.g64)));
  }

  /** The part of the entry that cannot fail: save the caller's state, change over to the
      PAL's tables, mask interrupts, the FPU and NMIs, and intercept all exceptions. */
  method Confine(v: Vcpu, p: Pal)
    requires v.events.interrupts
    modifies v`tables, v`events, v`nesting, p`saved
    ensures Confined(v, p)
    ensures p.saved == old(Saved(v.tables.root, v.tables.ept12, v.events.em, v.events.exceptions, v.nesting))
  {
    p.saved := p.saved.(root := v.tables.root, ept12 := v.tables.ept12);
    v.tables := v.tables.(root := p.root);
    v.tables := v.tables.(ept12 := EPT12_INVALID);
    v.tables := v.tables.(cr3 := p.palCr3);
    v.events := v.events.(interrupts := false);
    p.saved := p.saved.(em := v.events.em);
    v.events := v.events.(em := true);
    p.saved := p.saved.(nesting := v.nesting);
    v.nesting := QUIET;
    v.events := v.events.(nmiBlocked := true);
    p.saved := p.saved.(exceptions := v.events.exceptions);
    v.events := v.events.(exceptions := ALL_EXCEPTIONS);
  }

  /** The parameters and the sentinel, on the PAL's own stack. */
  method LayOut(v: Vcpu, p: Pal, guest: Memory, grsp: nat, ghost args: seq<Arg>) returns (ok: bool, ghost k: nat)
    requires p.mem != guest && Separate(p.info) && args == Args(guest.space, p.info.params, v.regs, grsp, p.info.g64)
    modifies v`rsp, v`regs, p.mem
    ensures ok == (&& Allowed(old(p.mem.space), guest.space, p.info, args, grsp)
                   && RspAt(p.info, 0) >= Word(p.info.g64)
                   && CanWrite(old(p.mem.space), RspAt(p.info, 0) - Word(p.info.g64), Word(p.info.g64)))
    ensures ok ==> Laid(v, p, args, old(v.regs)) && SameAccess(p.mem.space, old(p.mem.space))
    ensures StoppedAt(old(p.mem.space), guest.space, p.info, args, grsp, k)
    ensures RegsDone(old(v.regs), v.regs, p.info, args, k)
  {
    hide Load, Store, CanWrite, CanRead, Encode, Decode, Slots, Upto, Lowest, RegsDone, Separate, MakeArg;
    hide ArgValue, ArgAllowed, StoppedAt;
    var w := Word(p.info.g64);
    ghost var s0 := p.mem.space;
    var rsp, r;
    ok, rsp, r, k := Marshall(p.mem, guest, p.info, grsp, v.regs);
    v.regs := r;
    if ok {
      RspBounds(p.info, 0);
      ghost var s := p.mem.space;
      SameAccessMeans(s, s0, rsp - w, w);
      StoreSameAccess(s, rsp - w, Encode(RETURN_FROM_PAL_ADDRESS, w));
      ok := PushSentinel(p, rsp);
      if ok {
        v.rsp := rsp - w;
        SentinelKeeps(s, p.info, args, rsp);
      }
    }
  }

  /** How far an entry comes with the parameters: not at all if the return address cannot be
      read. */
  ghost predicate EntryStops(v: Vcpu, p: Pal, guest: Space, args: seq<Arg>, k: nat)
    requires |args| == |p.info.params|
    reads v, p.mem
  {
    && (!CanRead(guest, v.rsp, Word(p.info.g64)) ==> k == |args|)
    && (CanRead(guest, v.rsp, Word(p.info.g64)) ==> StoppedAt(p.mem.space, guest, p.info, args, v.rsp, k))
  }

  /** The lock, the return address, the caller's stack pointer and the parameters. If
      something fails the lock is free again and the stack pointer is the caller's, but
      argument registers may have changed. */
  method Prepare(v: Vcpu, p: Pal, guest: Memory, id: int, ghost args: seq<Arg>) returns (ok: bool, ghost k: nat)
    requires p.mem != guest && Separate(p.info) && !p.locked
    requires args == Args(guest.space, p.info.params, v.regs, v.rsp, p.info.g64)
    modifies v`rsp, v`regs, p`locked, p`runningVcpu, p`returnV, p`grsp, p.mem
    ensures ok == old(Enterable(v, p, guest.space))
    ensures !ok ==> v.rsp == old(v.rsp) && !p.locked && p.runningVcpu == -1
    ensures ok ==> p.locked && p.runningVcpu == id && p.grsp == old(v.rsp)
    ensures ok ==> p.returnV == Decode(Load(guest.space, old(v.rsp), Word(p.info.g64)))
    ensures ok ==> Laid(v, p, args, old(v.regs)) && SameAccess(p.mem.space, old(p.mem.space))
    ensures k <= |args| && old(EntryStops(v, p, guest.space, args, k)) && RegsDone(old(v.regs), v.regs, p.info, args, k)
  {
    hide Load, Store, CanWrite, CanRead, Decode, Allowed, Args, Separate, Laid, SameAccess, RspAt, RegsDone;
    k := |args|;
    NothingHandedOver(v.regs, p.info, args);
    p.locked, p.runningVcpu := true, id;
    var data;
    ok, data := CopyFrom(guest, v.rsp, Word(p.info.g64));
    if ok {
      p.returnV := Decode(data);
      var grsp := v.rsp;
      p.grsp := grsp;
      v.rsp := p.info.gssp;
      ok, k := LayOut(v, p, guest, grsp, args);
      if !ok {
        v.rsp := grsp;
        p.grsp := -1;
      }
    }
    if !ok { p.locked, p.runningVcpu := false, -1; }
  }

  /** hpt_scode_switch_scode, for a caller that has interrupts enabled. The argument
      registers are untouched exactly when every pointer among those handed over, which are
      the ones from k on, was already where its copy went. */
  method Enter(v: Vcpu, p: Pal, guest: Memory, id: int, ghost args: seq<Arg>) returns (ok: bool, ghost k: nat)
    requires p.mem != guest && Separate(p.info) && !p.locked && v.events.interrupts && v.tables.cr3.address == p.gcr3
    requires args == Args(guest.space, p.info.params, v.regs, v.rsp, p.info.g64)
    modifies v, p, p.mem
    ensures ok == old(Enterable(v, p, guest.space))
    ensures ok ==> Remembers(p, old(CallerOf(v, guest.space, p.info.g64))) && p.runningVcpu == id && Confined(v, p)
    ensures ok ==> Laid(v, p, args, old(v.regs)) && SameAccess(p.mem.space, old(p.mem.space))
    ensures !ok ==>
      !p.locked && p.runningVcpu == -1 && v.rsp == old(v.rsp) && v.rip == old(v.rip) && v.events.interrupts
    ensures !ok ==> CallerOf(v, guest.space, p.info.g64) == old(CallerOf(v, guest.space, p.info.g64))
    ensures k <= |args| && old(EntryStops(v, p, guest.space, args, k)) && RegsDone(old(v.regs), v.regs, p.info, args, k)
    ensures v.regs == old(v.regs) <==> RegsKept(p.info, args, k)
  {
    hide Load, Store, CanWrite, CanRead, Decode, Allowed, Args, Separate, SameAccess, Enterable, Done;
    hide RegsDone, RspAt, Encode, EntryStops, RegsKept;
    ghost var r0, rsp0 := v.regs, v.rsp;
    ok, k := Prepare(v, p, guest, id, args);
    RegsKeptIff(guest.space, rsp0, r0, v.regs, p.info, args, k);
    if !ok { return; }
    Confine(v, p);
  }

  // ---------------------------------------------------------------------- exit

  /** The return to the caller's tables, stack and events. */
  method GiveBack(v: Vcpu, p: Pal, ghost c: Caller)
    requires Remembers(p, c) && !v.events.interrupts && v.events.em
    modifies v`tables, v`events, v`nesting, v`rsp, v`rip, p`grsp
    ensures Restored(v, c, p.info.g64)
  {
    v.events := v.events.(exceptions := p.saved.exceptions);
    v.tables := v.tables.(ept12 := p.saved.ept12);
    v.tables := v.tables.(root := p.saved.root);
    v.tables := v.tables.(cr3 := Cr3(p.gcr3, 0));
    v.rsp := p.grsp + Word(p.info.g64);
    p.grsp := -1;
    v.events := v.events.(interrupts := true);
    if !p.saved.em { v.events := v.events.(em := false); }
    v.nesting := p.saved.nesting;
    v.events := v.events.(nmiBlocked := false);
    v.rip := p.returnV;
  }

  /** hpt_scode_switch_regular, for a PAL that has left interrupts disabled and CR0.EM
      set. The caller gets everything back, whether or not the data could be written. */
  method Exit(v: Vcpu, p: Pal, guest: Memory, ghost args: seq<Arg>, ghost c: Caller) returns (ok: bool)
    requires p.mem != guest && Remembers(p, c) && !v.events.interrupts && v.events.em
    requires HoldsMessage(p.mem.space, p.info.gpmp, args)
    modifies v, p, guest
    ensures ok == (p.info.params != [] && BuffersWritable(old(guest.space), args))
    ensures ok ==> guest.space == WriteBack(old(guest.space), args, 0) && Wiped(old(v.regs), v.regs, p.info.g64)
    ensures Restored(v, c, p.info.g64) && !p.locked && p.runningVcpu == -1
  {
    hide WriteBack, BuffersWritable, HoldsMessage;
    var r;
    ok, r := Unmarshall(p.mem, guest, p.info, v.regs, args);
    v.regs := r;
    GiveBack(v, p, c);
    p.runningVcpu := -1;
    p.locked := false;
  }

  // --------------------------------------------------------------- the whole call

  /** What a PAL does while it runs: anything to its memory, its registers and its stack
      pointer. */
  datatype Run = Run(memory: Space -> Space, regs: Regs, rsp: nat, rip: nat)

  /** It may change the data, but keeps the records around it. */
  ghost predicate KeepsRecords(run: Run, base: nat, answer: seq<Arg> -> seq<Arg>) {
    forall s, a :: HoldsMessage(s, base, a) ==>
      HoldsMessage(run.memory(s), base, answer(a)) && SameHeaders(a, answer(a))
  }

  /** A whole call. The caller comes back exactly as it left, and its memory differs only
      in the data the PAL has left in the pointer parameters. */
  method Call(v: Vcpu, p: Pal, guest: Memory, id: int, run: Run, ghost answer: seq<Arg> -> seq<Arg>)
    returns (entered: bool, ok: bool, ghost args: seq<Arg>)
    requires p.mem != guest && Separate(p.info) && !p.locked && v.events.interrupts && v.tables.cr3.address == p.gcr3
    requires RegsFit(v.regs) && SizesFit(p.info) && KeepsRecords(run, p.info.gpmp, answer)
    modifies v, p, p.mem, guest
    ensures args == old(Args(guest.space, p.info.params, v.regs, v.rsp, p.info.g64))
    ensures entered == old(Enterable(v, p, guest.space))
    ensures entered ==> Restored(v, old(CallerOf(v, guest.space, p.info.g64)), p.info.g64)
    ensures entered ==> SameHeaders(args, answer(args)) && ok == BuffersWritable(old(guest.space), answer(args))
    ensures entered && ok ==> guest.space == WriteBack(old(guest.space), answer(args), 0)
    ensures entered && ok ==> Wiped(run.regs, v.regs, p.info.g64)
    ensures !entered ==> guest.space == old(guest.space)
    ensures !p.locked && p.runningVcpu == -1
  {
    hide Args, Enterable, Separate, RegsFit, SizesFit, KeepsRecords, HoldsMessage, SameHeaders, WriteBack;
    hide BuffersWritable;
    hide CallerOf, Remembers, Restored, Load, Laid, SameAccess, Wiped;
    ok := false;
    args := Args(guest.space, p.info.params, v.regs, v.rsp, p.info.g64);
    ghost var c := CallerOf(v, guest.space, p.info.g64);
    entered := EnterHolding(v, p, guest, id, args);
    if !entered { return; }
    Kept(run, p.info.gpmp, answer, p.mem.space, args);
    p.mem.space, v.regs, v.rsp, v.rip := run.memory(p.mem.space), run.regs, run.rsp, run.rip;
    ok := Exit(v, p, guest, answer(args), c);
  }

  /** Entry, with the message that the PAL finds. */
  method EnterHolding(v: Vcpu, p: Pal, guest: Memory, id: int, ghost args: seq<Arg>) returns (ok: bool)
    requires p.mem != guest && Separate(p.info) && !p.locked && v.events.interrupts && v.tables.cr3.address == p.gcr3
    requires args == Args(guest.space, p.info.params, v.regs, v.rsp, p.info.g64)
    requires RegsFit(v.regs) && SizesFit(p.info)
    modifies v, p, p.mem
    ensures ok == old(Enterable(v, p, guest.space))
    ensures ok ==> Remembers(p, old(CallerOf(v, guest.space, p.info.g64))) && !v.events.interrupts && v.events.em
    ensures ok ==> HoldsMessage(p.mem.space, p.info.gpmp, args) && p.info.params != []
    ensures !ok ==> !p.locked && p.runningVcpu == -1
  {
    hide Load, Store, CanWrite, CanRead, Decode, Args, Separate, SameAccess, Done, RegsDone, RspAt;
    hide HoldsMessage, RegsFit, SizesFit;
    ghost var s0, r0, rsp0 := p.mem.space, v.regs, v.rsp;
    ghost var k;
    ok, k := Enter(v, p, guest, id, args);
    if ok { EnteredHolds(p.mem.space, s0, guest.space, p.info, r0, rsp0, v.rsp + Word(p.info.g64)); }
  }

  lemma Kept(run: Run, base: nat, answer: seq<Arg> -> seq<Arg>, s: Space, a: seq<Arg>)
    requires KeepsRecords(run, base, answer) && HoldsMessage(s, base, a)
    ensures HoldsMessage(run.memory(s), base, answer(a)) && SameHeaders(a, answer(a))
  {
  }

  lemma EnteredHolds(s: Space, s0: Space, guest: Space, info: Info, r: Regs, grsp: nat, rsp: nat)
    requires Separate(info) && RegsFit(r) && SizesFit(info) && SameAccess(s, s0)
    requires Allowed(s0, guest, info, Args(guest, info.params, r, grsp, info.g64), grsp)
    requires Done(s, info, Args(guest, info.params, r, grsp, info.g64), 0,
                  |Message(Args(guest, info.params, r, grsp, info.g64))|, rsp)
    ensures HoldsMessage(s, info.gpmp, Args(guest, info.params, r, grsp, info.g64)) && info.params != []
  {
    hide CanWrite, Load, Upto, Slots;
    MarshalledHolds(s, s0, guest, info, r, grsp, rsp);
  }
}
