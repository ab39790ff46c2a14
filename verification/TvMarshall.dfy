/** scode_marshall32, scode_marshall64 and scode_unmarshall. */
module TvMarshall {
  import opened ByteNumbers
  import opened Arith
  import TvPages
  import opened TvSpace
  import opened TvMessage

  /** One address space, changed in place. */
  class Memory {
    var space: Space

    constructor (s: Space)
      ensures space == s
    {
      space := s;
    }
  }

  /** A parameter as registered: its type and its size in words. */
  datatype Param = Param(kind: nat, words: nat)

  /** The caller-saved registers of the 64-bit convention that carry arguments or are
      cleared on the way back. */
  datatype Regs = Regs(rdi: nat, rsi: nat, rdx: nat, rcx: nat, r8: nat, r9: nat, r10: nat, r11: nat)

  /** What registration has recorded about a PAL. */
  datatype Info = Info(g64: bool, params: seq<Param>, gpmp: nat, gpmPages: nat, gssp: nat)

  function Word(g64: bool): nat { if g64 then 8 else 4 }

  /** The first parameter that travels on the stack. */
  function First(g64: bool): nat { if g64 then 6 else 0 }

  function ArgReg(r: Regs, i: nat): nat
    requires i < 6
  {
    match i case 0 => r.rdi case 1 => r.rsi case 2 => r.rdx case 3 => r.rcx case 4 => r.r8 case _ => r.r9
  }

  function WithArgReg(r: Regs, i: nat, v: nat): (t: Regs)
    requires i < 6
    ensures forall j :: 0 <= j < 6 ==> ArgReg(t, j) == if j == i then v else ArgReg(r, j)
    ensures t.r10 == r.r10 && t.r11 == r.r11
  {
    match i
    case 0 => r.(rdi := v)
    case 1 => r.(rsi := v)
    case 2 => r.(rdx := v)
    case 3 => r.(rcx := v)
    case 4 => r.(r8 := v)
    case _ => r.(r9 := v)
  }

  /** Where the caller's calling convention puts parameter i on the stack: above the
      return address. */
  function StackArg(grsp: nat, g64: bool, i: nat): nat
    requires First(g64) <= i
  {
    grsp + Word(g64) + (i - First(g64)) * Word(g64)
  }

  function ArgValue(guest: Space, r: Regs, grsp: nat, g64: bool, i: nat): nat {
    if i < First(g64) then ArgReg(r, i) else Decode(Load(guest, StackArg(grsp, g64, i), Word(g64)))
  }

  predicate ArgReadable(guest: Space, grsp: nat, g64: bool, i: nat) {
    i < First(g64) || CanRead(guest, StackArg(grsp, g64, i), Word(g64))
  }

  function MakeArg(guest: Space, p: Param, value: nat, g64: bool): Arg {
    Arg(p.kind, p.words * Word(g64), value,
        if p.kind == TV_PAL_PM_POINTER then Load(guest, value, p.words * Word(g64)) else [])
  }

  /** The parameters of a call as the caller passes them. */
  ghost function Args(guest: Space, params: seq<Param>, r: Regs, grsp: nat, g64: bool): (a: seq<Arg>)
    ensures |a| == |params|
    ensures forall i :: 0 <= i < |a| ==> a[i] == MakeArg(guest, params[i], ArgValue(guest, r, grsp, g64, i), g64)
  {
    seq(|params|, i requires 0 <= i < |params| => MakeArg(guest, params[i], ArgValue(guest, r, grsp, g64, i), g64))
  }

  /** The two calling conventions by name. A 64-bit caller has the first six parameters in
      rdi, rsi, rdx, rcx, r8 and r9 and the others in words of eight bytes above the return
      address; a 32-bit caller has all of them in words of four bytes there. */
  lemma ArgsByName(guest: Space, params: seq<Param>, r: Regs, grsp: nat, g64: bool, i: nat)
    requires i < |params|
    ensures var a := Args(guest, params, r, grsp, g64)[i];
      && (g64 ==> a.size == 8 * params[i].words) && (!g64 ==> a.size == 4 * params[i].words)
      && a.kind == params[i].kind && (a.kind == 2 ==> a.data == Load(guest, a.value, a.size))
      && (g64 && i == 0 ==> a.value == r.rdi) && (g64 && i == 1 ==> a.value == r.rsi)
      && (g64 && i == 2 ==> a.value == r.rdx) && (g64 && i == 3 ==> a.value == r.rcx)
      && (g64 && i == 4 ==> a.value == r.r8) && (g64 && i == 5 ==> a.value == r.r9)
      && (g64 && i >= 6 ==> a.value == Decode(Load(guest, grsp + 8 + 8 * (i - 6), 8)))
      && (!g64 ==> a.value == Decode(Load(guest, grsp + 4 + 4 * i, 4)))
  {
  }

  // --------------------------------------------------------------- checked copies

  method CopyTo(m: Memory, va: nat, data: seq<Byte>) returns (ok: bool)
    modifies m
    ensures ok == CanWrite(old(m.space), va, |data|)
    ensures m.space == if ok then Store(old(m.space), va, data) else old(m.space)
  {
    ok := CanWrite(m.space, va, |data|);
    if ok { m.space := Store(m.space, va, data); }
  }

  method CopyFrom(m: Memory, va: nat, n: nat) returns (ok: bool, data: seq<Byte>)
    ensures ok == CanRead(m.space, va, n) && data == Load(m.space, va, n)
  {
    ok, data := CanRead(m.space, va, n), Load(m.space, va, n);
  }

  // ------------------------------------------------------------------ one record

  lemma RecordAccess(s: Space, addr: nat, a: Arg)
    ensures CanWrite(s, addr, |Record(a)|) <==>
              CanWrite(s, addr, 8) && CanWrite(s, addr + 8, 8) && CanWrite(s, addr + 16, 8)
              && CanWrite(s, addr + 24, |a.data|)
  {
    SplitAccess(s, addr, 8, 8);
    SplitAccess(s, addr, 16, 8);
    SplitAccess(s, addr, 24, |a.data|);
  }

  lemma RecordStores(s: Space, addr: nat, a: Arg)
    ensures Store(Store(Store(s, addr, Encode(a.kind, 8)), addr + 8, Encode(a.size, 8)), addr + 16, Encode(a.value, 8))
         == Store(s, addr, Header(a))
    ensures Store(Store(s, addr, Header(a)), addr + 24, a.data) == Store(s, addr, Record(a))
  {
    StoreTwice(s, addr, Encode(a.kind, 8), Encode(a.size, 8));
    StoreTwice(s, addr, Encode(a.kind, 8) + Encode(a.size, 8), Encode(a.value, 8));
    StoreTwice(s, addr, Header(a), a.data);
  }

  /** The three header fields. */
  method PutHeader(mem: Memory, a: Arg, addr: nat) returns (ok: bool)
    modifies mem
    ensures ok == (CanWrite(old(mem.space), addr, 8) && CanWrite(old(mem.space), addr + 8, 8)
                   && CanWrite(old(mem.space), addr + 16, 8))
    ensures ok ==> mem.space == Store(old(mem.space), addr, Header(a))
  {
    ghost var s := mem.space;
    RecordStores(s, addr, a);
    StoreKeepsAccess(s, addr, Encode(a.kind, 8), addr + 8, 8);
    StoreKeepsAccess(s, addr, Encode(a.kind, 8), addr + 16, 8);
    StoreKeepsAccess(Store(s, addr, Encode(a.kind, 8)), addr + 8, Encode(a.size, 8), addr + 16, 8);
    ok := CopyTo(mem, addr, Encode(a.kind, 8));
    if !ok { return; }
    ok := CopyTo(mem, addr + 8, Encode(a.size, 8));
    if !ok { return; }
    ok := CopyTo(mem, addr + 16, Encode(a.value, 8));
  }

  /** What must hold for the record of one parameter to be written. */
  ghost predicate RecordAllowed(s: Space, guest: Space, a: Arg, addr: nat, sum: nat, limit: nat) {
    && Known(a) && sum + |Record(a)| <= limit && CanWrite(s, addr, |Record(a)|)
    && (a.kind == TV_PAL_PM_POINTER ==> CanRead(guest, a.value, a.size))
  }

  /** One pass of the marshalling loop, up to the point where the argument is handed
      over. */
  method PutRecord(mem: Memory, guest: Memory, p: Param, value: nat, g64: bool, addr: nat, sum: nat, limit: nat)
    returns (ok: bool, addr': nat, sum': nat, passed: nat)
    requires mem != guest
    modifies mem
    ensures ok == RecordAllowed(old(mem.space), guest.space, MakeArg(guest.space, p, value, g64), addr, sum, limit)
    ensures ok ==> mem.space == Store(old(mem.space), addr, Record(MakeArg(guest.space, p, value, g64)))
    ensures ok ==> addr' == addr + |Record(MakeArg(guest.space, p, value, g64))|
    ensures ok ==> sum' == sum + |Record(MakeArg(guest.space, p, value, g64))|
    ensures ok ==> passed == if p.kind == TV_PAL_PM_POINTER then addr + 24 else value
  {
    ghost var s := mem.space;
    ghost var a := MakeArg(guest.space, p, value, g64);
    RecordAccess(s, addr, a);
    RecordStores(s, addr, a);
    StoreKeepsAccess(s, addr, Header(a), addr + 24, |a.data|);
    var size := p.words * Word(g64);
    ok, addr', sum', passed := false, addr, sum + 24, value;
    if !(sum' <= limit) { return; }
    ok := PutHeader(mem, Arg(p.kind, size, value, []), addr);
    if !ok { return; }
    addr' := addr + 24;
    if p.kind == TV_PAL_PM_INTEGER {
    } else if p.kind == TV_PAL_PM_POINTER {
      sum' := sum' + size;
      if !(sum' <= limit) { return false, addr', sum', passed; }
      var data;
      ok, data := CopyFrom(guest, value, size);
      if !ok { return; }
      ok := CopyTo(mem, addr', data);
      if !ok { return; }
      passed := addr';
      addr' := addr' + size;
    } else {
      ok := false;
    }
  }

  // --------------------------------------------------------------- marshalling

  /** The lowest stack parameter among those from i on. */
  function Lowest(n: nat, g64: bool, i: nat): nat
    requires i <= n
  {
    if n < First(g64) then n else if i < First(g64) then First(g64) else i
  }

  /** The parameter pages and the stack words of a call do not meet. */
  ghost predicate Separate(info: Info) {
    && Word(info.g64) * (|info.params| + 1) <= info.gssp
    && (|| info.gssp <= info.gpmp
        || info.gpmp + info.gpmPages * TvPages.PAGE_SIZE <= info.gssp - Word(info.g64) * (|info.params| + 1))
  }

  /** The stack pointer once the parameters from i on have been pushed. */
  ghost function RspAt(info: Info, i: nat): int
    requires i <= |info.params|
  {
    info.gssp - Word(info.g64) * (|info.params| - Lowest(|info.params|, info.g64, i))
  }

  /** The records and the arguments from i on are in place. */
  ghost predicate Done(s: Space, info: Info, args: seq<Arg>, i: nat, sum: nat, rsp: nat)
    requires i <= |args| == |info.params|
  {
    && sum == |Upto(args, i)| && Load(s, info.gpmp, sum) == Upto(args, i)
    && rsp == RspAt(info, i) <= info.gssp
    && Load(s, rsp, info.gssp - rsp) == Slots(args, info.gpmp, Word(info.g64), Lowest(|args|, info.g64, i))
  }

  /** What a register holds that carries parameter j, once those from i on have been handed
      over: the parameter as passed if it is one of them, else what it held. */
  ghost function Handed(info: Info, args: seq<Arg>, i: nat, j: nat, v: nat): nat {
    if info.g64 && i <= j < |args| then Passed(args, info.gpmp, j) else v
  }

  /** The registers then. */
  ghost predicate RegsDone(r0: Regs, r: Regs, info: Info, args: seq<Arg>, i: nat)
    requires i <= |args|
  {
    && r.rdi == Handed(info, args, i, 0, r0.rdi) && r.rsi == Handed(info, args, i, 1, r0.rsi)
    && r.rdx == Handed(info, args, i, 2, r0.rdx) && r.rcx == Handed(info, args, i, 3, r0.rcx)
    && r.r8 == Handed(info, args, i, 4, r0.r8) && r.r9 == Handed(info, args, i, 5, r0.r9)
    && r.r10 == r0.r10 && r.r11 == r0.r11
  }

  lemma RspBounds(info: Info, i: nat)
    requires Separate(info) && i <= |info.params|
    ensures Word(info.g64) <= RspAt(info, i) <= info.gssp
    ensures info.gssp <= info.gpmp || info.gpmp + info.gpmPages * TvPages.PAGE_SIZE <= RspAt(info, i) - Word(info.g64)
  {
    var n := |info.params|;
    MulDistribLeft(n, 1, Word(info.g64));
    MulNonneg(Word(info.g64), n - Lowest(n, info.g64, i));
    MulMonotone(n - Lowest(n, info.g64, i), n, Word(info.g64));
  }

  lemma RspStep(info: Info, i: nat)
    requires First(info.g64) <= i < |info.params|
    ensures RspAt(info, i) == RspAt(info, i + 1) - Word(info.g64)
  {
    MulDistribLeft(|info.params| - i - 1, 1, Word(info.g64));
  }

  /** Writing record i behind the others. */
  lemma RecordStep(s: Space, info: Info, args: seq<Arg>, i: nat, sum: nat, rsp: nat)
    requires i < |args| == |info.params| && Separate(info) && Done(s, info, args, i + 1, sum, rsp)
    requires sum + |Record(args[i])| <= info.gpmPages * TvPages.PAGE_SIZE
    requires CanWrite(s, info.gpmp + sum, |Record(args[i])|)
    ensures var t := Store(s, info.gpmp + sum, Record(args[i]));
      Load(t, info.gpmp, sum + |Record(args[i])|) == Upto(args, i)
      && Load(t, rsp, info.gssp - rsp) == Load(s, rsp, info.gssp - rsp)
  {
    hide Record, Load, Store, CanWrite, Slots, Lowest, RspAt, Encode;
    RspBounds(info, i + 1);
    Append(s, info.gpmp, sum, Record(args[i]));
    LoadElsewhere(s, info.gpmp + sum, Record(args[i]), rsp, info.gssp - rsp);
  }

  /** Pushing parameter i below the others. */
  lemma PushStep(s: Space, info: Info, args: seq<Arg>, i: nat, sum: nat, rsp: nat, v: nat)
    requires i < |args| == |info.params| && Separate(info) && First(info.g64) <= i
    requires sum == |Upto(args, i)| <= info.gpmPages * TvPages.PAGE_SIZE && Load(s, info.gpmp, sum) == Upto(args, i)
    requires rsp == RspAt(info, i + 1) && v == Passed(args, info.gpmp, i)
    requires 0 <= rsp <= info.gssp && Load(s, rsp, info.gssp - rsp) == Slots(args, info.gpmp, Word(info.g64), i + 1)
    requires Word(info.g64) <= rsp && CanWrite(s, rsp - Word(info.g64), Word(info.g64))
    ensures Done(Store(s, rsp - Word(info.g64), Encode(v, Word(info.g64))), info, args, i, sum, rsp - Word(info.g64))
  {
    hide Upto, Load, Store, CanWrite, Encode, Passed;
    var w := Word(info.g64);
    var data := Encode(v, w);
    RspBounds(info, i + 1);
    RspStep(info, i);
    Prepend(s, rsp, info.gssp - rsp, data);
    LoadElsewhere(s, rsp - w, data, info.gpmp, sum);
  }

  /** What must hold for a whole call to be marshalled. */
  ghost predicate Allowed(s: Space, guest: Space, info: Info, args: seq<Arg>, grsp: nat)
    requires |args| == |info.params| && Separate(info)
  {
    && 0 < |args| <= TV_MAX_PARAMS && |Message(args)| <= info.gpmPages * TvPages.PAGE_SIZE
    && CanWrite(s, info.gpmp, |Message(args)|)
    && RspAt(info, 0) >= 0 && CanWrite(s, RspAt(info, 0), info.gssp - RspAt(info, 0))
    && (forall i :: 0 <= i < |args| ==> ArgAllowed(guest, info, args, grsp, i))
  }

  ghost predicate ArgAllowed(guest: Space, info: Info, args: seq<Arg>, grsp: nat, i: nat)
    requires i < |args|
  {
    && ArgReadable(guest, grsp, info.g64, i) && Known(args[i])
    && (args[i].kind == TV_PAL_PM_POINTER ==> CanRead(guest, args[i].value, args[i].size))
  }

  ghost predicate SameAccess(s: Space, t: Space) {
    s.bytes.Keys == t.bytes.Keys && s.writable == t.writable
  }

  lemma SameAccessMeans(s: Space, t: Space, a: nat, n: nat)
    requires SameAccess(s, t)
    ensures CanRead(s, a, n) == CanRead(t, a, n) && CanWrite(s, a, n) == CanWrite(t, a, n)
  {
  }

  lemma StoreSameAccess(s: Space, a: nat, data: seq<Byte>)
    ensures SameAccess(Store(s, a, data), s)
  {
    assert Store(s, a, data).bytes.Keys == s.bytes.Keys;
  }

  lemma SubWrite(s: Space, a: nat, n: nat, b: nat, m: nat)
    requires CanWrite(s, a, n) && a <= b && b + m <= a + n
    ensures CanWrite(s, b, m)
  {
  }

  /** A call that is allowed lets every record be written, ... */
  lemma RecordNeeded(s: Space, guest: Space, info: Info, args: seq<Arg>, i: nat, sum: nat, grsp: nat)
    requires i < |args| == |info.params| && Separate(info) && Allowed(s, guest, info, args, grsp)
    requires sum == |Upto(args, i + 1)|
    ensures RecordAllowed(s, guest, args[i], info.gpmp + sum, sum, info.gpmPages * TvPages.PAGE_SIZE)
  {
    hide Upto, Record, CanWrite;
    RecordInMessage(args, i);
    SubWrite(s, info.gpmp, |Message(args)|, info.gpmp + sum, |Record(args[i])|);
    assert ArgAllowed(guest, info, args, grsp, i);
  }

  /** ... and every stack word be pushed. */
  lemma PushNeeded(s: Space, guest: Space, info: Info, args: seq<Arg>, i: nat, grsp: nat)
    requires i < |args| == |info.params| && Separate(info) && Allowed(s, guest, info, args, grsp)
    requires First(info.g64) <= i
    ensures RspAt(info, i) >= 0 && CanWrite(s, RspAt(info, i), Word(info.g64))
  {
    hide Upto, Record, CanWrite;
    RspBounds(info, i + 1);
    RspStep(info, i);
    var n, low := |info.params|, Lowest(|info.params|, info.g64, 0);
    MulMonotone(n - i, n - low, Word(info.g64));
    SubWrite(s, RspAt(info, 0), info.gssp - RspAt(info, 0), RspAt(info, i), Word(info.g64));
  }

  /** Parameter i gets through its pass of the loop. */
  ghost predicate StepAllowed(s: Space, guest: Space, info: Info, args: seq<Arg>, grsp: nat, i: nat)
    requires i < |args| == |info.params|
  {
    var sum := |Upto(args, i + 1)|;
    && ArgReadable(guest, grsp, info.g64, i)
    && RecordAllowed(s, guest, args[i], info.gpmp + sum, sum, info.gpmPages * TvPages.PAGE_SIZE)
    && (First(info.g64) <= i ==> RspAt(info, i) >= 0 && CanWrite(s, RspAt(info, i), Word(info.g64)))
  }

  lemma StepNeeded(s: Space, guest: Space, info: Info, args: seq<Arg>, i: nat, grsp: nat)
    requires i < |args| == |info.params| && Separate(info) && Allowed(s, guest, info, args, grsp)
    ensures StepAllowed(s, guest, info, args, grsp, i)
  {
    hide Upto, Record, CanWrite, RspAt, RecordAllowed;
    assert ArgAllowed(guest, info, args, grsp, i);
    RecordNeeded(s, guest, info, args, i, |Upto(args, i + 1)|, grsp);
    if First(info.g64) <= i { PushNeeded(s, guest, info, args, i, grsp); }
  }

  /** The loop can be started. */
  ghost predicate Startable(s: Space, info: Info) {
    0 < |info.params| <= TV_MAX_PARAMS && CanWrite(s, info.gpmp, 8)
  }

  /** The parameters from k on get through, and the one before, if any, does not. */
  ghost predicate StoppedAt(s: Space, guest: Space, info: Info, args: seq<Arg>, grsp: nat, k: nat)
    requires |args| == |info.params|
  {
    && k <= |args| && (!Startable(s, info) ==> k == |args|)
    && (Startable(s, info) ==> forall j :: k <= j < |args| ==> StepAllowed(s, guest, info, args, grsp, j))
    && (Startable(s, info) && k > 0 ==> !StepAllowed(s, guest, info, args, grsp, k - 1))
  }

  /** Every pointer parameter among the registers from k on already pointed to where its
      copy went. */
  ghost predicate RegsKept(info: Info, args: seq<Arg>, k: nat) {
    forall j :: k <= j < |args| && j < 6 && info.g64 && args[j].kind == TV_PAL_PM_POINTER ==>
      args[j].value == Passed(args, info.gpmp, j)
  }

  /** The registers are what they were exactly then. */
  lemma RegsKeptIff(guest: Space, grsp: nat, r0: Regs, r: Regs, info: Info, args: seq<Arg>, k: nat)
    requires args == Args(guest, info.params, r0, grsp, info.g64) && k <= |args| && RegsDone(r0, r, info, args, k)
    ensures r == r0 <==> RegsKept(info, args, k)
  {
    hide Upto, Load;
    assert forall j :: 0 <= j < 6 && j < |args| && info.g64 ==> args[j].value == ArgReg(r0, j);
    if RegsKept(info, args, k) {
      forall j | 0 <= j < 6 ensures ArgReg(r, j) == ArgReg(r0, j) {
        if info.g64 && k <= j < |args| { PassedHere(args, info.gpmp, j); }
      }
      SameRegs(r, r0);
    }
  }

  lemma SameRegs(r: Regs, t: Regs)
    requires (forall j :: 0 <= j < 6 ==> ArgReg(r, j) == ArgReg(t, j)) && r.r10 == t.r10 && r.r11 == t.r11
    ensures r == t
  {
    assert ArgReg(r, 0) == ArgReg(t, 0) && ArgReg(r, 1) == ArgReg(t, 1) && ArgReg(r, 2) == ArgReg(t, 2);
    assert ArgReg(r, 3) == ArgReg(t, 3) && ArgReg(r, 4) == ArgReg(t, 4) && ArgReg(r, 5) == ArgReg(t, 5);
  }

  /** Everything known between two passes of the loop. */
  ghost predicate Between(s: Space, s0: Space, info: Info, args: seq<Arg>, i: nat, sum: nat, rsp: nat, r0: Regs,
                          r: Regs) {
    && i <= |args| == |info.params| && (i < |args| ==> sum <= info.gpmPages * TvPages.PAGE_SIZE)
    && Done(s, info, args, i, sum, rsp) && RegsDone(r0, r, info, args, i) && SameAccess(s, s0)
    && CanWrite(s0, info.gpmp, sum) && CanWrite(s0, rsp, info.gssp - rsp)
  }

  /** Hand parameter i over: in a register or on the stack. */
  method HandOver(mem: Memory, info: Info, i: nat, passed: nat, rsp: nat, r: Regs, ghost args: seq<Arg>, ghost sum: nat,
                  ghost s0: Space, ghost r0: Regs)
    returns (ok: bool, rsp': nat, r': Regs)
    requires i < |args| == |info.params| && Separate(info) && passed == Passed(args, info.gpmp, i)
    requires sum == |Upto(args, i)| <= info.gpmPages * TvPages.PAGE_SIZE
    requires Load(mem.space, info.gpmp, sum) == Upto(args, i)
    requires rsp == RspAt(info, i + 1) <= info.gssp
    requires Load(mem.space, rsp, info.gssp - rsp)
          == Slots(args, info.gpmp, Word(info.g64), Lowest(|args|, info.g64, i + 1))
    requires RegsDone(r0, r, info, args, i + 1) && SameAccess(mem.space, s0)
    requires CanWrite(s0, info.gpmp, sum) && CanWrite(s0, rsp, info.gssp - rsp)
    modifies mem
    ensures ok == (First(info.g64) <= i ==> RspAt(info, i) >= 0 && CanWrite(s0, RspAt(info, i), Word(info.g64)))
    ensures ok ==> Between(mem.space, s0, info, args, i, sum, rsp', r0, r')
    ensures !ok ==> r' == r
  {
    hide Upto, Load, Store, CanWrite, Encode, Passed, ArgReg, Slots;
    ok, rsp', r' := true, rsp, r;
    if i < First(info.g64) {
      r' := WithArgReg(r, i, passed);
    } else {
      RspBounds(info, i + 1);
      RspStep(info, i);
      rsp' := rsp - Word(info.g64);
      StoreSameAccess(mem.space, rsp', Encode(passed, Word(info.g64)));
      SameAccessMeans(mem.space, s0, rsp', Word(info.g64));
      SplitAccess(s0, rsp', Word(info.g64), info.gssp - rsp);
      if CanWrite(mem.space, rsp', Word(info.g64)) {
        PushStep(mem.space, info, args, i, sum, rsp, passed);
      }
      ok := CopyTo(mem, rsp', Encode(passed, Word(info.g64)));
    }
  }

  /** One pass of the loop, for parameter i. */
  method MarshallOne(mem: Memory, guest: Memory, info: Info, i: nat, grsp: nat, sum: nat, rsp: nat, r: Regs,
                     ghost args: seq<Arg>, ghost s0: Space, ghost r0: Regs)
    returns (ok: bool, sum': nat, rsp': nat, r': Regs)
    requires mem != guest && Separate(info) && i < |args| == |info.params|
    requires args == Args(guest.space, info.params, r0, grsp, info.g64)
    requires Between(mem.space, s0, info, args, i + 1, sum, rsp, r0, r)
    modifies mem
    ensures ok == StepAllowed(s0, guest.space, info, args, grsp, i)
    ensures ok ==>
      Between(mem.space, s0, info, args, i, sum', rsp', r0, r') && ArgAllowed(guest.space, info, args, grsp, i)
    ensures !ok ==> r' == r
  {
    hide Upto, Load, Store, Encode, Passed, Slots, Record, CanWrite, Lowest, RspAt, StackArg;
    ok, sum', rsp', r' := false, sum, rsp, r;
    if !ArgReadable(guest.space, grsp, info.g64, i) { return; }
    var value := ArgValue(guest.space, r, grsp, info.g64, i);
    assert args[i] == MakeArg(guest.space, info.params[i], value, info.g64);
    ghost var s := mem.space;
    SameAccessMeans(s, s0, info.gpmp + sum, |Record(args[i])|);
    var addr, passed;
    ok, addr, sum', passed :=
      PutRecord(mem, guest, info.params[i], value, info.g64, info.gpmp + sum, sum, info.gpmPages * TvPages.PAGE_SIZE);
    if !ok { return; }
    RecordStep(s, info, args, i, sum, rsp);
    StoreSameAccess(s, info.gpmp + sum, Record(args[i]));
    UptoStep(args, i);
    PassedHere(args, info.gpmp, i);
    SplitAccess(s0, info.gpmp, sum, |Record(args[i])|);
    ok, rsp', r' := HandOver(mem, info, i, passed, rsp, r, args, sum', s0, r0);
  }

  lemma UptoStep(args: seq<Arg>, i: nat)
    requires i < |args|
    ensures Upto(args, i) == Upto(args, i + 1) + Record(args[i])
  {
  }

  lemma PassedHere(args: seq<Arg>, base: nat, i: nat)
    requires i < |args|
    ensures args[i].kind == TV_PAL_PM_POINTER ==> Passed(args, base, i) == base + |Upto(args, i + 1)| + 24
    ensures args[i].kind != TV_PAL_PM_POINTER ==> Passed(args, base, i) == args[i].value
  {
  }

  lemma CountNeeded(s: Space, guest: Space, info: Info, args: seq<Arg>, grsp: nat)
    requires |args| == |info.params| && Separate(info)
    ensures Allowed(s, guest, info, args, grsp) ==> 0 < |args| <= TV_MAX_PARAMS && CanWrite(s, info.gpmp, 8)
  {
    if Allowed(s, guest, info, args, grsp) {
      UptoGrows(args, 0, |args|);
      SubWrite(s, info.gpmp, |Message(args)|, info.gpmp, 8);
    }
  }

  /** Writing the number of parameters starts the loop off. */
  lemma CountStep(s: Space, info: Info, args: seq<Arg>, r0: Regs)
    requires |args| == |info.params| && Separate(info) && CanWrite(s, info.gpmp, 8)
    ensures Between(Store(s, info.gpmp, Encode(|args|, 8)), s, info, args, |args|, 8, info.gssp, r0, r0)
  {
    hide Encode, CanWrite, Store;
    StoreSameAccess(s, info.gpmp, Encode(|args|, 8));
    LoadBack(s, info.gpmp, Encode(|args|, 8));
    NothingPushed(info, args);
    EmptyAccess(s, info.gssp);
  }

  lemma EmptyAccess(s: Space, a: nat)
    ensures CanWrite(s, a, 0)
  {
  }

  lemma NothingPushed(info: Info, args: seq<Arg>)
    requires |args| == |info.params|
    ensures RspAt(info, |args|) == info.gssp
    ensures Slots(args, info.gpmp, Word(info.g64), Lowest(|args|, info.g64, |args|)) == []
  {
    assert Lowest(|args|, info.g64, |args|) == |args|;
  }

  /** A call whose every step succeeded was allowed. */
  lemma AllWritten(s: Space, s0: Space, guest: Space, info: Info, args: seq<Arg>, sum: nat, rsp: nat, r0: Regs, r: Regs,
                   grsp: nat)
    requires Separate(info) && Between(s, s0, info, args, 0, sum, rsp, r0, r) && 0 < |args| <= TV_MAX_PARAMS
    requires forall j :: 0 <= j < |args| ==> ArgAllowed(guest, info, args, grsp, j)
    ensures Allowed(s0, guest, info, args, grsp) && sum == |Message(args)|
  {
  }

  /** scode_marshall32 and scode_marshall64. The call succeeds exactly when it is
      allowed. Then the parameter pages hold the message and the arguments are where the
      calling convention has them. If it fails, k says how far it has come, and the
      registers of the parameters from k on have been handed over all the same. */
  method Marshall(mem: Memory, guest: Memory, info: Info, grsp: nat, r0: Regs)
    returns (ok: bool, rsp: nat, r: Regs, ghost k: nat)
    requires mem != guest && Separate(info)
    modifies mem
    ensures ok == Allowed(old(mem.space), guest.space, info, Args(guest.space, info.params, r0, grsp, info.g64), grsp)
    ensures ok ==> SameAccess(mem.space, old(mem.space))
    ensures ok ==> Done(mem.space, info, Args(guest.space, info.params, r0, grsp, info.g64), 0,
                        |Message(Args(guest.space, info.params, r0, grsp, info.g64))|, rsp)
    ensures StoppedAt(old(mem.space), guest.space, info, Args(guest.space, info.params, r0, grsp, info.g64), grsp, k)
    ensures RegsDone(r0, r, info, Args(guest.space, info.params, r0, grsp, info.g64), k) && (ok ==> k == 0)
  {
    hide Upto, Load, Store, Encode, Passed, Slots, Record, CanWrite, Lowest, RspAt, ArgAllowed, Separate;
    hide StepAllowed, RegsDone, SameAccess;
    ghost var args := Args(guest.space, info.params, r0, grsp, info.g64);
    ghost var s0 := mem.space;
    var n := |info.params|;
    ok, rsp, r, k := false, info.gssp, r0, n;
    CountNeeded(s0, guest.space, info, args, grsp);
    NothingHandedOver(r0, info, args);
    if n == 0 { return; }
    ok := CopyTo(mem, info.gpmp, Encode(n, 8));
    if !ok { return; }
    var sum := 8;
    if !(n <= TV_MAX_PARAMS) { return false, rsp, r, k; }
    CountStep(s0, info, args, r0);
    var i: nat := n;
    while i > 0
      invariant Between(mem.space, s0, info, args, i, sum, rsp, r0, r) && k == i
      invariant forall j :: i <= j < n ==> ArgAllowed(guest.space, info, args, grsp, j)
      invariant forall j :: i <= j < n ==> StepAllowed(s0, guest.space, info, args, grsp, j)
    {
      i := i - 1;
      ok, sum, rsp, r := MarshallOne(mem, guest, info, i, grsp, sum, rsp, r, args, s0, r0);
      if !ok {
        if Allowed(s0, guest.space, info, args, grsp) { StepNeeded(s0, guest.space, info, args, i, grsp); }
        return;
      }
      k := i;
    }
    ok := true;
    AllWritten(mem.space, s0, guest.space, info, args, sum, rsp, r0, r, grsp);
  }

  lemma NothingHandedOver(r0: Regs, info: Info, args: seq<Arg>)
    ensures RegsDone(r0, r0, info, args, |args|)
  {
  }

  /** Two pointers of one word each, in the first two registers of a 64-bit call. */
  const TWO_POINTERS := Info(true, [Param(TV_PAL_PM_POINTER, 1), Param(TV_PAL_PM_POINTER, 1)], 0x1000, 1, 0x4000)

  /** If the first one cannot be read but the second can, the call fails with the second
      register pointing to the copy. */
  lemma SecondPointerMoves(s: Space, guest: Space, r0: Regs, grsp: nat, k: nat)
    requires CanWrite(s, 0x1000, 0x3000) && CanRead(guest, 0x100, 8) && !CanRead(guest, 0x900, 8)
    requires r0.rdi == 0x900 && r0.rsi == 0x100
    requires StoppedAt(s, guest, TWO_POINTERS, Args(guest, TWO_POINTERS.params, r0, grsp, true), grsp, k)
    ensures k == 1 && !RegsKept(TWO_POINTERS, Args(guest, TWO_POINTERS.params, r0, grsp, true), k)
  {
    hide Load, Encode;
    var info := TWO_POINTERS;
    var args := Args(guest, info.params, r0, grsp, true);
    assert args[0].value == 0x900 && args[0].size == 8 && args[1].value == 0x100 && args[1].size == 8;
    assert |Upto(args, 2)| == 8 && |Record(args[1])| == 32;
    assert StepAllowed(s, guest, info, args, grsp, 1);
    assert !StepAllowed(s, guest, info, args, grsp, 0);
    PassedHere(args, info.gpmp, 1);
  }

  // ------------------------------------------------------------- unmarshalling

  /** The parameter pages hold the records of these parameters. */
  ghost predicate HoldsMessage(s: Space, base: nat, args: seq<Arg>) {
    && Proper(args) && CanRead(s, base, |Message(args)|) && Load(s, base, |Message(args)|) == Message(args)
  }

  lemma SubRead(s: Space, a: nat, n: nat, b: nat, m: nat)
    requires CanRead(s, a, n) && a <= b && b + m <= a + n
    ensures CanRead(s, b, m)
  {
  }

  /** The number in front. */
  lemma CountAt(s: Space, base: nat, args: seq<Arg>)
    requires HoldsMessage(s, base, args)
    ensures CanRead(s, base, 8) && Decode(Load(s, base, 8)) == |args|
  {
    hide Encode, Decode, CanRead, Load;
    UptoGrows(args, 0, |args|);
    LoadSlice(s, base, |Message(args)|, 0, 8);
    SubRead(s, base, |Message(args)|, base, 8);
    assert |args| < Pow256(8) by { BigPower(); }
    DecodeEncode(|args|, 8);
  }

  lemma BigPower()
    ensures Pow256(8) == 0x1_0000_0000_0000_0000
  {
    assert Pow256(8) == 256 * 256 * 256 * 256 * Pow256(4);
  }

  /** The bytes of record k. */
  lemma RecordAt(s: Space, base: nat, args: seq<Arg>, k: nat)
    requires HoldsMessage(s, base, args) && k < |args|
    ensures CanRead(s, base + |Upto(args, k + 1)|, |Record(args[k])|)
    ensures Load(s, base + |Upto(args, k + 1)|, |Record(args[k])|) == Record(args[k])
  {
    hide Upto, Record, CanRead, Load;
    RecordInMessage(args, k);
    var u, r := |Upto(args, k + 1)|, |Record(args[k])|;
    LoadSlice(s, base, |Message(args)|, u, u + r);
    SubRead(s, base, |Message(args)|, base + u, r);
  }

  /** Its fields. */
  lemma FieldsAt(s: Space, addr: nat, a: Arg)
    requires CanRead(s, addr, |Record(a)|) && Load(s, addr, |Record(a)|) == Record(a) && Fits64(a)
    ensures CanRead(s, addr, 8) && Decode(Load(s, addr, 8)) == a.kind
    ensures CanRead(s, addr + 8, 8) && Decode(Load(s, addr + 8, 8)) == a.size
    ensures CanRead(s, addr + 16, 8) && Decode(Load(s, addr + 16, 8)) == a.value
    ensures CanRead(s, addr + 24, |a.data|) && Load(s, addr + 24, |a.data|) == a.data
  {
    hide Encode, Decode, Load, CanRead, Record;
    RecordFields(a);
    FieldAt(s, addr, a, 0, 8);
    FieldAt(s, addr, a, 8, 16);
    FieldAt(s, addr, a, 16, 24);
    FieldAt(s, addr, a, 24, |Record(a)|);
    DecodeEncode(a.kind, 8);
    DecodeEncode(a.size, 8);
    DecodeEncode(a.value, 8);
  }

  lemma RecordFields(a: Arg)
    ensures |Record(a)| == 24 + |a.data|
    ensures Record(a)[0..8] == Encode(a.kind, 8) && Record(a)[8..16] == Encode(a.size, 8)
    ensures Record(a)[16..24] == Encode(a.value, 8) && Record(a)[24..|Record(a)|] == a.data
  {
    hide Encode;
  }

  lemma FieldAt(s: Space, addr: nat, a: Arg, i: nat, j: nat)
    requires CanRead(s, addr, |Record(a)|) && Load(s, addr, |Record(a)|) == Record(a) && i <= j <= |Record(a)|
    ensures CanRead(s, addr + i, j - i) && Load(s, addr + i, j - i) == Record(a)[i..j]
  {
    LoadSlice(s, addr, |Record(a)|, i, j);
    SubRead(s, addr, |Record(a)|, addr + i, j - i);
  }

  /** One pass of the unmarshalling loop, for the record of parameter k. */
  method UnmarshallOne(mem: Memory, guest: Memory, addr: nat, ghost a: Arg) returns (ok: bool, addr': nat)
    requires mem != guest && Known(a) && WellFormed(a) && Fits64(a)
    requires CanRead(mem.space, addr, |Record(a)|) && Load(mem.space, addr, |Record(a)|) == Record(a)
    modifies guest
    ensures ok == (a.kind == TV_PAL_PM_POINTER ==> CanWrite(old(guest.space), a.value, |a.data|))
    ensures ok ==> addr' == addr + |Record(a)|
    ensures ok && a.kind == TV_PAL_PM_POINTER ==> guest.space == Store(old(guest.space), a.value, a.data)
    ensures ok && a.kind != TV_PAL_PM_POINTER ==> guest.space == old(guest.space)
  {
    hide Fits64;
    FieldsAt(mem.space, addr, a);
    hide Encode, Decode, Load, Store, CanRead, CanWrite;
    addr' := addr;
    var kind, data, size, value;
    ok, data := CopyFrom(mem, addr', 8);
    if !ok { return; }
    kind, addr' := Decode(data), addr' + 8;
    if kind == TV_PAL_PM_INTEGER {
      addr' := addr' + 16;
    } else if kind == TV_PAL_PM_POINTER {
      ok, data := CopyFrom(mem, addr', 8);
      if !ok { return; }
      size, addr' := Decode(data), addr' + 8;
      ok, data := CopyFrom(mem, addr', 8);
      if !ok { return; }
      value, addr' := Decode(data), addr' + 8;
      ok, data := CopyFrom(mem, addr', size);
      if !ok { return; }
      ok := CopyTo(guest, value, data);
      addr' := addr' + size;
    } else {
      ok := false;
    }
  }

  /** What a call leaves of the caller-saved registers: all are zero after a 64-bit call,
      ecx and edx after a 32-bit one. */
  ghost predicate Wiped(r0: Regs, r: Regs, g64: bool) {
    && r.rcx == 0 && r.rdx == 0
    && (g64 ==> r.rsi == 0 && r.rdi == 0 && r.r8 == 0 && r.r9 == 0 && r.r10 == 0 && r.r11 == 0)
    && (!g64 ==> r.rsi == r0.rsi && r.rdi == r0.rdi && r.r8 == r0.r8 && r.r9 == r0.r9)
    && (!g64 ==> r.r10 == r0.r10 && r.r11 == r0.r11)
  }

  /** scode_unmarshall: every pointer parameter's data goes back to where it came from,
      and the caller-saved registers are cleared. */
  method Unmarshall(mem: Memory, guest: Memory, info: Info, r0: Regs, ghost args: seq<Arg>) returns (ok: bool, r: Regs)
    requires mem != guest && HoldsMessage(mem.space, info.gpmp, args)
    modifies guest
    ensures ok == (info.params != [] && BuffersWritable(old(guest.space), args))
    ensures ok ==> guest.space == WriteBack(old(guest.space), args, 0) && Wiped(r0, r, info.g64)
  {
    hide Upto, Record, Load, Store, CanRead, CanWrite, Decode, WellFormed, Fits64, HoldsMessage;
    ghost var g0 := guest.space;
    ok, r := false, r0;
    if info.params == [] { return; }
    CountAt(mem.space, info.gpmp, args);
    var data;
    ok, data := CopyFrom(mem, info.gpmp, 8);
    if !ok { return; }
    var n, addr := Decode(data), info.gpmp + 8;
    MessageProper(mem.space, info.gpmp, args);
    if !(n <= TV_MAX_PARAMS) { return false, r; }
    UptoStart(args);
    var i := 0;
    while i < n
      invariant 0 <= i <= n == |args| && addr == info.gpmp + |Upto(args, n - i)|
      invariant guest.space == WriteBack(g0, args, n - i)
      invariant forall k :: n - i <= k && IsPointer(args, k) ==> CanWrite(g0, args[k].value, |args[k].data|)
    {
      ghost var k := n - i - 1;
      RecordAt(mem.space, info.gpmp, args, k);
      UptoStep(args, k);
      WriteBackAccess(g0, args, k + 1, args[k].value, |args[k].data|);
      ok, addr := UnmarshallOne(mem, guest, addr, args[k]);
      if !ok { assert IsPointer(args, k); return; }
      i := i + 1;
    }
    ok := true;
    if info.g64 {
      r := r.(rcx := 0, rdx := 0, rsi := 0, rdi := 0, r8 := 0, r9 := 0, r10 := 0, r11 := 0);
    } else {
      r := r.(rcx := 0, rdx := 0);
    }
  }

  lemma MessageProper(s: Space, base: nat, args: seq<Arg>)
    requires HoldsMessage(s, base, args)
    ensures Proper(args)
  {
  }

  lemma UptoStart(args: seq<Arg>)
    ensures |Upto(args, |args|)| == 8
  {
  }

  // ---------------------------------------------------------- one into the other

  ghost predicate RegsFit(r: Regs) {
    forall i :: 0 <= i < 6 ==> ArgReg(r, i) < Pow256(8)
  }

  /** No parameter's size in bytes wraps around. */
  ghost predicate SizesFit(info: Info) {
    forall i :: 0 <= i < |info.params| ==> info.params[i].words * Word(info.g64) < Pow256(8)
  }

  lemma ValueFits(guest: Space, r: Regs, grsp: nat, g64: bool, i: nat)
    requires RegsFit(r)
    ensures ArgValue(guest, r, grsp, g64, i) < Pow256(8)
  {
    if i >= First(g64) {
      EncodeDecode(Load(guest, StackArg(grsp, g64, i), Word(g64)));
      BigPower();
      SmallPower();
    }
  }

  lemma SmallPower()
    ensures Pow256(4) == 0x1_0000_0000
  {
    assert Pow256(4) == 256 * 256 * Pow256(2);
  }

  /** What marshalling has laid out is what unmarshalling can walk. */
  lemma MarshalledHolds(s: Space, s0: Space, guest: Space, info: Info, r: Regs, grsp: nat, rsp: nat)
    requires Separate(info) && RegsFit(r) && SizesFit(info) && SameAccess(s, s0)
    requires Allowed(s0, guest, info, Args(guest, info.params, r, grsp, info.g64), grsp)
    requires Done(s, info, Args(guest, info.params, r, grsp, info.g64), 0,
                  |Message(Args(guest, info.params, r, grsp, info.g64))|, rsp)
    ensures HoldsMessage(s, info.gpmp, Args(guest, info.params, r, grsp, info.g64))
  {
    var args := Args(guest, info.params, r, grsp, info.g64);
    SameAccessMeans(s, s0, info.gpmp, |Message(args)|);
    BigPower();
    forall i | 0 <= i < |args| ensures Known(args[i]) && WellFormed(args[i]) && Fits64(args[i]) {
      assert ArgAllowed(guest, info, args, grsp, i);
      ValueFits(guest, r, grsp, info.g64, i);
    }
  }
}
