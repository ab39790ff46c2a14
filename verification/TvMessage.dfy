/** The parameters of a PAL call as bytes: what marshalling lays out in the PAL's
    parameter pages and what unmarshalling walks. */
module TvMessage {
  import opened ByteNumbers
  import opened Arith
  import opened TvSpace

  const TV_PAL_PM_INTEGER: nat := 1
  const TV_PAL_PM_POINTER: nat := 2
  const TV_MAX_PARAMS: nat := 10

  /** One parameter of one call: its size in bytes, the caller's value and, behind a
      pointer, the bytes there. */
  datatype Arg = Arg(kind: nat, size: nat, value: nat, data: seq<Byte>)

  function Header(a: Arg): seq<Byte> {
    Encode(a.kind, 8) + Encode(a.size, 8) + Encode(a.value, 8)
  }

  function Record(a: Arg): seq<Byte> {
    Header(a) + a.data
  }

  ghost predicate Known(a: Arg) {
    a.kind == TV_PAL_PM_INTEGER || a.kind == TV_PAL_PM_POINTER
  }

  /** Only a pointer comes with data, and then with as much as its size says. */
  ghost predicate WellFormed(a: Arg) {
    |a.data| == if a.kind == TV_PAL_PM_POINTER then a.size else 0
  }

  ghost predicate Fits64(a: Arg) {
    a.kind < Pow256(8) && a.size < Pow256(8) && a.value < Pow256(8)
  }

  ghost predicate Proper(args: seq<Arg>) {
    |args| <= TV_MAX_PARAMS && forall i :: 0 <= i < |args| ==> Known(args[i]) && WellFormed(args[i]) && Fits64(args[i])
  }

  /** The number of parameters and the records of the last ones down to i: the last
      parameter comes first. */
  ghost function Upto(args: seq<Arg>, i: nat): seq<Byte>
    requires i <= |args|
    decreases |args| - i
  {
    if i == |args| then Encode(|args|, 8) else Upto(args, i + 1) + Record(args[i])
  }

  ghost function Message(args: seq<Arg>): seq<Byte> {
    Upto(args, 0)
  }

  lemma {:induction false} UptoGrows(args: seq<Arg>, i: nat, j: nat)
    requires i <= j <= |args|
    ensures |Upto(args, j)| <= |Upto(args, i)| && Upto(args, i)[..|Upto(args, j)|] == Upto(args, j)
    decreases j - i
  {
    hide Record, Encode;
    if i < j { UptoGrows(args, i + 1, j); }
  }

  /** Where in the message record i starts and ends. */
  lemma RecordInMessage(args: seq<Arg>, i: nat)
    requires i < |args|
    ensures |Upto(args, i + 1)| + |Record(args[i])| <= |Message(args)|
    ensures Message(args)[|Upto(args, i + 1)|..|Upto(args, i + 1)| + |Record(args[i])|] == Record(args[i])
  {
    UptoGrows(args, 0, i);
    var u, r := Upto(args, i + 1), Record(args[i]);
    assert (u + r)[|u|..] == r;
    assert Message(args)[|u|..|u| + |r|] == Message(args)[..|u| + |r|][|u|..];
  }

  /** The layout by name: the number of parameters in eight bytes, then the records, that of
      the last parameter first, each with type, size and value in eight bytes and then the
      data. */
  lemma MessageByName(args: seq<Arg>, i: nat)
    requires i < |args|
    ensures |Message(args)| >= 8 && Message(args)[..8] == Encode(|args|, 8) && |Upto(args, |args|)| == 8
    ensures var m, o, a := Message(args), |Upto(args, i + 1)|, args[i];
      && |Upto(args, i)| == o + 24 + |a.data| <= |m| && m[o..o + 8] == Encode(a.kind, 8)
      && m[o + 8..o + 16] == Encode(a.size, 8) && m[o + 16..o + 24] == Encode(a.value, 8)
      && m[o + 24..o + 24 + |a.data|] == a.data
  {
    hide Encode;
    UptoGrows(args, 0, |args|);
    UptoGrows(args, 0, i);
    RecordInMessage(args, i);
    var m, o, a := Message(args), |Upto(args, i + 1)|, args[i];
    RecordSlices(a);
    hide Record, Message, Upto;
    var r := Record(a);
    SliceOf(m, o, r, 0, 8);
    SliceOf(m, o, r, 8, 16);
    SliceOf(m, o, r, 16, 24);
    SliceOf(m, o, r, 24, 24 + |a.data|);
  }

  lemma RecordSlices(a: Arg)
    ensures var r := Record(a);
      && |r| == 24 + |a.data| && r[0..8] == Encode(a.kind, 8) && r[8..16] == Encode(a.size, 8)
      && r[16..24] == Encode(a.value, 8) && r[24..24 + |a.data|] == a.data
  {
    hide Encode;
  }

  lemma SliceOf<T>(m: seq<T>, o: nat, r: seq<T>, i: nat, j: nat)
    requires i <= j <= |r| && o + |r| <= |m| && m[o..o + |r|] == r
    ensures m[o + i..o + j] == r[i..j]
  {
    var a, b := m[o + i..o + j], r[i..j];
    forall k | 0 <= k < |a| ensures a[k] == b[k] {
      assert m[o..o + |r|][i + k] == m[o + (i + k)];
    }
  }

  /** What the PAL is given for parameter i: the value, or where the copy of the data
      is. */
  ghost function Passed(args: seq<Arg>, base: nat, i: nat): nat
    requires i < |args|
  {
    if args[i].kind == TV_PAL_PM_POINTER then base + |Upto(args, i + 1)| + 24 else args[i].value
  }

  /** The stack words for the parameters from i on, the first one lowest. */
  ghost function Slots(args: seq<Arg>, base: nat, word: nat, i: nat): seq<Byte>
    requires i <= |args|
    decreases |args| - i
  {
    if i == |args| then [] else Encode(Passed(args, base, i), word) + Slots(args, base, word, i + 1)
  }

  lemma {:induction false} SlotsLength(args: seq<Arg>, base: nat, word: nat, i: nat)
    requires i <= |args|
    ensures |Slots(args, base, word, i)| == word * (|args| - i)
    decreases |args| - i
  {
    hide Encode, Passed;
    if i < |args| {
      SlotsLength(args, base, word, i + 1);
      var rest := |args| - (i + 1);
      MulDistribLeft(rest, 1, word);
      assert |args| - i == rest + 1;
    }
  }

  /** The stack word of parameter k. */
  lemma {:induction false} SlotAt(args: seq<Arg>, base: nat, word: nat, i: nat, k: nat)
    requires i <= k < |args|
    ensures 0 <= (k - i) * word && (k - i) * word + word <= |Slots(args, base, word, i)|
    ensures Slots(args, base, word, i)[(k - i) * word..(k - i) * word + word] == Encode(Passed(args, base, k), word)
    decreases k - i
  {
    hide Encode, Passed;
    var e, t := Encode(Passed(args, base, i), word), Slots(args, base, word, i + 1);
    if i < k {
      SlotAt(args, base, word, i + 1, k);
      var o := (k - (i + 1)) * word;
      MulSum(k - i, k - (i + 1), 1, word);
      SliceBehind(e, t, o, word);
    } else {
      MulSum(k - i, 0, 0, word);
      assert (e + t)[0..word] == e;
    }
  }

  lemma SliceBehind<T>(e: seq<T>, t: seq<T>, o: nat, n: nat)
    requires o + n <= |t| && |e| == n
    ensures (e + t)[n + o..n + o + n] == t[o..o + n]
  {
  }

  // ------------------------------------------------------------- coming back

  /** The same parameters, up to the data. */
  ghost predicate SameHeaders(a: seq<Arg>, b: seq<Arg>) {
    |a| == |b| && forall i :: 0 <= i < |a| ==>
      a[i].kind == b[i].kind && a[i].size == b[i].size && a[i].value == b[i].value && |a[i].data| == |b[i].data|
  }

  /** The caller's memory after the data of the parameters from the last down to i has
      been written back. */
  ghost function WriteBack(s: Space, args: seq<Arg>, i: nat): Space
    requires i <= |args|
    decreases |args| - i
  {
    if i == |args| then s
    else if args[i].kind == TV_PAL_PM_POINTER then Store(WriteBack(s, args, i + 1), args[i].value, args[i].data)
    else WriteBack(s, args, i + 1)
  }

  ghost predicate IsPointer(args: seq<Arg>, i: int) {
    0 <= i < |args| && args[i].kind == TV_PAL_PM_POINTER
  }

  /** No two buffers share a byte. */
  ghost predicate BuffersApart(args: seq<Arg>) {
    forall i, j :: IsPointer(args, i) && IsPointer(args, j) && i != j ==>
      args[i].value + |args[i].data| <= args[j].value || args[j].value + |args[j].data| <= args[i].value
  }

  ghost predicate BuffersWritable(s: Space, args: seq<Arg>) {
    forall i :: IsPointer(args, i) ==> CanWrite(s, args[i].value, |args[i].data|)
  }

  lemma {:induction false} WriteBackAccess(s: Space, args: seq<Arg>, i: nat, a: nat, n: nat)
    requires i <= |args|
    ensures CanRead(WriteBack(s, args, i), a, n) <==> CanRead(s, a, n)
    ensures CanWrite(WriteBack(s, args, i), a, n) <==> CanWrite(s, a, n)
    decreases |args| - i
  {
    if i < |args| {
      WriteBackAccess(s, args, i + 1, a, n);
      StoreKeepsAccess(WriteBack(s, args, i + 1), args[i].value, args[i].data, a, n);
    }
  }

  /** A range clear of the buffers from i on keeps its contents. */
  lemma {:induction false} WriteBackElsewhere(s: Space, args: seq<Arg>, i: nat, a: nat, n: nat)
    requires i <= |args|
    requires forall j :: i <= j && IsPointer(args, j) ==> a + n <= args[j].value || args[j].value + |args[j].data| <= a
    ensures Load(WriteBack(s, args, i), a, n) == Load(s, a, n)
    decreases |args| - i
  {
    if i < |args| {
      WriteBackElsewhere(s, args, i + 1, a, n);
      if args[i].kind == TV_PAL_PM_POINTER {
        assert IsPointer(args, i);
        LoadElsewhere(WriteBack(s, args, i + 1), args[i].value, args[i].data, a, n);
      }
    }
  }

  /** Every buffer gets its own data. */
  lemma {:induction false} WriteBackBuffer(s: Space, args: seq<Arg>, i: nat, j: nat)
    requires i <= j && IsPointer(args, j) && BuffersApart(args) && BuffersWritable(s, args)
    ensures Load(WriteBack(s, args, i), args[j].value, |args[j].data|) == args[j].data
    decreases |args| - i
  {
    var t := WriteBack(s, args, i + 1);
    if i == j {
      WriteBackAccess(s, args, i + 1, args[j].value, |args[j].data|);
      LoadBack(t, args[j].value, args[j].data);
    } else {
      WriteBackBuffer(s, args, i + 1, j);
      if args[i].kind == TV_PAL_PM_POINTER {
        assert IsPointer(args, i);
        LoadElsewhere(t, args[i].value, args[i].data, args[j].value, |args[j].data|);
      }
    }
  }
}
