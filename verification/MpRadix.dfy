/** mp_toradix and mp_read_radix: numbers as text in radix 2 to 64. */
module MpRadix {
  import opened Arith
  import opened MpDigits
  import opened MpInts
  import opened MpScale
  import opened MpDivDigit
  import opened MpDigitOps

  // ----------------------------------------------------------------- characters

  /** mp_s_rmap: the character for a digit. */
  function Rmap(y: nat): char
    requires y < 64
  {
    if y < 10 then (48 + y) as char
    else if y < 36 then (55 + y) as char
    else if y < 62 then (61 + y) as char
    else if y == 62 then '+' else '/'
  }

  lemma RmapDistinct(x: nat, y: nat)
    requires x < 64 && y < 64 && Rmap(x) == Rmap(y)
    ensures x == y
  {
    assert Rmap(x) as int == Rmap(y) as int;
  }

  function Upper(c: char): char {
    if 'a' <= c <= 'z' then (c as int - 32) as char else c
  }

  /** What a character counts for, or 64: below radix 36 case does not matter. */
  function DigitOf(c: char, radix: nat): (y: nat)
    ensures y <= 64
  {
    var ch := if radix < 36 then Upper(c) else c;
    if 48 <= ch as int < 58 then ch as int - 48
    else if 65 <= ch as int < 91 then ch as int - 55
    else if 97 <= ch as int < 123 then ch as int - 61
    else if ch == '+' then 62 else if ch == '/' then 63 else 64
  }

  lemma DigitOfRmap(y: nat, radix: nat)
    requires 2 <= radix <= 64 && y < radix
    ensures DigitOf(Rmap(y), radix) == y
  {
  }

  /** The search loop through mp_s_rmap. */
  method FindDigit(c: char, radix: nat) returns (y: nat)
    ensures y == DigitOf(c, radix)
  {
    var ch := if radix < 36 then Upper(c) else c;
    y := 0;
    while y < 64
      invariant 0 <= y <= 64 && forall i :: 0 <= i < y ==> Rmap(i) != ch
    {
      if ch == Rmap(y) { break; }
      y := y + 1;
    }
    SearchEnds(ch, c, radix, y);
  }

  lemma SearchEnds(ch: char, c: char, radix: nat, y: nat)
    requires ch == (if radix < 36 then Upper(c) else c) && y <= 64
    requires (forall i :: 0 <= i < y ==> Rmap(i) != ch) && (y < 64 ==> Rmap(y) == ch)
    ensures y == DigitOf(c, radix)
  {
    var d := DigitOf(c, radix);
    if d < 64 {
      assert Rmap(d) == ch;
      if y < 64 { RmapDistinct(y, d); }
    }
  }

  // ------------------------------------------------------------------- printing

  /** The digits of a number, the highest first. */
  function DigitsOf(v: nat, radix: nat): (s: string)
    requires 2 <= radix <= 64
    decreases v
  {
    if v == 0 then "" else
    Smaller(v, radix);
    DigitsOf(v / radix, radix) + [Rmap(v % radix)]
  }

  lemma Smaller(v: nat, radix: nat)
    requires 0 < v && 2 <= radix
    ensures 0 <= v / radix < v && 0 <= v % radix < radix
  {
    DivMod(v, radix);
    QuotientMonotone(0, v, radix);
    if v / radix >= v {
      MulMonotone(v, v / radix, radix);
      MulMonotone(2, radix, v);
    }
  }

  function Printed(v: int, radix: nat): string
    requires 2 <= radix <= 64
  {
    if v == 0 then "0" else if v < 0 then "-" + DigitsOf(-v, radix) else DigitsOf(v, radix)
  }

  function Reversed<T>(s: seq<T>): (r: seq<T>)
    ensures |r| == |s|
  {
    if |s| == 0 then [] else Reversed(s[1..]) + [s[0]]
  }

  lemma {:induction false} ReversedAt<T>(s: seq<T>, k: nat)
    requires k < |s|
    ensures Reversed(s)[k] == s[|s| - 1 - k]
  {
    if k < |s| - 1 { ReversedAt(s[1..], k); }
  }

  lemma {:induction false} ReversedAppend<T>(s: seq<T>, c: T)
    ensures Reversed(s + [c]) == [c] + Reversed(s)
  {
    if |s| > 0 {
      ReversedAppend(s[1..], c);
      assert (s + [c])[1..] == s[1..] + [c];
    }
  }

  /** Position k when everything outside i to j has been exchanged. */
  function Mirror<T>(s: seq<T>, i: int, j: int, k: nat): T
    requires k < |s|
  {
    if k < i || k > j then s[|s| - 1 - k] else s[k]
  }

  /** bn_reverse */
  method Reverse<T>(s: seq<T>) returns (r: seq<T>)
    ensures r == Reversed(s)
  {
    r := s;
    var i, j := 0, |s| - 1;
    while i < j
      invariant 0 <= i <= j + 1 <= |s| == |r| && i + j == |s| - 1
      invariant forall k :: 0 <= k < |s| ==> r[k] == Mirror(s, i, j, k)
    {
      r := r[i := r[j]][j := r[i]];
      i, j := i + 1, j - 1;
    }
    forall k | 0 <= k < |s| ensures r[k] == Reversed(s)[k] { ReversedAt(s, k); }
  }

  /** The digit loop: the lowest digit first. */
  method PrintDigits(t: MpInt, radix: nat) returns (s: string)
    requires t.Trim() && 2 <= radix <= 64
    modifies t
    ensures Reversed(s) == DigitsOf(old(t.Mag()), radix)
  {
    hide Pow2, Value, Rmap;
    BaseIsLarge();
    ghost var v := t.Mag();
    s := "";
    TrimmedNegative(t);
    while t.used != 0
      invariant t.Trim() && DigitsOf(t.Mag(), radix) + Reversed(s) == DigitsOf(v, radix)
      invariant (t.used == 0 <==> t.Mag() == 0)
      decreases t.Mag()
    {
      ghost var m := t.Mag();
      var ok, d := DivD(t, radix, t);
      TrimmedNegative(t);
      Halved(m, radix);
      ReversedAppend(s, Rmap(d));
      s := s + [Rmap(d)];
      assert DigitsOf(m, radix) == DigitsOf(m / radix, radix) + [Rmap(d)];
      assert DigitsOf(m / radix, radix) + ([Rmap(d)] + Reversed(s[..|s| - 1])) == DigitsOf(v, radix);
      assert s[..|s| - 1] + [Rmap(d)] == s;
    }
  }

  lemma Halved(m: nat, radix: nat)
    requires m > 0 && radix >= 2
    ensures 0 <= m / radix < m && 0 <= m % radix < radix
  {
    DivMod(m, radix);
    if m / radix >= m { MulMonotone(m, m / radix, radix); MulMonotone(2, radix, m); }
    QuotientMonotone(0, m, radix);
  }

  /** mp_toradix */
  method ToRadix(a: MpInt, radix: int) returns (ok: bool, s: string)
    requires a.Trim()
    ensures ok == (2 <= radix <= 64)
    ensures ok ==> s == Printed(a.V(), radix)
  {
    ok, s := 2 <= radix <= 64, "";
    if !ok { return; }
    TrimmedNegative(a);
    if a.used == 0 { return ok, "0"; }
    var t := InitCopy(a);
    var sign := "";
    if t.sign == NEG {
      sign := "-";
      t.sign := ZPOS;
    }
    s := PrintDigits(t, radix);
    s := Reverse(s);
    s := sign + s;
  }

  // -------------------------------------------------------------------- parsing

  /** The number that the digits up to the first foreign character add to acc. */
  function ParseFrom(s: string, radix: nat, acc: nat): nat
    requires 2 <= radix <= 64
  {
    if s == "" || DigitOf(s[0], radix) >= radix then acc
    else ParseFrom(s[1..], radix, acc * radix + DigitOf(s[0], radix))
  }

  function Parsed(s: string, radix: nat): int
    requires 2 <= radix <= 64
  {
    if s != "" && s[0] == '-' then 0 - ParseFrom(s[1..], radix, 0) else ParseFrom(s, radix, 0)
  }

  /** The digit loop of mp_read_radix. */
  method ReadDigits(a: MpInt, s: string, radix: nat)
    requires a.Trim() && a.ClearAbove() && a.V() == 0 && 2 <= radix <= 64
    modifies a
    ensures a.Trim() && a.V() == ParseFrom(s, radix, 0)
  {
    hide Value;
    BaseIsLarge();
    var i := 0;
    while i < |s|
      invariant 0 <= i <= |s| && a.Trim() && a.ClearAbove() && a.V() >= 0
      invariant ParseFrom(s[i..], radix, a.V()) == ParseFrom(s, radix, 0)
    {
      ghost var v := a.V();
      var y := FindDigit(s[i], radix);
      assert s[i..][0] == s[i] && s[i..][1..] == s[i + 1..];
      if y < radix {
        MulNonneg(v, radix);
        MulD(a, radix, a);
        AddD(a, y, a);
      } else {
        break;
      }
      i := i + 1;
    }
  }

  /** mp_read_radix */
  method ReadRadix(a: MpInt, s: string, radix: int) returns (ok: bool)
    requires a.Valid()
    modifies a
    ensures ok == (2 <= radix <= 64)
    ensures a.Trim() && a.V() == if ok then Parsed(s, radix) else 0
  {
    Zero(a);
    ok := 2 <= radix <= 64;
    if !ok { return; }
    var neg := s != "" && s[0] == '-';
    var body := if neg then s[1..] else s;
    Zero(a);
    ReadDigits(a, body, radix);
    TrimmedNegative(a);
    if a.used != 0 { a.sign := if neg then NEG else ZPOS; }
  }

  // ------------------------------------------------------------- the round trip

  /** Reading the digits of v after acc. */
  lemma {:induction false} ParseDigits(v: nat, radix: nat, rest: string)
    requires 2 <= radix <= 64
    ensures ParseFrom(DigitsOf(v, radix) + rest, radix, 0) == ParseFrom(rest, radix, v)
    decreases v
  {
    if v == 0 {
      assert DigitsOf(v, radix) + rest == rest;
    } else {
      Halved(v, radix);
      var q, r := v / radix, v % radix;
      assert DigitsOf(v, radix) + rest == DigitsOf(q, radix) + ([Rmap(r)] + rest);
      ParseDigits(q, radix, [Rmap(r)] + rest);
      DigitOfRmap(r, radix);
      assert ([Rmap(r)] + rest)[1..] == rest;
      DivMod(v, radix);
    }
  }

  /** The digits never start with a minus sign. */
  lemma {:induction false} NoMinus(v: nat, radix: nat)
    requires 2 <= radix <= 64 && v > 0
    ensures DigitsOf(v, radix) != "" && DigitsOf(v, radix)[0] != '-'
    decreases v
  {
    Halved(v, radix);
    if v / radix > 0 { NoMinus(v / radix, radix); }
  }

  /** Reading back what was printed gives the number, in every radix. */
  lemma RadixRoundTrip(v: int, radix: nat)
    requires 2 <= radix <= 64
    ensures Parsed(Printed(v, radix), radix) == v
  {
    if v == 0 {
      assert Printed(v, radix)[1..] == "";
      assert DigitOf('0', radix) == 0;
    } else {
      var m := if v < 0 then -v else v;
      var d := DigitsOf(m, radix);
      NoMinus(m, radix);
      ParseDigits(m, radix, "");
      assert d + "" == d;
      assert ("-" + d)[1..] == d;
    }
  }
}
