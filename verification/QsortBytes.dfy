/** The memory that qsort works on: n elements of es bytes each, exchanged byte by byte or
    word by word. */
module QsortBytes {
  import opened Arith
  import opened ByteNumbers
  import opened QsortOrder

  type Elem = seq<Byte>

  type LongSize = x: int | x == 4 || x == 8 witness 4

  /** sizeof(long) on the target. */
  const LONG: LongSize

  /** SWAPINIT: 0 for single words, 1 for several words, 2 for bytes. */
  function SwapType(address: nat, es: nat): (t: nat)
    ensures t <= 1 ==> es % LONG == 0 && address % LONG == 0
    ensures t == 0 ==> es == LONG
  {
    if address % LONG != 0 || es % LONG != 0 then 2 else if es == LONG then 0 else 1
  }

  // ---------------------------------------------------------------- exchanging

  /** t is s with the r elements from p and the r elements from q exchanged. */
  ghost predicate Exchanged<T>(s: seq<T>, t: seq<T>, p: int, q: int, r: int)
    requires 0 <= p && 0 <= r && p + r <= q && q + r <= |s|
  {
    && |t| == |s|
    && (forall k :: p <= k < p + r ==> t[k] == s[k + (q - p)])
    && (forall k :: q <= k < q + r ==> t[k] == s[k - (q - p)])
    && (forall k :: 0 <= k < |s| && !(p <= k < p + r) && !(q <= k < q + r) ==> t[k] == s[k])
  }

  lemma ExchangedOne<T>(s: seq<T>, t: seq<T>, u: seq<T>, p: int, q: int, r: int)
    requires 0 <= p && 0 <= r && p + r < q && q + r < |s| && Exchanged(s, t, p, q, r)
    requires u == t[p + r := t[q + r]][q + r := t[p + r]]
    ensures Exchanged(s, u, p, q, r + 1)
  {
  }

  lemma ExchangedNone<T>(s: seq<T>, p: int, q: int)
    requires 0 <= p <= q <= |s|
    ensures Exchanged(s, s, p, q, 0)
  {
  }

  /** Exchanging rearranges. */
  lemma {:induction false} ExchangedShuffles<T>(s: seq<T>, t: seq<T>, p: int, q: int, r: int, lo: int, hi: int)
    requires 0 <= lo <= p && 0 <= r && p + r <= q && q + r <= hi <= |s| && Exchanged(s, t, p, q, r)
    ensures Shuffled(s, t, lo, hi)
    decreases r
  {
    if r == 0 {
      assert t == s;
      ShuffledSame(s, lo, hi);
    } else {
      var i, j := p + (r - 1), q + (r - 1);
      var u := t[i := t[j]][j := t[i]];
      ExchangedShuffles(s, u, p, q, r - 1, lo, hi);
      SwapShuffles(u, t, lo, hi, i, j);
      ShuffledTwice(s, u, t, lo, hi);
    }
  }

  lemma ExchangedMore<T>(s: seq<T>, t: seq<T>, u: seq<T>, p: int, q: int, r: int, n: int)
    requires 0 <= p && 0 <= r && 0 <= n && p + r + n <= q && q + r + n <= |s|
    requires Exchanged(s, t, p, q, r) && Exchanged(t, u, p + r, q + r, n)
    ensures Exchanged(s, u, p, q, r + n)
  {
  }

  /** The two places are the same, or do not overlap. */
  predicate Apart(p: int, q: int, n: int) { p == q || p + n <= q || q + n <= p }

  /** t is s with the n elements from p and from q exchanged, whichever comes first. */
  ghost predicate Swapped<T>(s: seq<T>, t: seq<T>, p: int, q: int, n: int)
    requires 0 <= p && 0 <= q && 0 <= n && p + n <= |s| && q + n <= |s| && Apart(p, q, n)
  {
    if p == q then t == s else if p < q then Exchanged(s, t, p, q, n) else Exchanged(s, t, q, p, n)
  }

  lemma SwappedNone<T>(s: seq<T>, p: int, q: int)
    requires 0 <= p <= |s| && 0 <= q <= |s|
    ensures Swapped(s, s, p, q, 0)
  {
  }

  lemma SwappedOne<T>(s: seq<T>, t: seq<T>, u: seq<T>, p: int, q: int, r: int)
    requires 0 <= p && 0 <= q && 0 <= r && p + r < |s| && q + r < |s| && Apart(p, q, r + 1) && Swapped(s, t, p, q, r)
    requires |t| == |s| && u == t[p + r := t[q + r]][q + r := t[p + r]]
    ensures Swapped(s, u, p, q, r + 1)
  {
    if p < q { ExchangedOne(s, t, u, p, q, r); }
    if q < p { ExchangedOne(s, t, u, q, p, r); }
  }

  lemma SwappedMore<T>(s: seq<T>, t: seq<T>, u: seq<T>, p: int, q: int, r: int, n: int)
    requires 0 <= p && 0 <= q && 0 <= r && 0 <= n && p + r + n <= |s| && q + r + n <= |s| && Apart(p, q, r + n)
    requires |t| == |s| && Swapped(s, t, p, q, r) && Swapped(t, u, p + r, q + r, n)
    ensures Swapped(s, u, p, q, r + n)
  {
    if p < q { ExchangedMore(s, t, u, p, q, r, n); }
    if q < p { ExchangedMore(s, t, u, q, p, r, n); }
  }

  /** One step of swapcode: exchange unit bytes. */
  method SwapUnit(m: array<Byte>, p: nat, q: nat, unit: nat)
    requires p + unit <= m.Length && q + unit <= m.Length && Apart(p, q, unit)
    modifies m
    ensures Swapped(old(m[..]), m[..], p, q, unit)
  {
    ghost var was := m[..];
    SwappedNone(was, p, q);
    hide Swapped;
    var i := 0;
    while i < unit
      invariant 0 <= i <= unit && Swapped(was, m[..], p, q, i)
    {
      ghost var s := m[..];
      m[p + i], m[q + i] := m[q + i], m[p + i];
      SwappedOne(was, s, m[..], p, q, i);
      i := i + 1;
    }
  }

  lemma OneLess(i: nat, unit: nat)
    requires i > 0
    ensures 0 <= (i - 1) * unit == i * unit - unit
  {
    MulDistrib(i - 1, 1, unit);
    MulNonneg(i - 1, unit);
  }

  /** swapcode: count steps of unit bytes each. */
  method SwapCode(m: array<Byte>, a: nat, b: nat, unit: nat, count: nat, ghost n: nat)
    requires 0 < count && n == count * unit && a + n <= m.Length && b + n <= m.Length && Apart(a, b, n)
    modifies m
    ensures Swapped(old(m[..]), m[..], a, b, n)
  {
    ghost var was := m[..];
    SwappedNone(was, a, b);
    hide Swapped;
    var i, moved := count, 0;
    ghost var rest: nat := n;
    while true
      invariant 0 < i && rest == i * unit && 0 <= moved && moved + rest == n && Swapped(was, m[..], a, b, moved)
      decreases i
    {
      ghost var s := m[..];
      OneLess(i, unit);
      SwapUnit(m, a + moved, b + moved, unit);
      SwappedMore(was, s, m[..], a, b, moved, unit);
      moved, i := moved + unit, i - 1;
      rest := rest - unit;
      if !(i > 0) { break; }
    }
  }

  /** swapfunc on n bytes at two places. */
  method SwapFunc(m: array<Byte>, a: nat, b: nat, n: nat, swaptype: nat)
    requires 0 < n && a + n <= m.Length && b + n <= m.Length && Apart(a, b, n) && (swaptype <= 1 ==> n % LONG == 0)
    modifies m
    ensures Swapped(old(m[..]), m[..], a, b, n)
  {
    hide Swapped;
    var unit := if swaptype <= 1 then LONG else 1;
    SwapCode(m, a, b, unit, n / unit, n);
  }

  // ------------------------------------------------------------------ elements

  /** Where element i lies, from the first one. */
  function Off(i: nat, es: nat): nat {
    MulNonneg(i, es);
    i * es
  }

  lemma OffOrder(i: nat, j: nat, es: nat)
    ensures i < j ==> Off(i, es) + es <= Off(j, es)
    ensures i <= j ==> Off(i, es) <= Off(j, es)
  {
    if i < j {
      MulMonotone(i + 1, j, es);
      MulDistrib(i, 1, es);
    }
  }

  lemma OffSum(i: nat, k: nat, es: nat)
    ensures Off(i + k, es) == Off(i, es) + Off(k, es)
  {
    MulDistrib(i, k, es);
  }

  lemma OffOne(es: nat)
    ensures Off(1, es) == es && Off(0, es) == 0
  {
  }

  /** Element i lies within the n elements from base. */
  ghost predicate Inside<T>(s: seq<T>, base: nat, es: nat, n: nat, i: nat) {
    i < n && base + Off(n, es) <= |s| && Off(i, es) + es <= Off(n, es)
  }

  /** The bytes of element i. */
  function Element<T>(s: seq<T>, base: nat, es: nat, ghost n: nat, i: nat): seq<T>
    requires Inside(s, base, es, n, i)
  {
    s[base + Off(i, es)..base + Off(i, es) + es]
  }

  lemma IsInside<T>(s: seq<T>, base: nat, es: nat, n: nat, i: nat)
    requires i < n && base + Off(n, es) <= |s|
    ensures Inside(s, base, es, n, i)
  {
    hide Off;
    OffOrder(i, n, es);
  }

  /** Slices of an exchange. */
  lemma SlicesExchanged<T>(s: seq<T>, t: seq<T>, p: int, q: int, r: int, x: int, n: int)
    requires 0 <= p && 0 <= r && p + r <= q && q + r <= |s| && Exchanged(s, t, p, q, r)
    requires 0 <= x && 0 <= n && x + n <= |s|
    ensures p <= x && x + n <= p + r ==> t[x..x + n] == s[x + (q - p)..x + (q - p) + n]
    ensures q <= x && x + n <= q + r ==> t[x..x + n] == s[x - (q - p)..x - (q - p) + n]
    ensures (x + n <= p || p + r <= x) && (x + n <= q || q + r <= x) ==> t[x..x + n] == s[x..x + n]
  {
  }

  /** Element e against the k elements from i. */
  lemma Offsets(i: nat, k: nat, e: nat, es: nat)
    ensures i <= e < i + k ==> Off(i, es) <= Off(e, es) && Off(e, es) + es <= Off(i, es) + Off(k, es)
    ensures e < i ==> Off(e, es) + es <= Off(i, es)
    ensures i + k <= e ==> Off(i, es) + Off(k, es) <= Off(e, es)
  {
    hide Off;
    OffSum(i, k, es);
    OffOrder(e, i, es);
    OffOrder(i, e, es);
    OffOrder(e, i + k, es);
    OffOrder(i + k, e, es);
  }

  /** Where element e of the new array was in the old one. */
  function Origin(e: nat, i: nat, j: nat, k: nat): nat
    requires i + k <= j
  {
    if i <= e < i + k then e + (j - i) else if j <= e < j + k then e - (j - i) else e
  }

  /** Places of elements. */
  lemma Places(i: nat, j: nat, k: nat, n: nat, es: nat)
    requires i + k <= j && j + k <= n
    ensures Off(i, es) + Off(k, es) <= Off(j, es) && Off(j, es) + Off(k, es) <= Off(n, es)
  {
    hide Off;
    OffSum(i, k, es);
    OffSum(j, k, es);
    OffOrder(i + k, j, es);
    OffOrder(j + k, n, es);
  }

  /** The k elements from i and from j lie apart, within the n elements from base. */
  ghost predicate Placed<T>(s: seq<T>, base: nat, es: nat, n: nat, i: nat, j: nat, k: nat) {
    && i + k <= j && j + k <= n && base + Off(n, es) <= |s|
    && Off(i, es) + Off(k, es) <= Off(j, es) && Off(j, es) + Off(k, es) <= Off(n, es)
  }

  /** Exchanging the bytes of k elements at i and at j exchanges the elements. */
  lemma ElementsExchanged<T>(s: seq<T>, t: seq<T>, base: nat, es: nat, n: nat, i: nat, j: nat, k: nat, e: nat)
    requires Placed(s, base, es, n, i, j, k) && e < n
    requires Exchanged(s, t, base + Off(i, es), base + Off(j, es), Off(k, es))
    ensures Inside(t, base, es, n, e) && Inside(s, base, es, n, Origin(e, i, j, k))
    ensures Element(t, base, es, n, e) == Element(s, base, es, n, Origin(e, i, j, k))
  {
    hide Off, Exchanged;
    ExchangedLength(s, t, base + Off(i, es), base + Off(j, es), Off(k, es));
    IsInside(t, base, es, n, e);
    IsInside(s, base, es, n, Origin(e, i, j, k));
    Offsets(i, k, e, es);
    Offsets(j, k, e, es);
    OffSum(i, j - i, es);
    OffSum(e, j - i, es);
    if e >= j { OffSum(e - (j - i), j - i, es); }
    SlicesExchanged(s, t, base + Off(i, es), base + Off(j, es), Off(k, es), base + Off(e, es), es);
  }

  lemma ExchangedLength<T>(s: seq<T>, t: seq<T>, p: int, q: int, r: int)
    requires 0 <= p && 0 <= r && p + r <= q && q + r <= |s| && Exchanged(s, t, p, q, r)
    ensures |t| == |s|
  {
  }

  /** The elements that the bytes from base hold. */
  function ElementsOf(s: seq<Byte>, base: nat, es: nat, n: nat): (r: seq<Elem>)
    requires base + Off(n, es) <= |s|
    ensures |r| == n
  {
    seq(n, i requires 0 <= i < n => IsInside(s, base, es, n, i); Element(s, base, es, n, i))
  }

  lemma ElementAt(s: seq<Byte>, base: nat, es: nat, n: nat, i: nat)
    requires base + Off(n, es) <= |s| && i < n
    ensures Inside(s, base, es, n, i) && ElementsOf(s, base, es, n)[i] == Element(s, base, es, n, i)
  {
    IsInside(s, base, es, n, i);
  }

  /** Exchanging the bytes of k elements exchanges the elements, and nothing else. */
  lemma BytesToElements(s: seq<Byte>, t: seq<Byte>, base: nat, es: nat, n: nat, i: nat, j: nat, k: nat)
    requires Placed(s, base, es, n, i, j, k)
    requires Exchanged(s, t, base + Off(i, es), base + Off(j, es), Off(k, es))
    ensures |t| == |s| && Exchanged(ElementsOf(s, base, es, n), ElementsOf(t, base, es, n), i, j, k)
    ensures s[..base] == t[..base] && s[base + Off(n, es)..] == t[base + Off(n, es)..]
  {
    hide Off, ElementsOf;
    ExchangedLength(s, t, base + Off(i, es), base + Off(j, es), Off(k, es));
    var x, y := ElementsOf(s, base, es, n), ElementsOf(t, base, es, n);
    forall e: nat | e < n ensures y[e] == x[Origin(e, i, j, k)] {
      ElementsExchanged(s, t, base, es, n, i, j, k, e);
      ElementAt(t, base, es, n, e);
      ElementAt(s, base, es, n, Origin(e, i, j, k));
    }
  }

  /** Exchanging the bytes of elements i and j, in either order or the same. */
  lemma SwapIsExchange(s: seq<Byte>, t: seq<Byte>, base: nat, es: nat, n: nat, i: nat, j: nat)
    requires i < n && j < n && Inside(s, base, es, n, i) && Inside(s, base, es, n, j)
    requires Apart(Off(i, es), Off(j, es), es) && Swapped(s, t, base + Off(i, es), base + Off(j, es), es)
    requires Off(i, es) == Off(j, es) <==> i == j
    ensures |t| == |s|
    ensures var x, y := ElementsOf(s, base, es, n), ElementsOf(t, base, es, n); y == x[i := x[j]][j := x[i]]
    ensures s[..base] == t[..base] && s[base + Off(n, es)..] == t[base + Off(n, es)..]
  {
    hide Off, ElementsOf;
    if i != j {
      var p, q := if i < j then i else j, if i < j then j else i;
      Places(p, q, 1, n, es);
      OffOne(es);
      BytesToElements(s, t, base, es, n, p, q, 1);
      OneExchanged(ElementsOf(s, base, es, n), ElementsOf(t, base, es, n), p, q);
    }
  }

  lemma OneExchanged<T>(s: seq<T>, t: seq<T>, p: int, q: int)
    requires 0 <= p < q < |s| && Exchanged(s, t, p, q, 1)
    ensures t == s[p := s[q]][q := s[p]] && t == s[q := s[p]][p := s[q]]
  {
  }

  /** n elements of es bytes each from address base on. */
  class Elements {
    const m: array<Byte>
    const base: nat
    const es: nat
    const n: nat

    constructor (m: array<Byte>, base: nat, n: nat, es: nat)
      requires 0 < es && base + Off(n, es) <= m.Length
      ensures Valid() && this.m == m && this.base == base && this.n == n && this.es == es
    {
      this.m, this.base, this.n, this.es := m, base, n, es;
    }

    ghost predicate Valid() { 0 < es && base + Off(n, es) <= m.Length }

    /** The elements. */
    ghost function S(): (s: seq<Elem>)
      reads m
      requires Valid()
      ensures |s| == n
    {
      ElementsOf(m[..], base, es, n)
    }

    /** The memory before and after them. */
    ghost function Rest(): (r: (seq<Byte>, seq<Byte>))
      reads m
      requires Valid()
    {
      (m[..base], m[base + Off(n, es)..])
    }

    function At(i: nat): (e: Elem)
      reads m
      requires Valid() && i < n
      ensures e == S()[i]
    {
      ElementAt(m[..], base, es, n, i);
      m[base + Off(i, es)..base + Off(i, es) + es]
    }

    /** swap(a, b), for elements i and j in either order, or the same. */
    method Swap(i: nat, j: nat, ghost lo: int, ghost hi: int)
      requires Valid() && 0 <= lo <= i < hi <= n && lo <= j < hi
      modifies m
      ensures S() == old(S())[i := old(S())[j]][j := old(S())[i]] && Rest() == old(Rest())
      ensures Shuffled(old(S()), S(), lo, hi)
    {
      hide Off, Swapped, ElementsOf, Shuffled;
      ghost var was := m[..];
      OffOrder(i, j, es);
      OffOrder(j, i, es);
      IsInside(was, base, es, n, i);
      IsInside(was, base, es, n, j);
      var swaptype := SwapType(base, es);
      if swaptype == 0 {
        SwapUnit(m, base + Off(i, es), base + Off(j, es), LONG);
      } else {
        SwapFunc(m, base + Off(i, es), base + Off(j, es), es, swaptype);
      }
      SwapIsExchange(was, m[..], base, es, n, i, j);
      SwapShuffles(old(S()), S(), lo, hi, i, j);
    }

    /** vecswap, of r elements. */
    method VecSwap(p: nat, q: nat, r: nat, ghost lo: int, ghost hi: int)
      requires Valid() && 0 <= lo <= p && p + r <= q && q + r <= hi <= n
      modifies m
      ensures Shuffled(old(S()), S(), lo, hi) && Exchanged(old(S()), S(), p, q, r) && Rest() == old(Rest())
    {
      hide Off, ElementsOf, Shuffled, Exchanged;
      ghost var was := m[..];
      Places(p, q, r, n, es);
      var swaptype := SwapType(base, es);
      if Off(r, es) > 0 {
        if swaptype <= 1 { OffMod(r, es, LONG); }
        SwapFunc(m, base + Off(p, es), base + Off(q, es), Off(r, es), swaptype);
        SwappedUp(was, m[..], base + Off(p, es), base + Off(q, es), Off(r, es));
      } else {
        ExchangedNone(was, base + Off(p, es), base + Off(q, es));
      }
      BytesToElements(was, m[..], base, es, n, p, q, r);
      ExchangedShuffles(old(S()), S(), p, q, r, lo, hi);
    }
  }

  lemma SwappedUp<T>(s: seq<T>, t: seq<T>, p: int, q: int, r: int)
    requires 0 <= p && 0 < r && p + r <= q && q + r <= |s| && Swapped(s, t, p, q, r)
    ensures Exchanged(s, t, p, q, r)
  {
  }

  lemma OffMod(r: nat, es: nat, w: nat)
    requires w > 0 && es % w == 0
    ensures Off(r, es) % w == 0
  {
    DivMod(es, w);
    MulAssoc(r, es / w, w);
    DivModUnique(r * es, w, r * (es / w), 0);
  }
}
