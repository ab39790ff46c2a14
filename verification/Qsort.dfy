/** qsort: Bentley and McIlroy's quicksort with a three-way partition, on elements of es
    bytes each in memory. Pointers are element indices; the byte counts the code keeps in
    int variables are written out. */
module Qsort {
  import opened Arith
  import opened ByteNumbers
  import opened QsortBytes
  import opened QsortOrder

  const INT_MAX: int := 0x7fff_ffff

  /** The value of a byte count stored in an int. */
  function ToInt(x: int): int {
    var r := x % 0x1_0000_0000;
    if r > INT_MAX then r - 0x1_0000_0000 else r
  }

  /** A count of k elements goes through an int unharmed when the whole array's bytes
      fit. */
  lemma ElementCount(k: nat, n: nat, es: nat)
    requires 0 < es && k <= n && n * es <= INT_MAX
    ensures ToInt(k * es) == k * es <= INT_MAX && k * es / es == k && (k * es > es <==> k > 1)
  {
    MulMonotone(k, n, es);
    MulMonotone(0, k, es);
    DivModUnique(k * es, es, k, 0);
    if k > 1 { MulMonotone(2, k, es); } else { MulMonotone(k, 1, es); }
  }

  // ------------------------------------------------------------ insertion sort

  /** Sorted from lo to pm inclusive, but for the element at pl, which may still have
      to move down. */
  ghost predicate Sinking<T>(s: seq<T>, lo: int, pl: int, pm: int, cmp: (T, T) -> int)
    requires 0 <= lo && pm < |s|
  {
    forall i, j :: lo <= i < j <= pm && j != pl ==> cmp(s[i], s[j]) <= 0
  }

  lemma StartSinking<T>(s: seq<T>, lo: int, pm: int, cmp: (T, T) -> int)
    requires 0 <= lo <= pm < |s| && Sorted(s, lo, pm, cmp)
    ensures Sinking(s, lo, pm, pm, cmp)
  {
  }

  /** The inner loop of the insertion sort. */
  method Sink(a: Elements, lo: nat, pm: nat, ghost hi: int, cmp: (Elem, Elem) -> int)
    requires a.Valid() && lo <= pm < hi <= a.n && TotalPreorder(cmp) && Sorted(a.S(), lo, pm, cmp)
    modifies a.m
    ensures a.Rest() == old(a.Rest())
    ensures Sorted(a.S(), lo, pm + 1, cmp) && Shuffled(old(a.S()), a.S(), lo, hi)
  {
    hide Elements.S, Elements.At, Elements.Rest, Off, Sinking, TotalPreorder, Sorted, Shuffled;
    ghost var orig := a.S();
    ShuffledSame(orig, lo, hi);
    StartSinking(orig, lo, pm, cmp);
    var pl := pm;
    while pl > lo && cmp(a.At(pl - 1), a.At(pl)) > 0
      invariant a.Rest() == old(a.Rest())
      invariant lo <= pl <= pm && Sinking(a.S(), lo, pl, pm, cmp) && Shuffled(orig, a.S(), lo, hi)
    {
      ghost var s := a.S();
      a.Swap(pl, pl - 1, lo, hi);
      ShuffledTwice(orig, s, a.S(), lo, hi);
      SankOne(s, a.S(), lo, pl, pm, cmp);
      pl := pl - 1;
    }
    Sunk(a.S(), lo, pl, pm, cmp);
  }

  lemma SankOne<T(!new)>(s: seq<T>, t: seq<T>, lo: int, pl: int, pm: int, cmp: (T, T) -> int)
    requires TotalPreorder(cmp) && 0 <= lo < pl <= pm < |s| && Sinking(s, lo, pl, pm, cmp)
    requires cmp(s[pl - 1], s[pl]) > 0 && t == s[pl := s[pl - 1]][pl - 1 := s[pl]]
    ensures Sinking(t, lo, pl - 1, pm, cmp)
  {
    hide TotalPreorder;
    Flip(cmp, s[pl - 1], s[pl]);
  }

  lemma Sunk<T(!new)>(s: seq<T>, lo: int, pl: int, pm: int, cmp: (T, T) -> int)
    requires TotalPreorder(cmp) && 0 <= lo <= pl <= pm < |s| && Sinking(s, lo, pl, pm, cmp)
    requires pl > lo ==> cmp(s[pl - 1], s[pl]) <= 0
    ensures Sorted(s, lo, pm + 1, cmp)
  {
    hide TotalPreorder;
    forall i | lo <= i < pl ensures cmp(s[i], s[pl]) <= 0 {
      if i < pl - 1 { Chain(cmp, s[i], s[pl - 1], s[pl]); }
    }
  }

  lemma SortedTrivially<T>(s: seq<T>, lo: int, hi: int, cmp: (T, T) -> int)
    requires 0 <= lo && hi <= lo + 1 && hi <= |s|
    ensures Sorted(s, lo, hi, cmp)
  {
  }

  method InsertionSort(a: Elements, lo: nat, hi: nat, cmp: (Elem, Elem) -> int)
    requires a.Valid() && lo <= hi <= a.n && TotalPreorder(cmp)
    modifies a.m
    ensures a.Rest() == old(a.Rest())
    ensures Sorted(a.S(), lo, hi, cmp) && Shuffled(old(a.S()), a.S(), lo, hi)
  {
    hide Elements.S, Elements.At, Elements.Rest, Off, TotalPreorder, Sorted, Shuffled;
    ghost var orig := a.S();
    ShuffledSame(orig, lo, hi);
    SortedTrivially(orig, lo, Min(lo + 1, hi), cmp);
    var pm := lo + 1;
    while pm < hi
      invariant a.Rest() == old(a.Rest())
      invariant lo < pm && (pm <= hi || hi <= lo + 1)
      invariant Sorted(a.S(), lo, Min(pm, hi), cmp) && Shuffled(orig, a.S(), lo, hi)
    {
      ghost var s := a.S();
      Sink(a, lo, pm, hi, cmp);
      ShuffledTwice(orig, s, a.S(), lo, hi);
      pm := pm + 1;
    }
  }

  // ------------------------------------------------------------------- pivot

  ghost predicate Between<T>(x: T, m: T, y: T, cmp: (T, T) -> int) {
    (cmp(x, m) <= 0 && cmp(m, y) <= 0) || (cmp(y, m) <= 0 && cmp(m, x) <= 0)
  }

  /** med3: the middle one of three elements. */
  function Med3(a: Elements, i: nat, j: nat, k: nat, cmp: (Elem, Elem) -> int): (m: nat)
    reads a.m
    requires a.Valid() && i < a.n && j < a.n && k < a.n && TotalPreorder(cmp)
    ensures || (m == i && Between(a.At(j), a.At(m), a.At(k), cmp))
            || (m == j && Between(a.At(i), a.At(m), a.At(k), cmp))
            || (m == k && Between(a.At(i), a.At(m), a.At(j), cmp))
  {
    if cmp(a.At(i), a.At(j)) < 0 then
      if cmp(a.At(j), a.At(k)) < 0 then j else if cmp(a.At(i), a.At(k)) < 0 then k else i
    else
      if cmp(a.At(j), a.At(k)) > 0 then j else if cmp(a.At(i), a.At(k)) < 0 then i else k
  }

  // --------------------------------------------------------------- partition

  /** The four regions around the part not looked at yet, pb to pc: equal elements at
      both ends, smaller ones after the left end, greater ones before the right end. */
  ghost predicate Regions<T>(s: seq<T>, l: int, hi: int, pa: int, pb: int, pc: int, pd: int, v: T, cmp: (T, T) -> int)
  {
    && 0 <= l < pa <= pb <= pc + 1 <= pd + 1 <= hi <= |s| && s[l] == v
    && (forall k :: l <= k < pa ==> cmp(s[k], v) == 0)
    && (forall k :: pa <= k < pb ==> cmp(s[k], v) < 0)
    && (forall k :: pc < k <= pd ==> cmp(s[k], v) > 0)
    && (forall k :: pd < k < hi ==> cmp(s[k], v) == 0)
  }

  lemma RegionsBounds<T>(s: seq<T>, l: int, hi: int, pa: int, pb: int, pc: int, pd: int, v: T, cmp: (T, T) -> int)
    requires Regions(s, l, hi, pa, pb, pc, pd, v, cmp)
    ensures 0 <= l < pa <= pb <= pc + 1 <= pd + 1 <= hi <= |s| && s[l] == v
  {
  }

  lemma TakeSmaller<T>(s: seq<T>, l: int, hi: int, pa: int, pb: int, pc: int, pd: int, v: T, cmp: (T, T) -> int)
    requires Regions(s, l, hi, pa, pb, pc, pd, v, cmp) && pb <= pc && cmp(s[pb], v) < 0
    ensures Regions(s, l, hi, pa, pb + 1, pc, pd, v, cmp)
  {
  }

  lemma TakeEqualLow<T>(s: seq<T>, t: seq<T>, l: int, hi: int, pa: int, pb: int, pc: int, pd: int, v: T,
                        cmp: (T, T) -> int)
    requires Regions(s, l, hi, pa, pb, pc, pd, v, cmp) && pb <= pc && cmp(s[pb], v) == 0
    requires t == s[pa := s[pb]][pb := s[pa]]
    ensures Regions(t, l, hi, pa + 1, pb + 1, pc, pd, v, cmp)
  {
  }

  lemma TakeGreater<T>(s: seq<T>, l: int, hi: int, pa: int, pb: int, pc: int, pd: int, v: T, cmp: (T, T) -> int)
    requires Regions(s, l, hi, pa, pb, pc, pd, v, cmp) && pb <= pc && cmp(s[pc], v) > 0
    ensures Regions(s, l, hi, pa, pb, pc - 1, pd, v, cmp)
  {
  }

  lemma TakeEqualHigh<T>(s: seq<T>, t: seq<T>, l: int, hi: int, pa: int, pb: int, pc: int, pd: int, v: T,
                         cmp: (T, T) -> int)
    requires Regions(s, l, hi, pa, pb, pc, pd, v, cmp) && pb <= pc && cmp(s[pc], v) == 0
    requires t == s[pc := s[pd]][pd := s[pc]]
    ensures Regions(t, l, hi, pa, pb, pc - 1, pd - 1, v, cmp)
  {
  }

  lemma TakeBoth<T>(s: seq<T>, t: seq<T>, l: int, hi: int, pa: int, pb: int, pc: int, pd: int, v: T,
                    cmp: (T, T) -> int)
    requires Regions(s, l, hi, pa, pb, pc, pd, v, cmp) && pb < pc && cmp(s[pb], v) > 0 && cmp(s[pc], v) < 0
    requires t == s[pb := s[pc]][pc := s[pb]]
    ensures Regions(t, l, hi, pa, pb + 1, pc - 1, pd, v, cmp)
  {
  }

  /** The first inner loop. */
  method ScanUp(a: Elements, l: nat, hi: nat, pa0: nat, pb0: nat, pc: int, ghost pd: int, count: nat,
                         ghost v: Elem, cmp: (Elem, Elem) -> int)
    returns (pa: nat, pb: nat, swapCount: nat)
    requires a.Valid() && hi <= a.n && Regions(a.S(), l, hi, pa0, pb0, pc, pd, v, cmp)
    modifies a.m
    ensures a.Rest() == old(a.Rest())
    ensures Regions(a.S(), l, hi, pa, pb, pc, pd, v, cmp) && Shuffled(old(a.S()), a.S(), l, hi) && pb0 <= pb
    ensures pb <= pc ==> cmp(a.At(pb), v) > 0
  {
    RegionsBounds(a.S(), l, hi, pa0, pb0, pc, pd, v, cmp);
    ShuffledSame(a.S(), l, hi);
    hide Elements.S, Elements.At, Elements.Rest, Off, Regions, Shuffled;
    ghost var orig := a.S();
    pa, pb, swapCount := pa0, pb0, count;
    while pb <= pc && cmp(a.At(pb), a.At(l)) <= 0
      invariant a.Rest() == old(a.Rest())
      invariant Regions(a.S(), l, hi, pa, pb, pc, pd, v, cmp) && Shuffled(orig, a.S(), l, hi) && pb0 <= pb
      invariant l < pa <= pb <= pc + 1 <= pd + 1 <= hi && a.At(l) == v
    {
      ghost var s := a.S();
      if cmp(a.At(pb), a.At(l)) == 0 {
        swapCount := 1;
        a.Swap(pa, pb, l, hi);
        TakeEqualLow(s, a.S(), l, hi, pa, pb, pc, pd, v, cmp);
        ShuffledTwice(orig, s, a.S(), l, hi);
        pa := pa + 1;
      } else {
        TakeSmaller(a.S(), l, hi, pa, pb, pc, pd, v, cmp);
      }
      pb := pb + 1;
      RegionsBounds(a.S(), l, hi, pa, pb, pc, pd, v, cmp);
    }
  }

  /** The second inner loop. */
  method ScanDown(a: Elements, l: nat, hi: nat, ghost pa: int, pb: nat, pc0: int, pd0: int, count: nat,
                           ghost v: Elem, cmp: (Elem, Elem) -> int)
    returns (pc: int, pd: int, swapCount: nat)
    requires a.Valid() && hi <= a.n && Regions(a.S(), l, hi, pa, pb, pc0, pd0, v, cmp)
    modifies a.m
    ensures a.Rest() == old(a.Rest())
    ensures Regions(a.S(), l, hi, pa, pb, pc, pd, v, cmp) && Shuffled(old(a.S()), a.S(), l, hi) && pc <= pc0
    ensures pb <= pc ==> cmp(a.At(pc), v) < 0 && a.At(pb) == old(a.At(pb))
  {
    RegionsBounds(a.S(), l, hi, pa, pb, pc0, pd0, v, cmp);
    ShuffledSame(a.S(), l, hi);
    hide Elements.S, Elements.At, Elements.Rest, Off, Regions, Shuffled;
    ghost var orig := a.S();
    pc, pd, swapCount := pc0, pd0, count;
    while pb <= pc && cmp(a.At(pc), a.At(l)) >= 0
      invariant a.Rest() == old(a.Rest())
      invariant Regions(a.S(), l, hi, pa, pb, pc, pd, v, cmp) && Shuffled(orig, a.S(), l, hi) && pc <= pc0
      invariant l < pa <= pb <= pc + 1 <= pd + 1 <= hi && a.At(l) == v && (pb <= pc ==> a.At(pb) == old(a.At(pb)))
      decreases pc - pb
    {
      ghost var s := a.S();
      if cmp(a.At(pc), a.At(l)) == 0 {
        swapCount := 1;
        a.Swap(pc, pd, l, hi);
        TakeEqualHigh(s, a.S(), l, hi, pa, pb, pc, pd, v, cmp);
        ShuffledTwice(orig, s, a.S(), l, hi);
        pd := pd - 1;
      } else {
        TakeGreater(a.S(), l, hi, pa, pb, pc, pd, v, cmp);
      }
      pc := pc - 1;
      RegionsBounds(a.S(), l, hi, pa, pb, pc, pd, v, cmp);
    }
  }

  lemma StartRegions<T(!new)>(s: seq<T>, l: int, hi: int, v: T, cmp: (T, T) -> int)
    requires 0 <= l < hi <= |s| && TotalPreorder(cmp) && s[l] == v
    ensures Regions(s, l, hi, l + 1, l + 1, hi - 1, hi - 1, v, cmp)
  {
    Flip(cmp, v, v);
  }

  /** One round of the partition loop, up to the exchange. */
  method Round(a: Elements, l: nat, hi: nat, pa0: nat, pb0: nat, pc0: int, pd0: int, count: nat,
               ghost v: Elem, cmp: (Elem, Elem) -> int)
    returns (met: bool, pa: nat, pb: nat, pc: int, pd: int, swapCount: nat)
    requires a.Valid() && hi <= a.n && Regions(a.S(), l, hi, pa0, pb0, pc0, pd0, v, cmp)
    modifies a.m
    ensures a.Rest() == old(a.Rest())
    ensures Regions(a.S(), l, hi, pa, pb, pc, pd, v, cmp) && Shuffled(old(a.S()), a.S(), l, hi)
    ensures met ==> pc == pb - 1
    ensures !met ==> pc - pb < pc0 - pb0
  {
    RegionsBounds(a.S(), l, hi, pa0, pb0, pc0, pd0, v, cmp);
    hide Elements.S, Elements.At, Elements.Rest, Off;
    hide Regions, Shuffled;
    ghost var orig := a.S();
    pa, pb, swapCount := ScanUp(a, l, hi, pa0, pb0, pc0, pd0, count, v, cmp);
    ghost var s := a.S();
    pc, pd, swapCount := ScanDown(a, l, hi, pa, pb, pc0, pd0, swapCount, v, cmp);
    ShuffledTwice(orig, s, a.S(), l, hi);
    RegionsBounds(a.S(), l, hi, pa, pb, pc, pd, v, cmp);
    met := pb > pc;
    if met { return; }
    s := a.S();
    a.Swap(pb, pc, l, hi);
    ShuffledTwice(orig, s, a.S(), l, hi);
    TakeBoth(s, a.S(), l, hi, pa, pb, pc, pd, v, cmp);
    swapCount := 1;
    pb := pb + 1;
    pc := pc - 1;
  }

  /** The partition of l to hi around the element at l. */
  method Partition(a: Elements, l: nat, hi: nat, ghost v: Elem, cmp: (Elem, Elem) -> int)
    returns (pa: nat, pb: nat, pc: int, pd: int, swapCount: nat)
    requires a.Valid() && l < hi <= a.n && TotalPreorder(cmp) && a.At(l) == v
    modifies a.m
    ensures a.Rest() == old(a.Rest())
    ensures pc == pb - 1 && Regions(a.S(), l, hi, pa, pb, pc, pd, v, cmp) && Shuffled(old(a.S()), a.S(), l, hi)
  {
    hide Elements.S, Elements.At, Elements.Rest, Off;
    hide Regions, Shuffled, TotalPreorder;
    ShuffledSame(a.S(), l, hi);
    StartRegions(a.S(), l, hi, v, cmp);
    ghost var orig := a.S();
    pa, pb, pc, pd, swapCount := l + 1, l + 1, hi - 1, hi - 1, 0;
    while true
      invariant a.Rest() == old(a.Rest())
      invariant Regions(a.S(), l, hi, pa, pb, pc, pd, v, cmp) && Shuffled(orig, a.S(), l, hi)
      decreases pc - pb + 1
    {
      RegionsBounds(a.S(), l, hi, pa, pb, pc, pd, v, cmp);
      ghost var s := a.S();
      var met;
      met, pa, pb, pc, pd, swapCount := Round(a, l, hi, pa, pb, pc, pd, swapCount, v, cmp);
      ShuffledTwice(orig, s, a.S(), l, hi);
      if met { break; }
    }
  }

  /** The first vecswap brings the equal elements on the left next to the middle. */
  lemma GatherLow<T>(s: seq<T>, t: seq<T>, l: int, hi: int, pa: int, pb: int, pc: int, pd: int, r: int, v: T,
                     cmp: (T, T) -> int)
    requires Regions(s, l, hi, pa, pb, pc, pd, v, cmp) && r == Min(pa - l, pb - pa) && Exchanged(s, t, l, pb - r, r)
    ensures forall k :: l <= k < l + (pb - pa) ==> cmp(t[k], v) < 0
    ensures forall k :: l + (pb - pa) <= k < pb ==> cmp(t[k], v) == 0
    ensures forall k :: pc < k <= pd ==> cmp(t[k], v) > 0
    ensures forall k :: pd < k < hi ==> cmp(t[k], v) == 0
  {
  }

  /** The second one does it on the right. */
  lemma GatherHigh<T>(s: seq<T>, t: seq<T>, l: int, hi: int, left: int, pb: int, pd: int, r: int, v: T,
                      cmp: (T, T) -> int)
    requires 0 <= l && 0 <= left && l + left <= pb <= pd + 1 <= hi <= |s|
    requires r == Min(pd - (pb - 1), hi - pd - 1) && Exchanged(s, t, pb, hi - r, r)
    requires forall k :: l <= k < l + left ==> cmp(s[k], v) < 0
    requires forall k :: l + left <= k < pb ==> cmp(s[k], v) == 0
    requires forall k :: pb <= k <= pd ==> cmp(s[k], v) > 0
    requires forall k :: pd < k < hi ==> cmp(s[k], v) == 0
    ensures Split3(t, l, hi, left, pd - (pb - 1), v, cmp)
  {
  }

  /** The two vecswaps: all equal elements meet in the middle. */
  method Gather(a: Elements, l: nat, m: nat, pa: nat, pb: nat, pc: int, pd: int, ghost v: Elem, cmp: (Elem,
                Elem) -> int)
    requires a.Valid() && l + m <= a.n && pc == pb - 1 && Regions(a.S(), l, l + m, pa, pb, pc, pd, v, cmp)
    requires m * a.es <= INT_MAX
    modifies a.m
    ensures a.Rest() == old(a.Rest())
    ensures Split3(a.S(), l, l + m, pb - pa, pd - pc, v, cmp) && Shuffled(old(a.S()), a.S(), l, l + m)
  {
    hide Elements.S, Elements.At, Elements.Rest, Off, Shuffled, Exchanged, Split3, TotalPreorder, ToInt;
    var hi := l + m;
    ghost var s := a.S();
    RegionsBounds(s, l, hi, pa, pb, pc, pd, v, cmp);
    ElementCount(Min(pa - l, pb - pa), m, a.es);
    var r := ToInt(Min(pa - l, pb - pa) * a.es);
    a.VecSwap(l, pb - r / a.es, r / a.es, l, hi);
    GatherLow(s, a.S(), l, hi, pa, pb, pc, pd, r / a.es, v, cmp);
    ghost var t := a.S();
    ElementCount(Min(pd - pc, hi - pd - 1), m, a.es);
    r := ToInt(Min(pd - pc, hi - pd - 1) * a.es);
    a.VecSwap(pb, hi - r / a.es, r / a.es, l, hi);
    GatherHigh(t, a.S(), l, hi, pb - pa, pb, pd, r / a.es, v, cmp);
    ShuffledTwice(s, t, a.S(), l, hi);
  }

  /** An eighth of the elements fits twice before and after each of the three places. */
  lemma Eighth(m: nat, d: nat)
    requires m > 40 && d == m / 8
    ensures 0 < d && 2 * d < m && d <= m / 2 && m / 2 + d < m && 2 * d <= m - 1
  {
  }

  /** Where the pivot is taken from: the middle, a median of three, or a median of
      medians. */
  method ChoosePivot(a: Elements, l: nat, m: nat, cmp: (Elem, Elem) -> int) returns (pm: nat)
    requires a.Valid() && l + m <= a.n && TotalPreorder(cmp) && m * a.es <= INT_MAX && m >= 7
    ensures l <= pm < l + m
  {
    hide Elements.S, Elements.At, Elements.Rest, Off;
    hide TotalPreorder, Between, ToInt;
    pm := l + m / 2;
    if m > 7 {
      var pl, pn := l, l + m - 1;
      if m > 40 {
        ElementCount(m / 8, m, a.es);
        var d := ToInt(m / 8 * a.es) / a.es;
        Eighth(m, d);
        pl := Med3(a, pl, pl + d, pl + 2 * d, cmp);
        pm := Med3(a, pm - d, pm, pm + d, cmp);
        pn := Med3(a, pn - 2 * d, pn - d, pn, cmp);
      }
      pm := Med3(a, pl, pm, pn, cmp);
    }
  }

  /** The pivot goes to the front. */
  method TakePivot(a: Elements, l: nat, m: nat, cmp: (Elem, Elem) -> int)
    requires a.Valid() && l + m <= a.n && TotalPreorder(cmp) && m * a.es <= INT_MAX && m >= 7
    modifies a.m
    ensures a.Rest() == old(a.Rest()) && Shuffled(old(a.S()), a.S(), l, l + m)
  {
    hide Elements.S, Elements.At, Elements.Rest, Off, Shuffled, TotalPreorder;
    var pm := ChoosePivot(a, l, m, cmp);
    a.Swap(l, pm, l, l + m);
  }

  /** One pass of the outer loop on the m >= 7 elements from l, up to the recursive
      call: either everything is sorted, or the elements fall into three parts. */
  method Divide(a: Elements, l: nat, m: nat, cmp: (Elem, Elem) -> int)
    returns (done: bool, left: nat, right: nat, ghost v: Elem)
    requires a.Valid() && l + m <= a.n && TotalPreorder(cmp) && m * a.es <= INT_MAX && m >= 7
    modifies a.m
    ensures a.Rest() == old(a.Rest())
    ensures Shuffled(old(a.S()), a.S(), l, l + m)
    ensures done ==> Sorted(a.S(), l, l + m, cmp)
    ensures !done ==> left + right < m && Split3(a.S(), l, l + m, left, right, v, cmp)
  {
    hide Elements.S, Elements.At, Elements.Rest, Off, Shuffled, Split3, TotalPreorder, Regions, Sorted;
    var hi := l + m;
    left, right := 0, 0;
    ghost var orig := a.S();
    TakePivot(a, l, m, cmp);
    v := a.At(l);
    ghost var s := a.S();
    var pa, pb, pc, pd, swapCount := Partition(a, l, hi, v, cmp);
    ShuffledTwice(orig, s, a.S(), l, hi);
    s := a.S();
    done := swapCount == 0;
    if done {
      InsertionSort(a, l, hi, cmp);
    } else {
      RegionsBounds(a.S(), l, hi, pa, pb, pc, pd, v, cmp);
      Gather(a, l, m, pa, pb, pc, pd, v, cmp);
      left, right := pb - pa, pd - pc;
    }
    ShuffledTwice(orig, s, a.S(), l, hi);
  }

  lemma StartDone<T>(s: seq<T>, lo: int, hi: int, cmp: (T, T) -> int)
    requires 0 <= lo <= hi <= |s|
    ensures DoneBefore(s, lo, lo, hi, cmp) && Shuffled(s, s, lo, hi)
  {
  }

  /** A part of one element or none is sorted as it is. */
  lemma SortedAlready<T>(s: seq<T>, l: int, left: int, cmp: (T, T) -> int)
    requires 0 <= l && 0 <= left <= 1 && l + left <= |s|
    ensures Sorted(s, l, l + left, cmp) && Shuffled(s, s, l, l + left)
  {
  }

  lemma Finish<T(!new)>(orig: seq<T>, s: seq<T>, t: seq<T>, lo: int, l: int, hi: int, cmp: (T, T) -> int)
    requires 0 <= lo <= l <= hi <= |s| && DoneBefore(s, lo, l, hi, cmp) && Shuffled(orig, s, lo, hi)
    requires Shuffled(s, t, l, hi) && Sorted(t, l, hi, cmp)
    ensures Sorted(t, lo, hi, cmp) && Shuffled(orig, t, lo, hi)
  {
    DoneShuffled(s, t, lo, l, hi, cmp);
    DividedSorted(t, lo, l, hi, cmp);
    ShuffledWider(s, t, l, hi, lo, hi);
    ShuffledTwice(orig, s, t, lo, hi);
  }

  /** After a pass and the recursive call, only the greater elements are left. */
  lemma Advance<T(!new)>(orig: seq<T>, s: seq<T>, t: seq<T>, u: seq<T>, lo: int, l: int, hi: int, left: int, right: int,
                         v: T, cmp: (T, T) -> int)
    requires TotalPreorder(cmp) && 0 <= lo <= l && 0 <= left && 0 <= right && l + left + right <= hi <= |s|
    requires DoneBefore(s, lo, l, hi, cmp) && Shuffled(orig, s, lo, hi) && Shuffled(s, t, l, hi)
    requires Split3(t, l, hi, left, right, v, cmp) && Shuffled(t, u, l, l + left) && Sorted(u, l, l + left, cmp)
    ensures DoneBefore(u, lo, hi - right, hi, cmp) && Shuffled(orig, u, lo, hi)
    ensures right <= 1 ==> Sorted(u, lo, hi, cmp)
  {
    Split3Shuffled(t, u, l, hi, left, right, v, cmp);
    Split3Divides(u, l, hi, left, right, v, cmp);
    ShuffledWider(t, u, l, l + left, l, hi);
    ShuffledTwice(s, t, u, l, hi);
    DoneShuffled(s, u, lo, l, hi, cmp);
    DoneFurther(u, lo, l, hi - right, hi, cmp);
    ShuffledWider(s, u, l, hi, lo, hi);
    ShuffledTwice(orig, s, u, lo, hi);
    if right <= 1 { DividedSorted(u, lo, hi - right, hi, cmp); }
  }

  /** qsort sorts the n elements from lo and touches no other. */
  method Sort(a: Elements, lo: nat, n: nat, cmp: (Elem, Elem) -> int)
    requires a.Valid() && lo + n <= a.n && TotalPreorder(cmp) && n * a.es <= INT_MAX
    modifies a.m
    ensures a.Rest() == old(a.Rest())
    ensures Sorted(a.S(), lo, lo + n, cmp) && Shuffled(old(a.S()), a.S(), lo, lo + n)
    decreases n
  {
    hide Elements.S, Elements.At, Elements.Rest, Off;
    hide Shuffled, Split3, TotalPreorder, DoneBefore, Sorted, ToInt;
    var l, m, hi := lo, n, lo + n;
    StartDone(a.S(), lo, hi, cmp);
    while true
      invariant a.Rest() == old(a.Rest())
      invariant lo <= l <= hi && l + m == hi && m * a.es <= INT_MAX
      invariant DoneBefore(a.S(), lo, l, hi, cmp) && Shuffled(old(a.S()), a.S(), lo, hi)
      decreases m
    {
      ghost var s := a.S();
      if m < 7 {
        InsertionSort(a, l, hi, cmp);
        Finish(old(a.S()), s, a.S(), lo, l, hi, cmp);
        return;
      }
      var done, left, right, v := Divide(a, l, m, cmp);
      if done {
        Finish(old(a.S()), s, a.S(), lo, l, hi, cmp);
        return;
      }
      ghost var t := a.S();
      ElementCount(left, m, a.es);
      var r := ToInt(left * a.es);
      if left <= 1 { SortedAlready(t, l, left, cmp); }
      if r > a.es { Sort(a, l, r / a.es, cmp); }
      Advance(old(a.S()), s, t, a.S(), lo, l, hi, left, right, v, cmp);
      ElementCount(right, m, a.es);
      r := ToInt(right * a.es);
      if !(r > a.es) { return; }
      l, m := hi - r / a.es, r / a.es;
    }
  }

  /** qsort on memory: the n elements of es bytes from base are rearranged into order, and
      no byte before or after them changes. */
  method SortMemory(m: array<Byte>, base: nat, n: nat, es: nat, cmp: (Elem, Elem) -> int)
    requires 0 < es && base + Off(n, es) <= m.Length && TotalPreorder(cmp) && Off(n, es) <= INT_MAX
    modifies m
    ensures Sorted(ElementsOf(m[..], base, es, n), 0, n, cmp)
    ensures multiset(ElementsOf(m[..], base, es, n)) == multiset(old(ElementsOf(m[..], base, es, n)))
    ensures m[..base] == old(m[..base]) && m[base + Off(n, es)..] == old(m[base + Off(n, es)..])
  {
    hide TotalPreorder, Sorted, ElementsOf;
    var a := new Elements(m, base, n, es);
    ghost var s, rest := a.S(), a.Rest();
    Sort(a, 0, n, cmp);
    assert s == s[0..n] && a.S() == a.S()[0..n];
  }
}
