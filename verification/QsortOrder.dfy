/** What qsort asks of a comparison function, and what it promises: a sorted
    rearrangement. */
module QsortOrder {
  /** The sign convention of C comparison functions, for a total preorder. */
  ghost predicate TotalPreorder<T(!new)>(cmp: (T, T) -> int) {
    && (forall x, y :: cmp(x, y) < 0 <==> cmp(y, x) > 0)
    && (forall x, y, z :: cmp(x, y) <= 0 && cmp(y, z) <= 0 ==> cmp(x, z) <= 0)
  }

  lemma Flip<T(!new)>(cmp: (T, T) -> int, x: T, y: T)
    requires TotalPreorder(cmp)
    ensures cmp(x, y) < 0 <==> cmp(y, x) > 0
    ensures cmp(x, y) == 0 <==> cmp(y, x) == 0
    ensures cmp(x, y) > 0 <==> cmp(y, x) < 0
  {
  }

  lemma Chain<T(!new)>(cmp: (T, T) -> int, x: T, y: T, z: T)
    requires TotalPreorder(cmp) && cmp(x, y) <= 0 && cmp(y, z) <= 0
    ensures cmp(x, z) <= 0
  {
  }

  ghost predicate Sorted<T>(s: seq<T>, lo: int, hi: int, cmp: (T, T) -> int)
    requires 0 <= lo && hi <= |s|
  {
    forall i, j :: lo <= i < j < hi ==> cmp(s[i], s[j]) <= 0
  }

  /** t is s with the elements from lo to hi rearranged. */
  ghost predicate Shuffled<T>(s: seq<T>, t: seq<T>, lo: int, hi: int) {
    && |s| == |t| && 0 <= lo <= hi <= |s|
    && s[..lo] == t[..lo] && s[hi..] == t[hi..]
    && multiset(s[lo..hi]) == multiset(t[lo..hi])
  }

  lemma ShuffledSame<T>(s: seq<T>, lo: int, hi: int)
    requires 0 <= lo <= hi <= |s|
    ensures Shuffled(s, s, lo, hi)
  {
  }

  lemma ShuffledTwice<T>(s: seq<T>, t: seq<T>, u: seq<T>, lo: int, hi: int)
    requires Shuffled(s, t, lo, hi) && Shuffled(t, u, lo, hi)
    ensures Shuffled(s, u, lo, hi)
  {
  }

  /** Rearranging a part rearranges the whole. */
  lemma ShuffledWider<T>(s: seq<T>, t: seq<T>, lo: int, hi: int, lo': int, hi': int)
    requires Shuffled(s, t, lo, hi) && 0 <= lo' <= lo && hi <= hi' <= |s|
    ensures Shuffled(s, t, lo', hi')
  {
    assert s[..lo'] == s[..lo][..lo'] && t[..lo'] == t[..lo][..lo'];
    assert s[hi'..] == s[hi..][hi' - hi..] && t[hi'..] == t[hi..][hi' - hi..];
    assert s[lo'..hi'] == s[..lo][lo'..] + s[lo..hi] + s[hi..][..hi' - hi];
    assert t[lo'..hi'] == t[..lo][lo'..] + t[lo..hi] + t[hi..][..hi' - hi];
  }

  /** What holds of every element of the range still does afterwards. */
  lemma ShuffledAll<T(!new)>(s: seq<T>, t: seq<T>, lo: int, hi: int, p: T -> bool)
    requires Shuffled(s, t, lo, hi) && forall k :: lo <= k < hi ==> p(s[k])
    ensures forall k :: lo <= k < hi ==> p(t[k])
  {
    forall k | lo <= k < hi ensures p(t[k]) {
      assert t[k] == t[lo..hi][k - lo];
      assert t[k] in multiset(s[lo..hi]);
      assert t[k] in s[lo..hi];
    }
  }

  /** The elements outside the range stay where they are. */
  lemma ShuffledOutside<T>(s: seq<T>, t: seq<T>, lo: int, hi: int, k: int)
    requires Shuffled(s, t, lo, hi) && 0 <= k < |s| && !(lo <= k < hi)
    ensures s[k] == t[k]
  {
    if k < lo {
      assert s[k] == s[..lo][k] && t[k] == t[..lo][k];
    } else {
      assert s[k] == s[hi..][k - hi] && t[k] == t[hi..][k - hi];
    }
  }

  lemma SwapShuffles<T>(s: seq<T>, t: seq<T>, lo: int, hi: int, i: int, j: int)
    requires 0 <= lo <= hi <= |s| && lo <= i < hi && lo <= j < hi && t == s[i := s[j]][j := s[i]]
    ensures Shuffled(s, t, lo, hi)
  {
    var r := s[lo..hi];
    assert t[lo..hi] == r[i - lo := r[j - lo]][j - lo := r[i - lo]];
  }

  // -------------------------------------------------------------- three parts

  /** From l to hi: smaller than v, then equal to v, then greater than v. */
  ghost predicate Split3<T>(s: seq<T>, l: int, hi: int, left: int, right: int, v: T, cmp: (T, T) -> int)
    requires 0 <= l && 0 <= left && 0 <= right && l + left + right <= hi <= |s|
  {
    && (forall k :: l <= k < l + left ==> cmp(s[k], v) < 0)
    && (forall k :: l + left <= k < hi - right ==> cmp(s[k], v) == 0)
    && (forall k :: hi - right <= k < hi ==> cmp(s[k], v) > 0)
  }

  /** Elements on either side of a place compare the right way round. */
  ghost predicate Divided<T>(s: seq<T>, lo: int, l: int, hi: int, cmp: (T, T) -> int)
    requires 0 <= lo && hi <= |s|
  {
    forall i, j :: lo <= i < l <= j < hi ==> cmp(s[i], s[j]) <= 0
  }

  /** Rearranging one side keeps the division. */
  lemma DividedShuffled<T(!new)>(s: seq<T>, t: seq<T>, lo: int, l: int, hi: int, cmp: (T, T) -> int)
    requires 0 <= lo <= l && Shuffled(s, t, l, hi) && Divided(s, lo, l, hi, cmp)
    ensures Divided(t, lo, l, hi, cmp)
  {
    forall i, j | lo <= i < l <= j < hi ensures cmp(t[i], t[j]) <= 0 {
      ShuffledOutside(s, t, l, hi, i);
      ShuffledAll(s, t, l, hi, x => cmp(s[i], x) <= 0);
    }
  }

  lemma DividedSorted<T>(s: seq<T>, lo: int, l: int, hi: int, cmp: (T, T) -> int)
    requires 0 <= lo <= l <= hi <= |s| && Sorted(s, lo, l, cmp) && Divided(s, lo, l, hi, cmp) && Sorted(s, l, hi, cmp)
    ensures Sorted(s, lo, hi, cmp)
  {
  }

  /** Once the smaller elements are sorted, only the greater ones are left to do. */
  lemma Split3Divides<T(!new)>(s: seq<T>, l: int, hi: int, left: int, right: int, v: T, cmp: (T, T) -> int)
    requires TotalPreorder(cmp)
    requires 0 <= l && 0 <= left && 0 <= right && l + left + right <= hi <= |s|
    requires Split3(s, l, hi, left, right, v, cmp) && Sorted(s, l, l + left, cmp)
    ensures Sorted(s, l, hi - right, cmp) && Divided(s, l, hi - right, hi, cmp)
  {
    hide TotalPreorder;
    forall i, j | l <= i < j < hi && i < hi - right && l + left <= j ensures cmp(s[i], s[j]) <= 0 {
      Flip(cmp, s[j], v);
      Chain(cmp, s[i], v, s[j]);
    }
  }

  /** Sorting the smaller elements keeps the three parts. */
  lemma Split3Shuffled<T(!new)>(s: seq<T>, t: seq<T>, l: int, hi: int, left: int, right: int, v: T,
                                cmp: (T, T) -> int)
    requires 0 <= l && 0 <= left && 0 <= right && l + left + right <= hi <= |s|
    requires Split3(s, l, hi, left, right, v, cmp) && Shuffled(s, t, l, l + left)
    ensures Split3(t, l, hi, left, right, v, cmp)
  {
    ShuffledAll(s, t, l, l + left, x => cmp(x, v) < 0);
    forall k | l + left <= k < hi ensures t[k] == s[k] {
      ShuffledOutside(s, t, l, l + left, k);
    }
  }

  /** Progress of the outer loop: what lies before l is finished. */
  ghost predicate DoneBefore<T>(s: seq<T>, lo: int, l: int, hi: int, cmp: (T, T) -> int)
    requires 0 <= lo && l <= hi <= |s|
  {
    Sorted(s, lo, l, cmp) && Divided(s, lo, l, hi, cmp)
  }

  /** Moving l up past sorted elements. */
  lemma DoneFurther<T(!new)>(s: seq<T>, lo: int, l: int, m: int, hi: int, cmp: (T, T) -> int)
    requires 0 <= lo <= l <= m <= hi <= |s| && DoneBefore(s, lo, l, hi, cmp) && DoneBefore(s, l, m, hi, cmp)
    ensures DoneBefore(s, lo, m, hi, cmp)
  {
  }

  lemma DoneShuffled<T(!new)>(s: seq<T>, t: seq<T>, lo: int, l: int, hi: int, cmp: (T, T) -> int)
    requires 0 <= lo <= l && Shuffled(s, t, l, hi) && DoneBefore(s, lo, l, hi, cmp)
    ensures DoneBefore(t, lo, l, hi, cmp)
  {
    DividedShuffled(s, t, lo, l, hi, cmp);
    forall k | lo <= k < l ensures s[k] == t[k] {
      ShuffledOutside(s, t, l, hi, k);
    }
  }
}
