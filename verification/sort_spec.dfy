/**
 * What the sorting practicals promise of their result, stated once for all
 * six sorts: ascending order, the same multiset of values, and the inversion
 * count that the quadratic sorts' counters measure.
 */
module SortSpec {

  /** `s` is in ascending (non-decreasing) order. */
  predicate Sorted(s: seq<int>) {
    forall j, k :: 0 <= j < k < |s| ==> s[j] <= s[k]
  }

  /** The first `i` entries of `s` are in ascending order. */
  predicate SortedBelow(s: seq<int>, i: int) {
    forall j, k :: 0 <= j < k < i && k < |s| ==> s[j] <= s[k]
  }

  /** The entries of `s` from index `i` on are in ascending order. */
  predicate SortedFrom(s: seq<int>, i: int) {
    forall j, k :: i <= j < k < |s| && 0 <= j ==> s[j] <= s[k]
  }

  /** No entry before index `i` exceeds an entry from index `i` on. */
  predicate SplitAt(s: seq<int>, i: int) {
    forall j, k :: 0 <= j < i <= k < |s| ==> s[j] <= s[k]
  }

  /** The entries of `s` in `[lo, hi)` are in ascending order. */
  predicate SortedRange(s: seq<int>, lo: int, hi: int) {
    forall j, k :: lo <= j < k < hi && 0 <= j && k < |s| ==> s[j] <= s[k]
  }

  /** `r` agrees with `a` everywhere outside `[lo, hi)`. */
  predicate SameOutside(a: seq<int>, r: seq<int>, lo: int, hi: int) {
    |r| == |a| && forall k :: 0 <= k < |a| && !(lo <= k < hi) ==> r[k] == a[k]
  }

  /** A permutation that leaves everything outside `[lo, hi)` alone permutes `[lo, hi)`. */
  lemma RangePermutation(a: seq<int>, r: seq<int>, lo: nat, hi: nat)
    requires lo <= hi <= |a| && SameOutside(a, r, lo, hi) && multiset(r) == multiset(a)
    ensures multiset(r[lo..hi]) == multiset(a[lo..hi])
  {
    SplitThree(a, lo, hi);
    SplitThree(r, lo, hi);
    assert r[..lo] == a[..lo] && r[hi..] == a[hi..];
    Cancel(multiset(r[lo..hi]), multiset(a[lo..hi]), multiset(a[..lo]) + multiset(a[hi..]));
  }

  lemma SplitThree(s: seq<int>, lo: nat, hi: nat)
    requires lo <= hi <= |s|
    ensures multiset(s) == multiset(s[lo..hi]) + (multiset(s[..lo]) + multiset(s[hi..]))
  {
    assert s == s[..lo] + s[lo..hi] + s[hi..];
  }

  lemma Cancel(x: multiset<int>, y: multiset<int>, z: multiset<int>)
    requires x + z == y + z
    ensures x == y
  {
    assert forall e :: x[e] == (x + z)[e] - z[e];
  }

  /** Extending a range by one entry adds that entry to the count. */
  lemma CountAtMostStep(a: seq<int>, lo: nat, j: nat, x: int)
    requires lo <= j < |a|
    ensures CountAtMost(a[lo..j + 1], x) == CountAtMost(a[lo..j], x) + (if a[j] <= x then 1 else 0)
  {
    assert a[lo..j + 1][..j - lo] == a[lo..j];
  }

  /** Every entry of `s` is at most `x`. */
  predicate AllAtMost(s: seq<int>, x: int) {
    forall k :: 0 <= k < |s| ==> s[k] <= x
  }

  /** Every entry of `s` is above `x`. */
  predicate AllAbove(s: seq<int>, x: int) {
    forall k :: 0 <= k < |s| ==> s[k] > x
  }

  /** Every entry of `a` is at most every entry of `b`. */
  predicate Separated(a: seq<int>, b: seq<int>) {
    forall j, k :: 0 <= j < |a| && 0 <= k < |b| ==> a[j] <= b[k]
  }

  /** The number of entries of `s` greater than `x`. */
  function CountAbove(s: seq<int>, x: int): (c: nat)
    ensures c <= |s|
  {
    if s == [] then 0
    else CountAbove(s[..|s| - 1], x) + (if s[|s| - 1] > x then 1 else 0)
  }

  /** The number of entries of `s` that are at most `x`. */
  function CountAtMost(s: seq<int>, x: int): nat {
    if s == [] then 0
    else CountAtMost(s[..|s| - 1], x) + (if s[|s| - 1] <= x then 1 else 0)
  }

  /** No entry is above `x` exactly when none is counted. */
  lemma {:induction false} CountAboveZero(s: seq<int>, x: int)
    ensures CountAbove(s, x) == 0 <==> AllAtMost(s, x)
  {
    if s != [] {
      CountAboveZero(s[..|s| - 1], x);
    }
  }

  /** Every entry is either at most `x` or above it. */
  lemma {:induction false} CountComplement(s: seq<int>, x: int)
    ensures CountAtMost(s, x) + CountAbove(s, x) == |s|
  {
    if s != [] {
      CountComplement(s[..|s| - 1], x);
    }
  }

  /**
   * The number of inversions of `s`: pairs `j < k` with `s[j] > s[k]`,
   * counted by the later index of the pair.
   */
  function Inversions(s: seq<int>): nat {
    if s == [] then 0
    else Inversions(s[..|s| - 1]) + CountAbove(s[..|s| - 1], s[|s| - 1])
  }

  /** Counting over a concatenation adds the counts of the parts. */
  lemma {:induction false} CountAboveAppend(a: seq<int>, b: seq<int>, x: int)
    ensures CountAbove(a + b, x) == CountAbove(a, x) + CountAbove(b, x)
    decreases |b|
  {
    if b != [] {
      assert (a + b)[..|a + b| - 1] == a + b[..|b| - 1];
      CountAboveAppend(a, b[..|b| - 1], x);
    } else {
      assert a + b == a;
    }
  }

  /** The count depends only on the multiset of entries. */
  lemma {:induction false} CountAboveMultiset(a: seq<int>, b: seq<int>, x: int)
    requires multiset(a) == multiset(b)
    ensures CountAbove(a, x) == CountAbove(b, x)
    decreases |a|
  {
    if a != [] {
      var y := a[|a| - 1];
      assert y in multiset(b);
      var k :| 0 <= k < |b| && b[k] == y;
      var a' := a[..|a| - 1];
      var b' := b[..k] + b[k + 1..];
      assert a == a' + [y];
      assert multiset(a') == multiset(a) - multiset{y};
      DropMultiset(b, k);
      CountAboveMultiset(a', b', x);
      DropCount(b, k, x);
    } else {
      assert b == [];
    }
  }

  /** Removing entry `k` removes one copy of it from the multiset. */
  lemma DropMultiset(b: seq<int>, k: nat)
    requires k < |b|
    ensures multiset(b[..k] + b[k + 1..]) == multiset(b) - multiset{b[k]}
  {
    assert b == b[..k] + [b[k]] + b[k + 1..];
  }

  /** Removing entry `k` lowers the count above `x` by one exactly when that entry is above `x`. */
  lemma DropCount(b: seq<int>, k: nat, x: int)
    requires k < |b|
    ensures CountAbove(b, x) == CountAbove(b[..k] + b[k + 1..], x) + (if b[k] > x then 1 else 0)
  {
    assert b == b[..k] + [b[k]] + b[k + 1..];
    CountAboveAppend(b[..k], b[k + 1..], x);
    CountAboveAppend(b[..k] + [b[k]], b[k + 1..], x);
    CountAboveAppend(b[..k], [b[k]], x);
    assert [b[k]][..0] == [];
  }

  /** A sorted sequence whose first `m` entries are at most `x` and the rest above it has `|s| - m` entries above `x`. */
  lemma CountAboveSplit(s: seq<int>, m: nat, x: int)
    requires m <= |s| && AllAtMost(s[..m], x) && AllAbove(s[m..], x)
    ensures CountAbove(s, x) == |s| - m
  {
    assert s == s[..m] + s[m..];
    CountAboveAppend(s[..m], s[m..], x);
    CountAboveZero(s[..m], x);
    AboveAll(s[m..], x);
  }

  lemma {:induction false} AboveAll(s: seq<int>, x: int)
    requires AllAbove(s, x)
    ensures CountAbove(s, x) == |s|
  {
    if s != [] {
      AboveAll(s[..|s| - 1], x);
    }
  }

  /** A sequence is sorted exactly when it has no inversions. */
  lemma {:induction false} SortedIffNoInversions(s: seq<int>)
    ensures Sorted(s) <==> Inversions(s) == 0
  {
    if s != [] {
      var t := s[..|s| - 1];
      SortedIffNoInversions(t);
      CountAboveZero(t, s[|s| - 1]);
      if Sorted(s) {
        assert Sorted(t);
        assert AllAtMost(t, s[|s| - 1]);
      }
      if Inversions(s) == 0 {
        assert s == t + [s[|s| - 1]];
      }
    }
  }

  /** Swapping an adjacent out-of-order pair removes exactly one inversion. */
  lemma {:induction false} SwapRemovesInversion(s: seq<int>, j: nat)
    requires j + 1 < |s| && s[j] > s[j + 1]
    ensures Inversions(Swap(s, j)) == Inversions(s) - 1
    decreases |s|
  {
    var m := |s| - 1;
    if j + 1 < m {
      var t := s[..m];
      assert Swap(s, j)[..m] == Swap(t, j);
      assert Swap(s, j)[m] == s[m];
      SwapRemovesInversion(t, j);
      SwapMultiset(t, j);
      CountAboveMultiset(Swap(t, j), t, s[m]);
    } else {
      SwapLastPair(s);
    }
  }

  /** `s` with entries `j` and `j + 1` exchanged. */
  function Swap(s: seq<int>, j: nat): (r: seq<int>)
    requires j + 1 < |s|
    ensures |r| == |s| && r[j] == s[j + 1] && r[j + 1] == s[j]
    ensures forall k :: 0 <= k < |s| && k != j && k != j + 1 ==> r[k] == s[k]
  {
    s[j := s[j + 1]][j + 1 := s[j]]
  }

  lemma SwapMultiset(s: seq<int>, j: nat)
    requires j + 1 < |s|
    ensures multiset(Swap(s, j)) == multiset(s)
  {
    assert s == s[..j] + [s[j], s[j + 1]] + s[j + 2..];
    assert Swap(s, j) == s[..j] + [s[j + 1], s[j]] + s[j + 2..];
  }

  /** Exchanging any two entries keeps the multiset. */
  lemma ExchangeMultiset(s: seq<int>, i: nat, m: nat)
    requires i <= m < |s|
    ensures multiset(s[i := s[m]][m := s[i]]) == multiset(s)
  {
    var t := s[i := s[m]];
    assert multiset(t) == multiset(s) - multiset{s[i]} + multiset{s[m]};
    if m != i {
      assert multiset(t[m := s[i]]) == multiset(t) - multiset{s[m]} + multiset{s[i]};
    } else {
      assert t[m := s[i]] == s;
    }
  }

  lemma SwapLastPair(s: seq<int>)
    requires |s| >= 2 && s[|s| - 2] > s[|s| - 1]
    ensures Inversions(Swap(s, |s| - 2)) == Inversions(s) - 1
  {
    var m := |s| - 1;
    var s' := Swap(s, m - 1);
    var u := s[..m - 1];
    var a, b := s[m - 1], s[m];
    assert s[..m] == u + [a] && s[..m][..m - 1] == u;
    assert s'[..m] == u + [b] && s'[..m][..m - 1] == u;
    CountAboveAppend(u, [a], b);
    CountAboveAppend(u, [b], a);
    assert [a][..0] == [] && [b][..0] == [];
  }

  /** Values bounded above stay bounded after a permutation. */
  lemma AtMostPreserved(a: seq<int>, b: seq<int>, x: int)
    requires multiset(a) == multiset(b) && AllAtMost(a, x)
    ensures AllAtMost(b, x)
  {
    forall k | 0 <= k < |b|
      ensures b[k] <= x
    {
      assert b[k] in multiset(a);
    }
  }

  /** Values bounded below stay bounded after a permutation. */
  lemma AbovePreserved(a: seq<int>, b: seq<int>, x: int)
    requires multiset(a) == multiset(b) && AllAbove(a, x)
    ensures AllAbove(b, x)
  {
    forall k | 0 <= k < |b|
      ensures b[k] > x
    {
      assert b[k] in multiset(a);
    }
  }

  /** The comparisons of the first `i` passes over `n` entries: `(n - 1) + (n - 2) + ... + (n - i)`. */
  function PassComparisons(n: nat, i: nat): int {
    if i == 0 then 0 else PassComparisons(n, i - 1) + (n - i)
  }

  /** Fewer passes compare fewer pairs. */
  lemma {:induction false} AllPasses(n: nat, i: nat)
    requires i <= n
    ensures PassComparisons(n, i) <= PassComparisons(n, n)
    decreases n - i
  {
    if i < n {
      AllPasses(n, i + 1);
    }
  }

  lemma {:induction false} PassSum(n: nat, i: nat)
    requires i <= n
    ensures 2 * PassComparisons(n, i) == i * (2 * n - i - 1)
  {
    if i > 0 {
      PassSum(n, i - 1);
    }
  }

  /** The number of pairs of `n` positions: position `n - 1` pairs with each of the `n - 1` before it. */
  function Choose2(n: nat): nat {
    if n == 0 then 0 else Choose2(n - 1) + (n - 1)
  }

  /** There are `n(n - 1)/2` pairs of `n` positions. */
  lemma {:induction false} Choose2Closed(n: nat)
    ensures 2 * Choose2(n) == n * (n - 1)
  {
    if n > 0 {
      Choose2Closed(n - 1);
    }
  }

  /** The passes of a full quadratic sort compare each pair once. */
  lemma Choose2Passes(n: nat)
    ensures PassComparisons(n, n) == Choose2(n)
  {
    PassSum(n, n);
    Choose2Closed(n);
    assert 2 * n - n - 1 == n - 1;
  }

  /** Adjacent entries in order up to index `m` make the first `m + 1` entries sorted. */
  lemma {:induction false} AdjacentSorted(s: seq<int>, m: nat)
    requires m < |s| && forall k :: 0 <= k < m ==> s[k] <= s[k + 1]
    ensures SortedBelow(s, m + 1)
  {
    if m > 0 {
      AdjacentSorted(s, m - 1);
      assert forall j :: 0 <= j < m - 1 ==> s[j] <= s[m - 1];
    }
  }

  /** Two sorted runs, the first entirely below the second, concatenate to a sorted run. */
  lemma SortedConcat(a: seq<int>, b: seq<int>)
    requires Sorted(a) && Sorted(b) && Separated(a, b)
    ensures Sorted(a + b)
  {
  }
}
