/**
 * `insertion_sort` (Practical-1): insert each entry into the sorted prefix
 * before it by shifting the larger entries one place right, counting
 * comparisons and shifts. The array is modelled as a sequence value.
 */
module InsertionSort {
  import opened SortSpec

  /** `s` with entry `i` moved to position `p <= i` and the entries `s[p..i]` moved one place right. */
  function Inserted(s: seq<int>, i: nat, p: nat): (r: seq<int>)
    requires p <= i < |s|
    ensures |r| == |s|
  {
    seq(|s|, k requires 0 <= k < |s| =>
      if k < p then s[k] else if k == p then s[i] else if k <= i then s[k - 1] else s[k])
  }

  /** The move only rearranges `s[..i + 1]`. */
  lemma InsertedPermutes(s: seq<int>, i: nat, p: nat)
    requires p <= i < |s|
    ensures multiset(Inserted(s, i, p)[..i + 1]) == multiset(s[..i + 1])
    ensures Inserted(s, i, p)[i + 1..] == s[i + 1..]
  {
    var r := Inserted(s, i, p);
    assert r[..p] == s[..p];
    assert r[p + 1..i + 1] == s[p..i];
    assert r[..i + 1] == r[..p] + [r[p]] + r[p + 1..i + 1];
    assert s[..i + 1] == s[..p] + s[p..i] + [s[i]];
    assert r[i + 1..] == s[i + 1..];
  }

  /**
   * One outer iteration: the `while` loop that shifts the entries of the
   * sorted prefix above `key = r[i]`, then the store of `key` into the gap.
   * `j` is where the scan stopped (-1 when it ran off the front).
   */
  method InsertKey(r0: seq<int>, i: nat) returns (r: seq<int>, j: int, comparisons: nat, shifts: nat)
    requires i < |r0|
    ensures -1 <= j < i && r == Inserted(r0, i, j + 1)
    ensures forall k :: j < k < i ==> r0[k] > r0[i]
    ensures j >= 0 ==> r0[j] <= r0[i]
    ensures shifts == i - 1 - j
    ensures comparisons == shifts + (if j >= 0 then 1 else 0)
  {
    var key := r0[i];
    r, j, shifts := ShiftLarger(r0, i);
    comparisons := shifts;
    if j >= 0 {
      comparisons := comparisons + 1;
    }
    StoreKey(r0, r, i, j);
    r := r[j + 1 := key];
  }

  /**
   * The `while` loop of one outer iteration: shifts the entries of the
   * sorted prefix above `r0[i]` one place right, front to back from `i - 1`,
   * stopping at the first entry at most the key or off the front.
   */
  method ShiftLarger(r0: seq<int>, i: nat) returns (r: seq<int>, j: int, shifts: nat)
    requires i < |r0|
    ensures -1 <= j < i && |r| == |r0| && Shifted(r0, r, i, j)
    ensures forall k :: j < k < i ==> r0[k] > r0[i]
    ensures j >= 0 ==> r0[j] <= r0[i]
    ensures shifts == i - 1 - j
  {
    var key := r0[i];
    r, j, shifts := r0, i - 1, 0;
    assert Shifted(r0, r, i, j);
    while j >= 0 && r[j] > key
      invariant -1 <= j < i && |r| == |r0| && Shifted(r0, r, i, j)
      invariant forall k :: j < k < i ==> r0[k] > key
      invariant shifts == i - 1 - j
    {
      ShiftOne(r0, r, i, j);
      r := r[j + 1 := r[j]];
      shifts := shifts + 1;
      j := j - 1;
    }
  }

  /** `r` is `r0` with `r0[j + 1..i]` moved one place right, leaving a gap at `j + 1`. */
  ghost predicate Shifted(r0: seq<int>, r: seq<int>, i: nat, j: int)
    requires -1 <= j < i < |r0| && |r| == |r0|
  {
    && (forall k :: 0 <= k <= j ==> r[k] == r0[k])
    && (forall k :: j + 2 <= k <= i ==> r[k] == r0[k - 1])
    && (forall k :: i < k < |r0| ==> r[k] == r0[k])
  }

  /** Copying entry `j` into the gap moves the gap one place left. */
  lemma ShiftOne(r0: seq<int>, r: seq<int>, i: nat, j: int)
    requires 0 <= j < i < |r0| && |r| == |r0| && Shifted(r0, r, i, j)
    ensures Shifted(r0, r[j + 1 := r[j]], i, j - 1)
  {
  }

  /** Storing the key into the gap the shifts left completes the move `Inserted(r0, i, j + 1)`. */
  lemma StoreKey(r0: seq<int>, r: seq<int>, i: nat, j: int)
    requires -1 <= j < i < |r0| && |r| == |r0| && Shifted(r0, r, i, j)
    ensures r[j + 1 := r0[i]] == Inserted(r0, i, j + 1)
  {
    var r' := r[j + 1 := r0[i]];
    forall k | 0 <= k < |r|
      ensures r'[k] == Inserted(r0, i, j + 1)[k]
    {
    }
  }

  /**
   * Inserting the key where the scan stopped keeps the prefix sorted and a
   * permutation, and the number of entries shifted is the number of
   * inversions the key closes.
   */
  lemma InsertStep(r0: seq<int>, i: nat, j: int)
    requires -1 <= j < i < |r0| && SortedBelow(r0, i)
    requires forall k :: j < k < i ==> r0[k] > r0[i]
    requires j >= 0 ==> r0[j] <= r0[i]
    ensures var r := Inserted(r0, i, j + 1);
      && SortedBelow(r, i + 1)
      && multiset(r[..i + 1]) == multiset(r0[..i + 1])
      && r[i + 1..] == r0[i + 1..]
    ensures CountAbove(r0[..i], r0[i]) == i - 1 - j
  {
    var p := j + 1;
    var r := Inserted(r0, i, p);
    var key := r0[i];
    InsertedPermutes(r0, i, p);
    assert AllAtMost(r0[..i][..p], key) by {
      forall k | 0 <= k < p
        ensures r0[k] <= key
      {
        assert r0[k] <= r0[j];
      }
    }
    assert AllAbove(r0[..i][p..], key);
    CountAboveSplit(r0[..i], p, key);
    forall a, b | 0 <= a < b < i + 1
      ensures r[a] <= r[b]
    {
      if a < p && b == p {
        assert r0[a] <= r0[j];
      }
    }
  }

  /**
   * The bookkeeping of one outer iteration, relative to the input `a`: the
   * prefix stays a permutation of `a`'s prefix, the suffix stays untouched,
   * and the shifts made add the inversions that entry `i` closes.
   */
  lemma CarryOver(a: seq<int>, r: seq<int>, i: nat, j: int)
    requires -1 <= j < i < |r| == |a|
    requires multiset(r[..i]) == multiset(a[..i]) && r[i..] == a[i..]
    requires CountAbove(r[..i], r[i]) == i - 1 - j
    requires multiset(Inserted(r, i, j + 1)[..i + 1]) == multiset(r[..i + 1])
    requires Inserted(r, i, j + 1)[i + 1..] == r[i + 1..]
    ensures multiset(Inserted(r, i, j + 1)[..i + 1]) == multiset(a[..i + 1])
    ensures Inserted(r, i, j + 1)[i + 1..] == a[i + 1..]
    ensures Inversions(a[..i + 1]) == Inversions(a[..i]) + (i - 1 - j)
  {
    assert r[i] == a[i] by { assert r[i..][0] == a[i..][0]; }
    assert a[..i + 1][..i] == a[..i];
    CountAboveMultiset(r[..i], a[..i], a[i]);
    assert r[..i + 1] == r[..i] + [r[i]] && a[..i + 1] == a[..i] + [a[i]];
    assert r[i + 1..] == r[i..][1..] == a[i..][1..] == a[i + 1..];
  }

  /** `insertion_sort(arr)`: the sorted array together with `(comparisons, shifts)`. */
  method InsertionSort(a: seq<int>) returns (r: seq<int>, comparisons: nat, shifts: nat)
    ensures Sorted(r) && multiset(r) == multiset(a)
    ensures shifts == Inversions(a)
    ensures shifts <= comparisons <= shifts + (if |a| == 0 then 0 else |a| - 1)
    ensures Sorted(a) ==> shifts == 0 && comparisons == (if |a| == 0 then 0 else |a| - 1)
  {
    var n := |a|;
    r, comparisons, shifts := a, 0, 0;
    if n == 0 {
      return;
    }
    for i := 1 to n
      invariant |r| == n && SortedBelow(r, i)
      invariant multiset(r[..i]) == multiset(a[..i]) && r[i..] == a[i..]
      invariant shifts == Inversions(a[..i])
      invariant shifts <= comparisons <= shifts + (i - 1)
      invariant Sorted(a) ==> r == a && shifts == 0 && comparisons == i - 1
    {
      var r1, j, c, s := InsertKey(r, i);
      InsertStep(r, i, j);
      CarryOver(a, r, i, j);
      if Sorted(a) {
        assert r[i - 1] <= r[i];
        assert r1 == r;
      }
      r, comparisons, shifts := r1, comparisons + c, shifts + s;
    }
    assert r[..n] == r && a[..n] == a;
  }
}
