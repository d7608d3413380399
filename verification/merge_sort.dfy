/**
 * `merge` and `merge_sort` (Practical-3): top-down merge sort over the
 * inclusive range `[left, right]`, counting the comparisons of the merges.
 * The array is modelled as a sequence value; `merge` copies the two halves
 * out and writes the merged run back over `[left, right]` in order, so the
 * array it leaves is the input with that range replaced by the merged run.
 */
module MergeSort {
  import opened SortSpec

  /**
   * The first loop of `merge`: repeatedly moves the smaller head of the two
   * runs to the output, taking from `lhs` on ties, with one comparison per
   * step, until one run is used up at index `i` or `j`.
   */
  method Interleave(lhs: seq<int>, rhs: seq<int>) returns (out: seq<int>, i: nat, j: nat, comparisons: nat)
    ensures i <= |lhs| && j <= |rhs| && (i == |lhs| || j == |rhs|)
    ensures multiset(out) == multiset(lhs[..i]) + multiset(rhs[..j]) && |out| == i + j
    ensures Sorted(lhs) && Sorted(rhs) ==>
      && Sorted(out)
      && (out != [] && i < |lhs| ==> out[|out| - 1] <= lhs[i])
      && (out != [] && j < |rhs| ==> out[|out| - 1] <= rhs[j])
    ensures comparisons == i + j
    ensures lhs != [] && rhs != [] ==> i < |lhs| || j < |rhs|
    ensures lhs == [] || rhs == [] ==> comparisons == 0
  {
    i, j := 0, 0;
    out, comparisons := [], 0;
    while i < |lhs| && j < |rhs|
      invariant Merging(lhs, rhs, out, i, j)
      invariant comparisons == i + j
      invariant lhs != [] && rhs != [] ==> i < |lhs| || j < |rhs|
      invariant lhs == [] || rhs == [] ==> comparisons == 0
      decreases |lhs| + |rhs| - i - j
    {
      comparisons := comparisons + 1;
      out, i, j := Take(lhs, rhs, out, i, j);
    }
  }

  /**
   * The state of the first loop of `merge`: `out` holds exactly the heads
   * taken so far, and when both runs are sorted `out` is sorted and does not
   * exceed either current head.
   */
  ghost predicate Merging(lhs: seq<int>, rhs: seq<int>, out: seq<int>, i: int, j: int) {
    && 0 <= i <= |lhs| && 0 <= j <= |rhs| && |out| == i + j
    && multiset(out) == multiset(lhs[..i]) + multiset(rhs[..j])
    && (Sorted(lhs) && Sorted(rhs) ==>
      && Sorted(out)
      && (out != [] && i < |lhs| ==> out[|out| - 1] <= lhs[i])
      && (out != [] && j < |rhs| ==> out[|out| - 1] <= rhs[j]))
  }

  /** One step of the first loop of `merge`: the smaller head moves to the output, the left one on ties. */
  method Take(lhs: seq<int>, rhs: seq<int>, out: seq<int>, i: nat, j: nat) returns (out': seq<int>, i': nat, j': nat)
    requires i < |lhs| && j < |rhs| && Merging(lhs, rhs, out, i, j)
    ensures Merging(lhs, rhs, out', i', j') && i' + j' == i + j + 1
    ensures lhs[i] <= rhs[j] ==> out' == out + [lhs[i]] && i' == i + 1 && j' == j
    ensures rhs[j] < lhs[i] ==> out' == out + [rhs[j]] && i' == i && j' == j + 1
  {
    ghost var sortedIn := Sorted(lhs) && Sorted(rhs);
    if lhs[i] <= rhs[j] {
      Extend(out, lhs, i, sortedIn);
      out', i', j' := out + [lhs[i]], i + 1, j;
    } else {
      Extend(out, rhs, j, sortedIn);
      out', i', j' := out + [rhs[j]], i, j + 1;
    }
  }

  /** Moving the head `s[i]` of a run to the output keeps the output sorted and its last entry below the new head. */
  lemma Extend(out: seq<int>, s: seq<int>, i: nat, sortedIn: bool)
    requires i < |s| && (sortedIn ==> Sorted(s) && Sorted(out))
    requires sortedIn && out != [] ==> out[|out| - 1] <= s[i]
    ensures multiset(s[..i + 1]) == multiset(s[..i]) + multiset{s[i]}
    ensures multiset(out + [s[i]]) == multiset(out) + multiset{s[i]}
    ensures sortedIn ==> Sorted(out + [s[i]])
    ensures sortedIn && i + 1 < |s| ==> s[i] <= s[i + 1]
  {
    assert s[..i + 1] == s[..i] + [s[i]];
  }

  /**
   * The merged run of `merge`: the interleaving, then the two copy loops,
   * which append what remains of the left run and of the right run.
   */
  method MergeRuns(lhs: seq<int>, rhs: seq<int>) returns (out: seq<int>, comparisons: nat)
    ensures |out| == |lhs| + |rhs| && multiset(out) == multiset(lhs) + multiset(rhs)
    ensures Sorted(lhs) && Sorted(rhs) ==> Sorted(out)
    ensures lhs != [] && rhs != [] ==> comparisons <= |lhs| + |rhs| - 1
    ensures lhs == [] || rhs == [] ==> comparisons == 0
  {
    var front, i, j;
    front, i, j, comparisons := Interleave(lhs, rhs);
    out := front + lhs[i..] + rhs[j..];
    Remainders(front, lhs, rhs, i, j);
  }

  /** Appending both remainders, one of them empty, completes the merge. */
  lemma Remainders(front: seq<int>, lhs: seq<int>, rhs: seq<int>, i: nat, j: nat)
    requires i <= |lhs| && j <= |rhs| && (i == |lhs| || j == |rhs|)
    requires multiset(front) == multiset(lhs[..i]) + multiset(rhs[..j])
    requires Sorted(lhs) && Sorted(rhs) ==>
      && Sorted(front)
      && (front != [] && i < |lhs| ==> front[|front| - 1] <= lhs[i])
      && (front != [] && j < |rhs| ==> front[|front| - 1] <= rhs[j])
    ensures multiset(front + lhs[i..] + rhs[j..]) == multiset(lhs) + multiset(rhs)
    ensures Sorted(lhs) && Sorted(rhs) ==> Sorted(front + lhs[i..] + rhs[j..])
  {
    Rejoin(front, lhs, rhs, i, j);
    if Sorted(lhs) && Sorted(rhs) {
      SortedRest(front, lhs, rhs, i, j);
    }
  }

  /** On sorted runs, the front followed by the one remainder left is sorted. */
  lemma SortedRest(front: seq<int>, lhs: seq<int>, rhs: seq<int>, i: nat, j: nat)
    requires i <= |lhs| && j <= |rhs| && (i == |lhs| || j == |rhs|)
    requires Sorted(lhs) && Sorted(rhs) && Sorted(front)
    requires front != [] && i < |lhs| ==> front[|front| - 1] <= lhs[i]
    requires front != [] && j < |rhs| ==> front[|front| - 1] <= rhs[j]
    ensures Sorted(front + lhs[i..] + rhs[j..])
  {
    if i < |lhs| {
      assert rhs[j..] == [];
      assert front + lhs[i..] + rhs[j..] == front + lhs[i..];
      TailSorted(front, lhs, i);
    } else {
      assert lhs[i..] == [];
      assert front + lhs[i..] + rhs[j..] == front + rhs[j..];
      TailSorted(front, rhs, j);
    }
  }

  /** The merged front and the two remainders together hold both runs. */
  lemma Rejoin(front: seq<int>, lhs: seq<int>, rhs: seq<int>, i: nat, j: nat)
    requires i <= |lhs| && j <= |rhs|
    requires multiset(front) == multiset(lhs[..i]) + multiset(rhs[..j])
    ensures multiset(front + lhs[i..] + rhs[j..]) == multiset(lhs) + multiset(rhs)
  {
    assert lhs == lhs[..i] + lhs[i..] && rhs == rhs[..j] + rhs[j..];
    assert multiset(front + lhs[i..] + rhs[j..]) == multiset(front) + multiset(lhs[i..]) + multiset(rhs[j..]);
  }

  /** A sorted run followed by the sorted rest of a run whose head it does not exceed is sorted. */
  lemma TailSorted(front: seq<int>, s: seq<int>, i: nat)
    requires i <= |s| && Sorted(front) && Sorted(s)
    requires front != [] && i < |s| ==> front[|front| - 1] <= s[i]
    ensures Sorted(front + s[i..])
  {
    var t := front + s[i..];
    forall a, b | 0 <= a < b < |t|
      ensures t[a] <= t[b]
    {
      if a < |front| <= b {
        assert front[a] <= front[|front| - 1] <= s[i] <= s[i + b - |front|];
      }
    }
  }

  /**
   * `merge(arr, left, mid, right)`: merges `arr[left..mid]` and
   * `arr[mid+1..right]` (inclusive bounds) back into `arr[left..right]`.
   * Sorted halves give a sorted range; at most `right - left` comparisons.
   */
  method Merge(a: seq<int>, left: nat, mid: nat, right: nat) returns (r: seq<int>, comparisons: nat)
    requires left <= mid < right < |a|
    ensures multiset(r) == multiset(a) && SameOutside(a, r, left, right + 1)
    ensures SortedRange(a, left, mid + 1) && SortedRange(a, mid + 1, right + 1) ==> SortedRange(r, left, right + 1)
    ensures comparisons <= right - left
  {
    var lhs, rhs := a[left..mid + 1], a[mid + 1..right + 1];
    var out;
    out, comparisons := MergeRuns(lhs, rhs);
    if SortedRange(a, left, mid + 1) && SortedRange(a, mid + 1, right + 1) {
      assert Sorted(lhs) && Sorted(rhs);
    }
    r := Splice(a, out, left, mid, right);
  }

  /** `a` with the range `[left, right]` overwritten by `out`, a permutation of that range. */
  function Splice(a: seq<int>, out: seq<int>, left: nat, mid: nat, right: nat): (r: seq<int>)
    requires left <= mid < right < |a|
    requires |out| == right + 1 - left
    requires multiset(out) == multiset(a[left..mid + 1]) + multiset(a[mid + 1..right + 1])
    ensures multiset(r) == multiset(a) && SameOutside(a, r, left, right + 1)
    ensures Sorted(out) ==> SortedRange(r, left, right + 1)
  {
    assert a == a[..left] + (a[left..mid + 1] + a[mid + 1..right + 1]) + a[right + 1..];
    var r := a[..left] + out + a[right + 1..];
    assert forall k :: left <= k <= right ==> r[k] == out[k - left];
    r
  }

  /**
   * `merge_sort(arr, left, right)`: sorts `arr[left..right]` (inclusive) in
   * place and returns the comparisons of all merges; a range of fewer than
   * two entries is left alone at no cost.
   */
  method MergeSort(a: seq<int>, left: int, right: int) returns (r: seq<int>, comparisons: nat)
    requires 0 <= left <= right + 1 <= |a|
    ensures multiset(r) == multiset(a) && SameOutside(a, r, left, right + 1)
    ensures SortedRange(r, left, right + 1)
    ensures left >= right ==> r == a && comparisons == 0
    decreases right - left
  {
    r, comparisons := a, 0;
    if left < right {
      var mid := (left + right) / 2;
      var r1, c1 := MergeSort(a, left, mid);
      var r2, c2 := MergeSort(r1, mid + 1, right);
      assert SortedRange(r2, left, mid + 1) by {
        assert forall k :: left <= k <= mid ==> r2[k] == r1[k];
      }
      var c3;
      r, c3 := Merge(r2, left, mid, right);
      comparisons := c1 + c2 + c3;
    }
  }
}
