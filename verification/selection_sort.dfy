/**
 * `selection_sort` (Practical-1): for each position, scan the rest of the
 * array for its minimum and swap it into place, counting comparisons and
 * swaps. The array is modelled as a sequence value; the method returns the
 * array the in-place sort leaves behind.
 */
module SelectionSort {
  import opened SortSpec

  /**
   * The inner loop: the index of the first minimum of `r[i..]` (the test
   * is strict, so a later equal entry does not replace it), found with
   * `|r| - i - 1` comparisons.
   */
  method MinIndex(r: seq<int>, i: nat) returns (m: nat, comparisons: nat)
    requires i < |r|
    ensures i <= m < |r| && forall k :: i <= k < |r| ==> r[m] <= r[k]
    ensures forall k :: i <= k < m ==> r[k] > r[m]
    ensures comparisons == |r| - i - 1
  {
    m, comparisons := i, 0;
    for j := i + 1 to |r|
      invariant i <= m < j
      invariant forall k :: i <= k < j ==> r[m] <= r[k]
      invariant forall k :: i <= k < m ==> r[k] > r[m]
      invariant comparisons == j - i - 1
    {
      comparisons := comparisons + 1;
      if r[j] < r[m] {
        m := j;
      }
    }
  }

  /** Swapping the suffix minimum into position `i` extends the sorted, split prefix by one. */
  lemma PlaceMinimum(r: seq<int>, i: nat, m: nat)
    requires i <= m < |r| && forall k :: i <= k < |r| ==> r[m] <= r[k]
    requires SortedBelow(r, i) && SplitAt(r, i)
    ensures var r' := r[i := r[m]][m := r[i]];
      multiset(r') == multiset(r) && SortedBelow(r', i + 1) && SplitAt(r', i + 1)
  {
    ExchangeMultiset(r, i, m);
  }

  /** `selection_sort(arr)`: the sorted array together with `(comparisons, swaps)`. */
  method SelectionSort(a: seq<int>) returns (r: seq<int>, comparisons: nat, swaps: nat)
    ensures Sorted(r) && multiset(r) == multiset(a)
    ensures comparisons == Choose2(|a|)
    ensures swaps <= if |a| == 0 then 0 else |a| - 1
  {
    r, comparisons, swaps := SelectAll(a);
    Choose2Passes(|a|);
  }

  /** The outer loop: pass `i` places the minimum of `r[i..]` at position `i`. */
  method SelectAll(a: seq<int>) returns (r: seq<int>, comparisons: nat, swaps: nat)
    ensures |r| == |a| && multiset(r) == multiset(a) && Sorted(r)
    ensures comparisons == PassComparisons(|a|, |a|)
    ensures swaps <= if |a| == 0 then 0 else |a| - 1
  {
    var n := |a|;
    r, comparisons, swaps := a, 0, 0;
    for i := 0 to n
      invariant |r| == n && multiset(r) == multiset(a)
      invariant SortedBelow(r, i) && SplitAt(r, i)
      invariant comparisons == PassComparisons(n, i)
      invariant swaps <= i && (n > 0 ==> swaps <= n - 1)
    {
      var m, c := MinIndex(r, i);
      comparisons := comparisons + c;
      PlaceMinimum(r, i, m);
      if m != i {
        r := r[i := r[m]][m := r[i]];
        swaps := swaps + 1;
      }
    }
  }
}
