/**
 * `bubble_sort` (Practical-1): repeated passes that swap adjacent entries
 * out of order, each pass one shorter than the last, stopping early after
 * a pass without swaps. The array is modelled as a sequence value.
 */
module BubbleSort {
  import opened SortSpec

  /**
   * The inner loop of pass `i`, with `m = n - i - 1` comparisons: carries
   * the largest entry of `r0[..m + 1]` to position `m`, leaves the entries
   * after `m` alone, and removes one inversion per swap.
   */
  method Pass(r0: seq<int>, m: nat) returns (r: seq<int>, comparisons: nat, swaps: nat, swapped: bool)
    requires m < |r0| && SplitAt(r0, m + 1)
    ensures |r| == |r0| && multiset(r) == multiset(r0)
    ensures forall k :: m < k < |r| ==> r[k] == r0[k]
    ensures SplitAt(r, m + 1) && forall k :: 0 <= k <= m ==> r[k] <= r[m]
    ensures comparisons == m
    ensures swaps + Inversions(r) == Inversions(r0)
    ensures swapped <==> swaps > 0
    ensures !swapped ==> r == r0 && forall k :: 0 <= k < m ==> r0[k] <= r0[k + 1]
  {
    r, comparisons, swaps, swapped := r0, 0, 0, false;
    for j := 0 to m
      invariant PassInv(r0, r, m, j, swaps, swapped)
      invariant comparisons == j
    {
      comparisons := comparisons + 1;
      if r[j] > r[j + 1] {
        SwapStep(r0, r, m, j, swaps, swapped);
        r := Swap(r, j);
        swaps := swaps + 1;
        swapped := true;
      } else {
        KeepStep(r0, r, m, j, swaps, swapped);
      }
    }
  }

  /** What the inner loop keeps after its first `j` comparisons. */
  ghost predicate PassInv(r0: seq<int>, r: seq<int>, m: nat, j: nat, swaps: nat, swapped: bool)
    requires m < |r0| && j <= m
  {
    && |r| == |r0| && multiset(r) == multiset(r0)
    && (forall k :: m < k < |r| ==> r[k] == r0[k])
    && SplitAt(r, m + 1) && (forall k :: 0 <= k <= j ==> r[k] <= r[j])
    && swaps + Inversions(r) == Inversions(r0)
    && (swapped <==> swaps > 0)
    && (!swapped ==> r == r0 && forall k :: 0 <= k < j ==> r0[k] <= r0[k + 1])
  }

  /** A swap at `j` keeps the loop's invariant one comparison further on. */
  lemma SwapStep(r0: seq<int>, r: seq<int>, m: nat, j: nat, swaps: nat, swapped: bool)
    requires m < |r0| && j < m && PassInv(r0, r, m, j, swaps, swapped) && r[j] > r[j + 1]
    ensures PassInv(r0, Swap(r, j), m, j + 1, swaps + 1, true)
  {
    SwapRemovesInversion(r, j);
    SwapMultiset(r, j);
    CarryMax(r, j, m);
  }

  /** Entries `j` and `j + 1` already in order keep the loop's invariant one comparison further on. */
  lemma KeepStep(r0: seq<int>, r: seq<int>, m: nat, j: nat, swaps: nat, swapped: bool)
    requires m < |r0| && j < m && PassInv(r0, r, m, j, swaps, swapped) && r[j] <= r[j + 1]
    ensures PassInv(r0, r, m, j + 1, swaps, swapped)
  {
  }

  /** Swapping the running maximum one place right keeps it the maximum of the prefix and the split intact. */
  lemma CarryMax(r: seq<int>, j: nat, m: nat)
    requires j < m < |r| && r[j] > r[j + 1]
    requires SplitAt(r, m + 1) && forall k :: 0 <= k <= j ==> r[k] <= r[j]
    ensures var r' := Swap(r, j);
      && (forall k :: m < k < |r| ==> r'[k] == r[k])
      && SplitAt(r', m + 1) && forall k :: 0 <= k <= j + 1 ==> r'[k] <= r'[j + 1]
  {
  }

  /**
   * Outer iteration `i`: one pass over the unsorted prefix `r[..n - i]`,
   * after which one more position holds its final value; `stop` reports
   * the early exit taken when the pass made no swap.
   */
  method Round(r: seq<int>, i: nat) returns (r1: seq<int>, comparisons: nat, swaps: nat, stop: bool)
    requires i < |r| && SortedFrom(r, |r| - i) && SplitAt(r, |r| - i)
    ensures |r1| == |r| && multiset(r1) == multiset(r)
    ensures swaps + Inversions(r1) == Inversions(r)
    ensures SortedFrom(r1, |r| - i - 1) && SplitAt(r1, |r| - i - 1)
    ensures comparisons == |r| - i - 1
    ensures stop ==> Inversions(r1) == 0
    ensures Inversions(r) == 0 ==> stop && r1 == r
  {
    var m := |r| - i - 1;
    var swapped;
    r1, comparisons, swaps, swapped := Pass(r, m);
    Settle(r, r1, m);
    stop := !swapped;
    if stop {
      Joined(r1, m);
    }
  }

  /** `bubble_sort(arr)`: the sorted array together with `(comparisons, swaps)`. */
  method BubbleSort(a: seq<int>) returns (r: seq<int>, comparisons: nat, swaps: nat)
    ensures Sorted(r) && multiset(r) == multiset(a)
    ensures swaps == Inversions(a)
    ensures comparisons <= Choose2(|a|)
    ensures Sorted(a) ==> swaps == 0 && comparisons == (if |a| == 0 then 0 else |a| - 1)
  {
    var i, stop;
    r, comparisons, swaps, i, stop := Rounds(a);
    Finish(a, r, i, stop, comparisons, swaps);
  }

  /**
   * The outer loop: rounds `0, 1, ...` until `n` rounds have run or one
   * stopped early. `i` is the number of rounds run.
   */
  method Rounds(a: seq<int>) returns (r: seq<int>, comparisons: nat, swaps: nat, i: nat, stop: bool)
    ensures i <= |r| == |a| && multiset(r) == multiset(a)
    ensures swaps + Inversions(r) == Inversions(a)
    ensures SortedFrom(r, |a| - i) && !(i < |a| && !stop)
    ensures comparisons == PassComparisons(|a|, i)
    ensures stop ==> Inversions(r) == 0
    ensures Inversions(a) == 0 ==> r == a && i <= 1 && (i == 1 <==> stop)
  {
    var n := |a|;
    r, comparisons, swaps := a, 0, 0;
    i, stop := 0, false;
    while i < n && !stop
      invariant 0 <= i <= n && |r| == n && multiset(r) == multiset(a)
      invariant swaps + Inversions(r) == Inversions(a)
      invariant SortedFrom(r, n - i) && SplitAt(r, n - i)
      invariant comparisons == PassComparisons(n, i)
      invariant stop ==> Inversions(r) == 0
      invariant Inversions(a) == 0 ==> r == a && i <= 1 && (i == 1 <==> stop)
    {
      var r1, c, s, done := Round(r, i);
      r, comparisons, swaps, stop := r1, comparisons + c, swaps + s, done;
      i := i + 1;
    }
  }

  /**
   * Whether the passes ran out or stopped early, the array is sorted, every
   * inversion was removed by a swap, and the passes made at most one
   * comparison per pair; a sorted input stops after its first pass.
   */
  lemma Finish(a: seq<int>, r: seq<int>, i: nat, stop: bool, comparisons: nat, swaps: nat)
    requires i <= |r| == |a| && SortedFrom(r, |r| - i)
    requires !(i < |r| && !stop)
    requires stop ==> Inversions(r) == 0
    requires swaps + Inversions(r) == Inversions(a)
    requires comparisons == PassComparisons(|a|, i)
    requires Inversions(a) == 0 ==> r == a && i <= 1 && (i == 1 <==> stop)
    ensures Sorted(r) && Inversions(r) == 0 && swaps == Inversions(a)
    ensures comparisons <= Choose2(|a|)
    ensures Sorted(a) ==> swaps == 0 && comparisons == (if |a| == 0 then 0 else |a| - 1)
  {
    SortedIffNoInversions(r);
    AllPasses(|a|, i);
    Choose2Passes(|a|);
    if Sorted(a) {
      SortedIffNoInversions(a);
    }
  }

  /**
   * A pass without swaps leaves the entries up to `m` in adjacent order;
   * with a sorted suffix from `m` and a split at `m` the whole sequence is
   * sorted and has no inversions.
   */
  lemma Joined(r: seq<int>, m: nat)
    requires m < |r| && forall k :: 0 <= k < m ==> r[k] <= r[k + 1]
    requires SortedFrom(r, m) && SplitAt(r, m)
    ensures Sorted(r) && Inversions(r) == 0
  {
    AdjacentSorted(r, m);
    SortedIffNoInversions(r);
  }

  /** After a pass, position `m` holds its final value: the sorted suffix grows by one. */
  lemma Settle(r0: seq<int>, r: seq<int>, m: nat)
    requires m < |r0| == |r| && SortedFrom(r0, m + 1)
    requires forall k :: m < k < |r| ==> r[k] == r0[k]
    requires SplitAt(r, m + 1) && forall k :: 0 <= k <= m ==> r[k] <= r[m]
    ensures SortedFrom(r, m) && SplitAt(r, m)
  {
  }
}
