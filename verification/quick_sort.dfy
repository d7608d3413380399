/**
 * `partition` and `quick_sort` (Practical-3): Lomuto partitioning around
 * the last entry of the range, then recursive sorting of both sides,
 * counting comparisons and swaps. The array is modelled as a sequence value;
 * each call returns the array it leaves behind.
 */
module QuickSort {
  import opened SortSpec

  /**
   * The loop of `partition`: after it, `r[low..q]` holds the entries at most
   * the pivot `a[high]` and `r[q..high]` the entries above it; `q - low` is
   * both the number of swaps made and the number of such entries.
   */
  method Scan(a: seq<int>, low: nat, high: nat) returns (r: seq<int>, q: nat, comparisons: nat, swaps: nat)
    requires low <= high < |a|
    ensures |r| == |a| && multiset(r) == multiset(a) && low <= q <= high
    ensures forall k :: 0 <= k < low ==> r[k] == a[k]
    ensures forall k :: high <= k < |a| ==> r[k] == a[k]
    ensures forall k :: low <= k < q ==> r[k] <= a[high]
    ensures forall k :: q <= k < high ==> r[k] > a[high]
    ensures comparisons == high - low
    ensures swaps == q - low == CountAtMost(a[low..high], a[high])
  {
    var pivot := a[high];
    r, comparisons, swaps := a, 0, 0;
    q := low;
    for j := low to high
      invariant low <= q <= j && j <= |a| && ScanInv(a, r, low, q, j, pivot)
      invariant comparisons == j - low
      invariant swaps == q - low == CountAtMost(a[low..j], pivot)
    {
      comparisons := comparisons + 1;
      CountAtMostStep(a, low, j, pivot);
      if r[j] <= pivot {
        ScanSwap(a, r, low, q, j, pivot);
        r := r[q := r[j]][j := r[q]];
        q := q + 1;
        swaps := swaps + 1;
      } else {
        ScanKeep(a, r, low, q, j, pivot);
      }
    }
  }

  /**
   * The scan's invariant after reaching `j`: `r` permutes `a`, only
   * `r[low..j]` has moved, and it holds the entries at most the pivot
   * before `q` and those above it from `q` on.
   */
  ghost predicate ScanInv(a: seq<int>, r: seq<int>, low: nat, q: nat, j: nat, pivot: int)
    requires low <= q <= j <= |a|
  {
    && |r| == |a| && multiset(r) == multiset(a)
    && (forall k :: 0 <= k < low ==> r[k] == a[k])
    && (forall k :: j <= k < |a| ==> r[k] == a[k])
    && (forall k :: low <= k < q ==> r[k] <= pivot)
    && (forall k :: q <= k < j ==> r[k] > pivot)
  }

  /** Swapping an entry at most the pivot to the end of the low block keeps the scan's invariant. */
  lemma ScanSwap(a: seq<int>, r: seq<int>, low: nat, q: nat, j: nat, pivot: int)
    requires low <= q <= j < |r| == |a| && r[j] <= pivot && ScanInv(a, r, low, q, j, pivot)
    ensures ScanInv(a, r[q := r[j]][j := r[q]], low, q + 1, j + 1, pivot)
  {
    ExchangeMultiset(r, q, j);
  }

  /** An entry above the pivot joins the high block where it stands. */
  lemma ScanKeep(a: seq<int>, r: seq<int>, low: nat, q: nat, j: nat, pivot: int)
    requires low <= q <= j < |r| == |a| && r[j] > pivot && ScanInv(a, r, low, q, j, pivot)
    ensures ScanInv(a, r, low, q, j + 1, pivot)
  {
  }

  /**
   * `partition(arr, low, high)`: returns the pivot's final index `p`, the
   * comparisons made (one per entry before the pivot) and the swaps made (one
   * per entry at most the pivot, plus the final placement of the pivot).
   */
  method Partition(a: seq<int>, low: nat, high: nat) returns (r: seq<int>, p: nat, comparisons: nat, swaps: nat)
    requires low <= high < |a|
    ensures multiset(r) == multiset(a) && SameOutside(a, r, low, high + 1)
    ensures low <= p <= high && r[p] == a[high]
    ensures forall k :: low <= k < p ==> r[k] <= r[p]
    ensures forall k :: p < k <= high ==> r[k] > r[p]
    ensures comparisons == high - low
    ensures swaps == CountAtMost(a[low..high], a[high]) + 1
  {
    var r0;
    r0, p, comparisons, swaps := Scan(a, low, high);
    ExchangeMultiset(r0, p, high);
    r := r0[p := r0[high]][high := r0[p]];
    swaps := swaps + 1;
  }

  /**
   * `quick_sort(arr, low, high)`: sorts `arr[low..high]` in place and
   * returns `(comparisons, swaps)`; a range of fewer than two entries is
   * left alone at no cost.
   */
  method QuickSort(a: seq<int>, low: int, high: int) returns (r: seq<int>, comparisons: nat, swaps: nat)
    requires 0 <= low <= high + 1 <= |a|
    ensures multiset(r) == multiset(a) && SameOutside(a, r, low, high + 1)
    ensures SortedRange(r, low, high + 1)
    ensures low >= high ==> r == a && comparisons == 0 && swaps == 0
    decreases high - low
  {
    r, comparisons, swaps := a, 0, 0;
    if low < high {
      var r1, p, c, s := Partition(a, low, high);
      var r2, c1, s1 := QuickSort(r1, low, p as int - 1);
      var r3, c2, s2 := QuickSort(r2, p + 1, high);
      Combine(a, r1, r2, r3, low, p, high);
      r, comparisons, swaps := r3, c + c1 + c2, s + s1 + s2;
    }
  }

  /**
   * Sorting the two sides of a partitioned range in place sorts the whole
   * range: the left side stays at most the pivot and the right side above it.
   */
  lemma Combine(a: seq<int>, r1: seq<int>, r2: seq<int>, r3: seq<int>, low: nat, p: nat, high: nat)
    requires low <= p <= high < |a|
    requires multiset(r1) == multiset(a) && SameOutside(a, r1, low, high + 1)
    requires forall k :: low <= k < p ==> r1[k] <= r1[p]
    requires forall k :: p < k <= high ==> r1[k] > r1[p]
    requires multiset(r2) == multiset(r1) && SameOutside(r1, r2, low, p) && SortedRange(r2, low, p)
    requires multiset(r3) == multiset(r2) && SameOutside(r2, r3, p + 1, high + 1) && SortedRange(r3, p + 1, high + 1)
    ensures multiset(r3) == multiset(a) && SameOutside(a, r3, low, high + 1)
    ensures SortedRange(r3, low, high + 1)
  {
    var pivot := r1[p];
    RangePermutation(r1, r2, low, p);
    assert AllAtMost(r1[low..p], pivot);
    AtMostPreserved(r1[low..p], r2[low..p], pivot);
    RangePermutation(r2, r3, p + 1, high + 1);
    assert AllAbove(r2[p + 1..high + 1], pivot);
    AbovePreserved(r2[p + 1..high + 1], r3[p + 1..high + 1], pivot);
    assert forall k :: low <= k < p ==> r3[k] == r2[k] == r2[low..p][k - low] <= pivot;
    assert forall k :: p < k <= high ==> r3[k] == r3[p + 1..high + 1][k - p - 1] > pivot;
  }
}
