/**
 * Binary search (Practical-2): Python's iterative `binary_search` and
 * recursive `binary_search_recursive`, which return the index found (or -1)
 * together with the number of probes, and the recursive `binarySearch` of
 * the Java and C++ ports, which returns only the index.
 */
module BinarySearch {
  import opened SortSpec
  import opened Logarithm

  /** Python's probe `(left + right) // 2`: floor division, always inside the range. */
  function Midpoint(lo: int, hi: int): (m: int)
    requires 0 <= lo <= hi
    ensures lo <= m <= hi && m - lo <= hi - m <= m - lo + 1
  {
    (lo + hi) / 2
  }

  /**
   * The Java and C++ probe `low + (high - low) / 2`. `high - low` is not
   * negative here, so truncating division is floor division and the probe
   * is the same as Python's.
   */
  function JavaMidpoint(low: int, high: int): (m: int)
    requires 0 <= low <= high
    ensures m == Midpoint(low, high)
  {
    low + (high - low) / 2
  }

  /**
   * `binary_search_recursive(arr, target, lo, hi, comparisons)`: searches
   * `a[lo..hi]` (inclusive) and returns `(index, comparisons)`, one
   * comparison counted per probe. A found index lies in the range and holds
   * the target.
   */
  function Search(a: seq<int>, t: int, lo: int, hi: int, comparisons: nat): (r: (int, nat))
    requires 0 <= lo && hi < |a|
    ensures r.0 == -1 || (lo <= r.0 <= hi && a[r.0] == t)
    ensures r.1 >= comparisons
    decreases hi - lo
  {
    if lo > hi then (-1, comparisons)
    else
      var mid := Midpoint(lo, hi);
      if a[mid] == t then (mid, comparisons + 1)
      else if a[mid] < t then Search(a, t, mid + 1, hi, comparisons + 1)
      else Search(a, t, lo, mid - 1, comparisons + 1)
  }

  /** On sorted input the search reports -1 only when the target is nowhere in `a[lo..hi]`. */
  lemma {:induction false} SearchComplete(a: seq<int>, t: int, lo: int, hi: int, comparisons: nat)
    requires 0 <= lo && hi < |a| && Sorted(a)
    ensures Search(a, t, lo, hi, comparisons).0 == -1 ==> forall k :: lo <= k <= hi ==> a[k] != t
    decreases hi - lo
  {
    if lo <= hi {
      var mid := Midpoint(lo, hi);
      if a[mid] < t {
        SearchComplete(a, t, mid + 1, hi, comparisons + 1);
      } else if a[mid] > t {
        SearchComplete(a, t, lo, mid - 1, comparisons + 1);
      }
    }
  }

  /**
   * A non-empty range costs at least one probe, and `p` probes need a range
   * of at least `2^(p - 1)` entries; an empty range costs none.
   */
  lemma {:induction false} SearchProbes(a: seq<int>, t: int, lo: int, hi: int, comparisons: nat)
    requires 0 <= lo && hi < |a|
    ensures var r := Search(a, t, lo, hi, comparisons);
      && (lo <= hi ==> comparisons + 1 <= r.1 && Pow2(r.1 - comparisons - 1) <= hi - lo + 1)
      && (lo > hi ==> r == (-1, comparisons))
    decreases hi - lo
  {
    if lo <= hi {
      var mid := Midpoint(lo, hi);
      Probe(a, t, lo, hi, comparisons);
      if a[mid] < t {
        SearchProbes(a, t, mid + 1, hi, comparisons + 1);
      } else if a[mid] > t {
        SearchProbes(a, t, lo, mid - 1, comparisons + 1);
      }
    }
  }

  /** One probe of the search: the result for `[lo, hi]` in terms of the probe at the midpoint. */
  lemma Probe(a: seq<int>, t: int, lo: int, hi: int, comparisons: nat)
    requires 0 <= lo <= hi < |a|
    ensures var mid := Midpoint(lo, hi);
      && (a[mid] == t ==> Search(a, t, lo, hi, comparisons) == (mid, comparisons + 1))
      && (a[mid] < t ==> Search(a, t, lo, hi, comparisons) == Search(a, t, mid + 1, hi, comparisons + 1))
      && (a[mid] > t ==> Search(a, t, lo, hi, comparisons) == Search(a, t, lo, mid - 1, comparisons + 1))
  {
  }

  /**
   * `binary_search(arr, target)`: the iterative loop, which makes the same
   * probes as the recursive search over the whole array and returns the
   * same pair.
   */
  method BinarySearchLoop(a: seq<int>, t: int) returns (index: int, comparisons: nat)
    ensures (index, comparisons) == Search(a, t, 0, |a| - 1, 0)
    ensures index == -1 || (0 <= index < |a| && a[index] == t)
    ensures Sorted(a) ==> (index == -1 <==> t !in a)
    ensures |a| > 0 ==> 1 <= comparisons <= Log2(|a|) + 1
    ensures |a| == 0 ==> index == -1 && comparisons == 0
  {
    ghost var result := Search(a, t, 0, |a| - 1, 0);
    WholeArray(a, t);
    var left, right := 0, |a| - 1;
    comparisons := 0;
    while left <= right
      invariant 0 <= left <= right + 1 <= |a|
      invariant Search(a, t, left, right, comparisons) == result
      decreases right - left
    {
      var mid := (left + right) / 2;
      Probe(a, t, left, right, comparisons);
      comparisons := comparisons + 1;
      if a[mid] == t {
        return mid, comparisons;
      } else if a[mid] < t {
        left := mid + 1;
      } else {
        right := mid - 1;
      }
    }
    index := -1;
  }

  /** What the search over the whole array promises: soundness, completeness on sorted input, and the probe bound. */
  lemma WholeArray(a: seq<int>, t: int)
    ensures var (index, comparisons) := Search(a, t, 0, |a| - 1, 0);
      && (index == -1 || (0 <= index < |a| && a[index] == t))
      && (Sorted(a) ==> (index == -1 <==> t !in a))
      && (|a| > 0 ==> 1 <= comparisons <= Log2(|a|) + 1)
      && (|a| == 0 ==> index == -1 && comparisons == 0)
  {
    if Sorted(a) {
      SearchComplete(a, t, 0, |a| - 1, 0);
    }
    SearchProbes(a, t, 0, |a| - 1, 0);
    if |a| > 0 {
      var p := Search(a, t, 0, |a| - 1, 0).1;
      PowBelow(|a|, p - 1);
    }
  }

  /**
   * `binarySearch(arr, low, high, key)` of the Java and C++ ports: the same
   * search over `a[low..high]` with the two unequal cases tested in the other
   * order and no probe count.
   */
  function JavaSearch(a: seq<int>, low: int, high: int, key: int): (r: int)
    requires 0 <= low && high < |a|
    decreases high - low
  {
    if low <= high then
      var mid := JavaMidpoint(low, high);
      if a[mid] == key then mid
      else if a[mid] > key then JavaSearch(a, low, mid - 1, key)
      else JavaSearch(a, mid + 1, high, key)
    else -1
  }

  /** The Java and C++ search returns the same index as Python's, for any input. */
  lemma {:induction false} JavaMatchesPython(a: seq<int>, low: int, high: int, key: int, comparisons: nat)
    requires 0 <= low && high < |a|
    ensures JavaSearch(a, low, high, key) == Search(a, key, low, high, comparisons).0
    decreases high - low
  {
    if low <= high {
      var mid := Midpoint(low, high);
      Probe(a, key, low, high, comparisons);
      assert mid == JavaMidpoint(low, high);
      if a[mid] > key {
        assert JavaSearch(a, low, high, key) == JavaSearch(a, low, mid - 1, key);
        JavaMatchesPython(a, low, mid - 1, key, comparisons + 1);
      } else if a[mid] < key {
        assert JavaSearch(a, low, high, key) == JavaSearch(a, mid + 1, high, key);
        JavaMatchesPython(a, mid + 1, high, key, comparisons + 1);
      }
    }
  }

  /** On sorted input the Java and C++ search finds the key exactly when it is present. */
  lemma JavaCorrect(a: seq<int>, key: int)
    requires Sorted(a)
    ensures var r := JavaSearch(a, 0, |a| - 1, key);
      && (r == -1 <==> key !in a)
      && (r != -1 ==> 0 <= r < |a| && a[r] == key)
  {
    JavaMatchesPython(a, 0, |a| - 1, key, 0);
    SearchComplete(a, key, 0, |a| - 1, 0);
  }
}
