/**
 * `heapify` and `heap_sort` (Practical-3): a max-heap stored in the prefix
 * `arr[0..n)` with the children of node `i` at `2i + 1` and `2i + 2`, built
 * bottom-up and then emptied by swapping the root behind the shrinking heap.
 * The array is modelled as a sequence value.
 */
module HeapSort {
  import opened SortSpec
  import opened Logarithm

  function Parent(c: nat): nat
    requires c > 0
  {
    (c - 1) / 2
  }

  /** Every parent-child pair inside `s[0..n)` whose parent is at index `i` or later is ordered. */
  ghost predicate HeapFrom(s: seq<int>, n: nat, i: nat)
    requires n <= |s|
  {
    forall c :: 0 < c < n && Parent(c) >= i ==> s[Parent(c)] >= s[c]
  }

  /** `s[0..n)` is a max-heap. */
  ghost predicate Heap(s: seq<int>, n: nat)
    requires n <= |s|
  {
    HeapFrom(s, n, 0)
  }

  /** Node `k` lies in the subtree rooted at node `l`. */
  predicate InSubtree(k: nat, l: nat)
    decreases k
  {
    k == l || (k > l && InSubtree(Parent(k), l))
  }

  /** The number of levels below node `i` in a heap of size `n`, following the left spine. */
  function Levels(i: nat, n: nat): nat
    decreases n - i
  {
    if 2 * i + 1 >= n then 0 else 1 + Levels(2 * i + 1, n)
  }

  /** `Levels(i, n)` is the height of the subtree at `i`: the largest `h` with `(i + 1) * 2^h <= n`. */
  lemma {:induction false} LevelsHeight(i: nat, n: nat)
    requires i < n
    ensures (i + 1) * Pow2(Levels(i, n)) <= n < (i + 1) * Pow2(Levels(i, n) + 1)
    decreases n - i
  {
    if 2 * i + 1 < n {
      var h := Levels(2 * i + 1, n);
      LevelsHeight(2 * i + 1, n);
      Twice(i + 1, Pow2(h));
      Twice(i + 1, Pow2(h + 1));
    }
  }

  lemma Twice(a: nat, p: nat)
    ensures (2 * a) * p == a * (2 * p)
  {
  }

  /** No subtree is taller than the whole heap: `Levels(i, n) <= floor(log2 n)`. */
  lemma LevelsAtMostLog(i: nat, n: nat)
    ensures Levels(i, n) <= Log2(n)
  {
    if i < n {
      LevelsHeight(i, n);
      assert Pow2(Levels(i, n)) <= (i + 1) * Pow2(Levels(i, n));
      PowBelow(n, Levels(i, n));
    }
  }

  /** Nodes further right are no taller. */
  lemma {:induction false} LevelsAntitone(j: nat, k: nat, n: nat)
    requires j <= k
    ensures Levels(k, n) <= Levels(j, n)
    decreases n - j
  {
    if 2 * k + 1 < n {
      LevelsAntitone(2 * j + 1, 2 * k + 1, n);
    }
  }

  /** A child inside the heap has at least one level fewer than its parent. */
  lemma ChildLevels(i: nat, l: nat, n: nat)
    requires (l == 2 * i + 1 || l == 2 * i + 2) && l < n
    ensures Levels(l, n) + 1 <= Levels(i, n)
  {
    LevelsAntitone(2 * i + 1, l, n);
  }

  /** The subtree of a child of `i` lies inside the subtree of `i`. */
  lemma {:induction false} SubtreeOfChild(k: nat, l: nat, i: nat)
    requires l > 0 && Parent(l) == i && InSubtree(k, l)
    ensures InSubtree(k, i)
    decreases k
  {
    if k != l {
      SubtreeOfChild(Parent(k), l, i);
    }
  }

  /** `r` agrees with `s` outside the subtree of `i` within the heap `[0, n)`. */
  ghost predicate Untouched(s: seq<int>, r: seq<int>, n: nat, i: nat) {
    |r| == |s| && forall k :: 0 <= k < |s| && (k >= n || !InSubtree(k, i)) ==> r[k] == s[k]
  }

  /** `r[i]` is the largest of `s[i]` and the children of `i` inside the heap `[0, n)`. */
  ghost predicate FamilyMax(s: seq<int>, r: seq<int>, n: nat, i: nat)
    requires n <= |s| == |r|
  {
    i < n ==>
      && r[i] >= s[i]
      && (2 * i + 1 < n ==> r[i] >= s[2 * i + 1])
      && (2 * i + 2 < n ==> r[i] >= s[2 * i + 2])
      && (r[i] == s[i] || (2 * i + 1 < n && r[i] == s[2 * i + 1]) || (2 * i + 2 < n && r[i] == s[2 * i + 2]))
  }

  /**
   * `heapify(arr, n, i)`: sifts `arr[i]` down inside `arr[0..n)`, returning
   * the comparisons made. It touches only the subtree of `i` within the heap,
   * puts the largest of the node and its children at `i`, makes the subtree
   * at `i` a heap when the subtrees below it already were, and makes at most
   * two comparisons per level it descends.
   */
  method Heapify(s: seq<int>, n: nat, i: nat) returns (r: seq<int>, comparisons: nat)
    requires n <= |s|
    ensures multiset(r) == multiset(s) && Untouched(s, r, n, i) && FamilyMax(s, r, n, i)
    ensures HeapFrom(s, n, i + 1) ==> HeapFrom(r, n, i)
    ensures comparisons <= 2 * Levels(i, n)
    ensures 2 * i + 1 >= n ==> r == s && comparisons == 0
    decreases n - i
  {
    var largest;
    largest, comparisons := Largest(s, n, i);
    r := s;
    if largest != i {
      var s1 := s[i := s[largest]][largest := s[i]];
      ExchangeMultiset(s, i, largest);
      var c;
      r, c := Heapify(s1, n, largest);
      SiftCase(s, s1, r, n, i, largest);
      ChildLevels(i, largest, n);
      comparisons := comparisons + c;
    } else {
      InPlace(s, n, i);
    }
  }

  /** When `s[i]` is at least its children, `heapify` leaves everything as it is. */
  lemma InPlace(s: seq<int>, n: nat, i: nat)
    requires n <= |s|
    requires 2 * i + 1 < n ==> s[i] >= s[2 * i + 1]
    requires 2 * i + 2 < n ==> s[i] >= s[2 * i + 2]
    ensures Untouched(s, s, n, i) && FamilyMax(s, s, n, i)
    ensures HeapFrom(s, n, i + 1) ==> HeapFrom(s, n, i)
  {
  }

  /**
   * The two child tests of `heapify`: the index of the largest of `s[i]` and
   * its children inside the heap, the earlier one on ties, with one
   * comparison per child present.
   */
  method Largest(s: seq<int>, n: nat, i: nat) returns (largest: nat, comparisons: nat)
    requires n <= |s|
    ensures largest == i || (largest == 2 * i + 1 < n) || (largest == 2 * i + 2 < n)
    ensures largest != i ==> s[largest] > s[i]
    ensures 2 * i + 1 < n ==> s[largest] >= s[2 * i + 1]
    ensures 2 * i + 2 < n ==> s[largest] >= s[2 * i + 2]
    ensures comparisons <= 2 && (2 * i + 1 >= n ==> comparisons == 0)
  {
    largest := i;
    var left, right := 2 * i + 1, 2 * i + 2;
    comparisons := 0;
    if left < n {
      comparisons := comparisons + 1;
      if s[left] > s[largest] {
        largest := left;
      }
    }
    if right < n {
      comparisons := comparisons + 1;
      if s[right] > s[largest] {
        largest := right;
      }
    }
  }

  /**
   * The recursive case of `heapify`: `s[l]` is the largest of `s[i]` and its
   * children; after exchanging `s[i]` with it and sifting the subtree at `l`
   * into `r`, the frame, the maximum at `i` and the heap property carry over
   * from `l` to `i`.
   */
  lemma SiftCase(s: seq<int>, s1: seq<int>, r: seq<int>, n: nat, i: nat, l: nat)
    requires n <= |s| && i < l < n && (l == 2 * i + 1 || l == 2 * i + 2)
    requires s[l] > s[i]
    requires 2 * i + 1 < n ==> s[l] >= s[2 * i + 1]
    requires 2 * i + 2 < n ==> s[l] >= s[2 * i + 2]
    requires s1 == s[i := s[l]][l := s[i]]
    requires Untouched(s1, r, n, l) && FamilyMax(s1, r, n, l)
    requires HeapFrom(s1, n, l + 1) ==> HeapFrom(r, n, l)
    ensures Untouched(s, r, n, i) && FamilyMax(s, r, n, i)
    ensures HeapFrom(s, n, i + 1) ==> HeapFrom(r, n, i)
  {
    SiftFrame(s, s1, r, n, i, l);
    if HeapFrom(s, n, i + 1) {
      SwapKeepsLower(s, s1, n, i, l);
      SiftHeap(s, s1, r, n, i, l);
    }
  }

  /**
   * The frame of the recursive case of `heapify`: everything outside the
   * subtree of `i` is as it was, and `i` holds the old `s[l]`.
   */
  lemma SiftFrame(s: seq<int>, s1: seq<int>, r: seq<int>, n: nat, i: nat, l: nat)
    requires n <= |s| && i < l < n && (l == 2 * i + 1 || l == 2 * i + 2)
    requires s1 == s[i := s[l]][l := s[i]] && Untouched(s1, r, n, l)
    ensures Untouched(s, r, n, i) && r[i] == s[l]
  {
    forall k | 0 <= k < |s| && (k >= n || !InSubtree(k, i))
      ensures r[k] == s[k]
    {
      if k < n && InSubtree(k, l) {
        SubtreeOfChild(k, l, i);
      }
    }
  }

  /** Exchanging `s[i]` with its child `s[l]` disturbs no parent-child pair whose parent lies beyond `l`. */
  lemma SwapKeepsLower(s: seq<int>, s1: seq<int>, n: nat, i: nat, l: nat)
    requires n <= |s| && i < l < n && s1 == s[i := s[l]][l := s[i]]
    requires HeapFrom(s, n, i + 1)
    ensures HeapFrom(s1, n, l + 1)
  {
  }

  /**
   * The heap property in the recursive case of `heapify`: the sift at `l`
   * brought one of `s[i]` and the children of `l` up to `l`, all of them at
   * most `s[l]`, which now sits at `i`; so the subtree at `i` is a heap.
   */
  lemma SiftHeap(s: seq<int>, s1: seq<int>, r: seq<int>, n: nat, i: nat, l: nat)
    requires n <= |s| && i < l < n && (l == 2 * i + 1 || l == 2 * i + 2)
    requires s[l] > s[i]
    requires 2 * i + 1 < n ==> s[l] >= s[2 * i + 1]
    requires 2 * i + 2 < n ==> s[l] >= s[2 * i + 2]
    requires s1 == s[i := s[l]][l := s[i]] && Untouched(s1, r, n, l) && FamilyMax(s1, r, n, l)
    requires HeapFrom(s, n, i + 1) && HeapFrom(r, n, l)
    ensures HeapFrom(r, n, i)
  {
    assert r[i] == s[l] by { assert !InSubtree(i, l); }
    forall c | 0 < c < n && Parent(c) >= i
      ensures r[Parent(c)] >= r[c]
    {
      var p := Parent(c);
      if p == i {
        if c == l {
          assert 2 * l + 1 < n ==> s[l] >= s[2 * l + 1] by { assert Parent(2 * l + 1) == l; }
          assert 2 * l + 2 < n ==> s[l] >= s[2 * l + 2] by { assert Parent(2 * l + 2) == l; }
        } else {
          assert !InSubtree(c, l);
        }
      } else if p < l {
        assert !InSubtree(p, l);
        assert !InSubtree(c, l);
      }
    }
  }

  /** The root of a heap is its largest entry. */
  lemma {:induction false} RootIsMax(s: seq<int>, n: nat, k: nat)
    requires k < n <= |s| && Heap(s, n)
    ensures s[0] >= s[k]
    decreases k
  {
    if k > 0 {
      RootIsMax(s, n, Parent(k));
    }
  }

  /** The first loop of `heap_sort`: `heapify` from the last internal node back to the root. */
  method BuildHeap(a: seq<int>) returns (r: seq<int>, comparisons: nat)
    ensures multiset(r) == multiset(a) && |r| == |a| && Heap(r, |r|)
    ensures comparisons <= |a| * Log2(|a|)
  {
    var n := |a|;
    r, comparisons := a, 0;
    ghost var height := Log2(n);
    ghost var budget := 0;
    var i := n / 2;
    while i > 0
      invariant 0 <= i <= n / 2 && |r| == n && multiset(r) == multiset(a)
      invariant HeapFrom(r, n, i)
      invariant comparisons <= budget == (n / 2 - i) * (2 * height)
    {
      i := i - 1;
      var c;
      r, c := Heapify(r, n, i);
      LevelsAtMostLog(i, n);
      comparisons := comparisons + c;
      MulStep(n / 2 - (i + 1), 2 * height);
      budget := budget + 2 * height;
    }
    HalfTwice(n, height);
  }

  lemma MulStep(k: nat, h: nat)
    ensures (k + 1) * h == k * h + h
  {
  }

  /** `(n / 2) * (2 * h) <= n * h`. */
  lemma HalfTwice(n: nat, h: nat)
    ensures (n / 2) * (2 * h) <= n * h
  {
    assert (n / 2) * (2 * h) == (2 * (n / 2)) * h;
    assert 2 * (n / 2) <= n;
  }

  /**
   * One step of the second loop of `heap_sort`: the root of the heap
   * `r[0..i]`, its largest entry, is swapped behind it to position `i` and
   * the heap `r[0..i)` is restored; the sorted tail grows by one.
   */
  method ExtractMax(s: seq<int>, i: nat) returns (r: seq<int>, comparisons: nat)
    requires 0 < i < |s| && Heap(s, i + 1) && SortedFrom(s, i + 1) && SplitAt(s, i + 1)
    ensures multiset(r) == multiset(s) && |r| == |s|
    ensures Heap(r, i) && SortedFrom(r, i) && SplitAt(r, i)
    ensures comparisons <= 2 * Log2(|s|)
  {
    var s1 := s[0 := s[i]][i := s[0]];
    ExchangeMultiset(s, 0, i);
    SwapRoot(s, s1, i);
    r, comparisons := Heapify(s1, i, 0);
    Reheaped(s1, r, i);
    LevelsAtMostLog(0, i);
    Log2Monotone(i, |s|);
  }

  /** Swapping the root of the heap `s[0..i]` to position `i` extends the sorted tail and leaves a heap below the root. */
  lemma SwapRoot(s: seq<int>, s1: seq<int>, i: nat)
    requires 0 < i < |s| && Heap(s, i + 1) && SortedFrom(s, i + 1) && SplitAt(s, i + 1)
    requires s1 == s[0 := s[i]][i := s[0]]
    ensures HeapFrom(s1, i, 1) && SortedFrom(s1, i) && SplitAt(s1, i)
  {
    forall k | 0 <= k <= i
      ensures s[0] >= s[k]
    {
      RootIsMax(s, i + 1, k);
    }
  }

  /** Re-heaping the prefix `[0, i)` keeps it below the sorted tail, because the new root came from near the old one. */
  lemma Reheaped(s1: seq<int>, r: seq<int>, i: nat)
    requires 0 < i < |s1| && SortedFrom(s1, i) && SplitAt(s1, i)
    requires Untouched(s1, r, i, 0) && FamilyMax(s1, r, i, 0) && Heap(r, i)
    ensures SortedFrom(r, i) && SplitAt(r, i)
  {
    forall k | 0 <= k < i
      ensures r[k] <= r[0]
    {
      RootIsMax(r, i, k);
    }
    assert forall k :: i <= k < |s1| ==> r[k] == s1[k];
  }

  /** `heap_sort(arr)`: the sorted array together with the comparisons of all `heapify` calls. */
  method HeapSort(a: seq<int>) returns (r: seq<int>, comparisons: nat)
    ensures Sorted(r) && multiset(r) == multiset(a)
    ensures comparisons <= 3 * |a| * Log2(|a|)
  {
    var n := |a|;
    r, comparisons := BuildHeap(a);
    if n == 0 {
      return;
    }
    ghost var height := Log2(n);
    ghost var budget := n * height;
    var i := n - 1;
    while i > 0
      invariant 0 <= i < n && |r| == n && multiset(r) == multiset(a)
      invariant Heap(r, i + 1) && SortedFrom(r, i + 1) && SplitAt(r, i + 1)
      invariant comparisons <= budget == n * height + (n - 1 - i) * (2 * height)
    {
      var c;
      r, c := ExtractMax(r, i);
      comparisons := comparisons + c;
      MulStep(n - 1 - i, 2 * height);
      budget := budget + 2 * height;
      i := i - 1;
    }
    ThreeTimes(n, height);
  }

  /** `n * h + (n - 1) * (2 * h) <= 3 * n * h`. */
  lemma ThreeTimes(n: nat, h: nat)
    requires n >= 1
    ensures n * h + (n - 1) * (2 * h) <= 3 * n * h
  {
    assert (n - 1) * (2 * h) == 2 * (n * h) - 2 * h;
    assert 3 * n * h == 3 * (n * h);
  }
}
