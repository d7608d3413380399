/**
 * Counting facts about sequences of small natural numbers, shared by the
 * tour checks of the travelling-salesman solver and the walk shortening of
 * Bellman-Ford.
 */
module Pigeonhole {

  /** No value occurs twice in `s`. */
  predicate Distinct(s: seq<int>) {
    forall j, k :: 0 <= j < k < |s| ==> s[j] != s[k]
  }

  /** Every entry of `s` lies in `[0, n)`. */
  predicate Below(s: seq<int>, n: int) {
    forall j :: 0 <= j < |s| ==> 0 <= s[j] < n
  }

  /** The set `{0, ..., n - 1}`. */
  function Range(n: nat): (r: set<int>)
    ensures |r| == n
    ensures forall v :: v in r <==> 0 <= v < n
  {
    if n == 0 then {} else Range(n - 1) + {n - 1}
  }

  /** A duplicate-free sequence has as many distinct values as entries. */
  lemma {:induction false} DistinctCard(s: seq<int>)
    requires Distinct(s)
    ensures |set j | 0 <= j < |s| :: s[j]| == |s|
  {
    if |s| > 0 {
      var t := s[..|s| - 1];
      assert Distinct(t);
      DistinctCard(t);
      var st := set j | 0 <= j < |t| :: t[j];
      var ss := set j | 0 <= j < |s| :: s[j];
      assert ss == st + {s[|s| - 1]};
      assert s[|s| - 1] !in st;
    }
  }

  /**
   * A duplicate-free sequence of values below `n` has at most `n` entries,
   * and when it has exactly `n` it takes every value below `n`.
   */
  lemma DistinctBelow(s: seq<int>, n: nat)
    requires Distinct(s) && Below(s, n)
    ensures |s| <= n
    ensures |s| == n ==> forall v :: 0 <= v < n ==> v in s
  {
    var ss := set j | 0 <= j < |s| :: s[j];
    DistinctCard(s);
    assert ss <= Range(n);
    assert |ss| <= |Range(n)| by { SubsetCard(ss, Range(n)); }
    if |s| == n {
      assert |ss| == |Range(n)|;
      SubsetEqualCard(ss, Range(n));
      forall v | 0 <= v < n
        ensures v in s
      {
        assert v in Range(n);
        assert v in ss;
      }
    }
  }

  /** A sequence of values below `n` that is longer than `n` repeats a value. */
  lemma Repeat(s: seq<int>, n: nat) returns (j: nat, k: nat)
    requires Below(s, n) && |s| > n
    ensures j < k < |s| && s[j] == s[k]
  {
    if Distinct(s) {
      DistinctBelow(s, n);
      assert false;
    }
    j, k :| 0 <= j < k < |s| && s[j] == s[k];
  }

  lemma SubsetCard(a: set<int>, b: set<int>)
    requires a <= b
    ensures |a| <= |b|
  {
    assert b == a + (b - a);
  }

  lemma SubsetEqualCard(a: set<int>, b: set<int>)
    requires a <= b && |a| == |b|
    ensures a == b
  {
    assert b == a + (b - a);
    assert |b - a| == 0;
  }

  /** Appending a new value keeps a sequence duplicate-free. */
  lemma DistinctAppend(s: seq<int>, x: int)
    requires Distinct(s) && x !in s
    ensures Distinct(s + [x])
  {
    var t := s + [x];
    forall j, k | 0 <= j < k < |t|
      ensures t[j] != t[k]
    {
      assert t[j] == s[j];
      if k < |s| {
        assert t[k] == s[k];
      }
    }
  }
}
