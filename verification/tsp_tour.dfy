/**
 * Paths and closed tours over a cost matrix, as the travelling-salesman
 * solver (Practical-8) understands them: a zero entry off the diagonal means
 * "no direct edge" and is never travelled, and a tour starts and ends at
 * city 0 and visits every city exactly once in between.
 */
module TspTour {
  import opened Pigeonhole

  /** `cost` is an `n`-by-`n` matrix. */
  predicate Square(cost: seq<seq<int>>, n: nat) {
    |cost| == n && forall i :: 0 <= i < n ==> |cost[i]| == n
  }

  /** The first `len` entries of `path` are cities below `n`. */
  predicate InRange(path: seq<int>, len: nat, n: nat) {
    len <= |path| && forall j :: 0 <= j < len ==> 0 <= path[j] < n
  }

  /** Sum of the edge costs along the first `len` cities of `path`. */
  function PathWeight(cost: seq<seq<int>>, path: seq<int>, len: nat): int
    requires Square(cost, |cost|) && InRange(path, len, |cost|)
  {
    if len <= 1 then 0
    else PathWeight(cost, path, len - 1) + cost[path[len - 2]][path[len - 1]]
  }

  /** Every step along the first `len` cities of `path` uses an existing (nonzero) edge. */
  predicate NonzeroSteps(cost: seq<seq<int>>, path: seq<int>, len: nat)
    requires Square(cost, |cost|) && InRange(path, len, |cost|)
  {
    forall j :: 0 <= j < len - 1 ==> cost[path[j]][path[j + 1]] != 0
  }

  /** `path[..level]` is a simple path from city 0 along existing edges. */
  predicate SimplePrefix(cost: seq<seq<int>>, n: nat, path: seq<int>, level: nat) {
    && Square(cost, n)
    && 1 <= level && InRange(path, level, n)
    && path[0] == 0
    && Distinct(path[..level])
    && NonzeroSteps(cost, path, level)
  }

  /**
   * `t` is a closed tour: `n + 1` cities, first and last city 0, the first
   * `n` pairwise different, and every step along an existing edge.
   */
  predicate IsTour(cost: seq<seq<int>>, n: nat, t: seq<int>) {
    && Square(cost, n)
    && |t| == n + 1 && InRange(t, n + 1, n)
    && t[0] == 0 && t[n] == 0
    && Distinct(t[..n])
    && NonzeroSteps(cost, t, n + 1)
  }

  /** The cost of a tour: the sum of its `n` edges. */
  function TourCost(cost: seq<seq<int>>, t: seq<int>): int
    requires Square(cost, |cost|) && InRange(t, |t|, |cost|)
  {
    PathWeight(cost, t, |t|)
  }

  /** The weight of a path depends only on the cities it runs through. */
  lemma {:induction false} PathWeightPrefix(cost: seq<seq<int>>, a: seq<int>, b: seq<int>, len: nat)
    requires Square(cost, |cost|) && InRange(a, len, |cost|) && len <= |b| && a[..len] == b[..len]
    ensures InRange(b, len, |cost|)
    ensures PathWeight(cost, a, len) == PathWeight(cost, b, len)
  {
    assert forall j :: 0 <= j < len ==> a[j] == a[..len][j] == b[..len][j] == b[j];
    if len > 1 {
      assert a[..len - 1] == a[..len][..len - 1] == b[..len][..len - 1] == b[..len - 1];
      PathWeightPrefix(cost, a, b, len - 1);
    }
  }

  /** The first `n` cities of a tour are a permutation of `0 .. n - 1`. */
  lemma TourVisitsAll(cost: seq<seq<int>>, n: nat, t: seq<int>)
    requires IsTour(cost, n, t)
    ensures forall v :: 0 <= v < n ==> v in t[..n]
  {
    DistinctBelow(t[..n], n);
  }
}
