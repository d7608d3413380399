/**
 * Walks in a directed graph given as a list of weighted edges (the graphs
 * of the Bellman-Ford practical): what a walk is, its weight, and how a walk
 * that repeats a vertex is cut short.
 */
module Walks {
  import opened Pigeonhole

  datatype Edge = Edge(src: int, dest: int, weight: int)

  /** Every edge joins two of the vertices `0..n-1`. */
  predicate ValidEdges(edges: seq<Edge>, n: nat) {
    forall e :: e in edges ==> 0 <= e.src < n && 0 <= e.dest < n
  }

  /** `w` is a walk from `from` to `to` along edges of `edges`; the empty walk stays put. */
  predicate IsWalk(edges: seq<Edge>, from: int, to: int, w: seq<Edge>) {
    && (forall k :: 0 <= k < |w| ==> w[k] in edges)
    && (forall k :: 0 <= k < |w| - 1 ==> w[k].dest == w[k + 1].src)
    && (if w == [] then from == to else w[0].src == from && w[|w| - 1].dest == to)
  }

  function Weight(w: seq<Edge>): int {
    if w == [] then 0 else Weight(w[..|w| - 1]) + w[|w| - 1].weight
  }

  /** The vertex a walk from `from` has reached after its first `j` edges. */
  function At(from: int, w: seq<Edge>, j: int): int
    requires 0 <= j <= |w|
  {
    if j == 0 then from else w[j - 1].dest
  }

  /** The `|w| + 1` vertices a walk passes through, in order. */
  function Visits(from: int, w: seq<Edge>): (s: seq<int>)
    ensures |s| == |w| + 1 && forall j :: 0 <= j <= |w| ==> s[j] == At(from, w, j)
  {
    seq(|w| + 1, j requires 0 <= j <= |w| => At(from, w, j))
  }

  lemma {:induction false} WeightAppend(a: seq<Edge>, b: seq<Edge>)
    ensures Weight(a + b) == Weight(a) + Weight(b)
    decreases |b|
  {
    if b == [] {
      assert a + b == a;
    } else {
      assert (a + b)[..|a + b| - 1] == a + b[..|b| - 1];
      WeightAppend(a, b[..|b| - 1]);
    }
  }

  /** A walk to `y` followed by a walk from `y` is a walk. */
  lemma WalkAppend(edges: seq<Edge>, x: int, y: int, z: int, a: seq<Edge>, b: seq<Edge>)
    requires IsWalk(edges, x, y, a) && IsWalk(edges, y, z, b)
    ensures IsWalk(edges, x, z, a + b)
  {
    var w := a + b;
    forall k | 0 <= k < |w| - 1
      ensures w[k].dest == w[k + 1].src
    {
      if k + 1 < |a| {
        assert w[k] == a[k] && w[k + 1] == a[k + 1];
      } else if k + 1 == |a| {
        assert w[k] == a[|a| - 1] && w[k + 1] == b[0];
      } else {
        assert w[k] == b[k - |a|] && w[k + 1] == b[k + 1 - |a|];
      }
    }
    if a == [] {
      assert w == b;
    } else if b == [] {
      assert w == a;
    }
  }

  /** A walk cut after its first `j` edges gives a walk to `At(x, w, j)` and one from there. */
  lemma WalkSplit(edges: seq<Edge>, x: int, z: int, w: seq<Edge>, j: nat)
    requires IsWalk(edges, x, z, w) && j <= |w|
    ensures IsWalk(edges, x, At(x, w, j), w[..j])
    ensures IsWalk(edges, At(x, w, j), z, w[j..])
  {
  }

  /** Adding one edge out of the end of a walk. */
  lemma WalkExtend(edges: seq<Edge>, x: int, w: seq<Edge>, e: Edge)
    requires IsWalk(edges, x, e.src, w) && e in edges
    ensures IsWalk(edges, x, e.dest, w + [e]) && Weight(w + [e]) == Weight(w) + e.weight
  {
    assert (w + [e])[..|w|] == w;
  }

  /** The vertices of a walk from a vertex below `n` along valid edges are below `n`. */
  lemma VisitsBelow(edges: seq<Edge>, n: nat, x: int, z: int, w: seq<Edge>)
    requires ValidEdges(edges, n) && 0 <= x < n && IsWalk(edges, x, z, w)
    ensures Below(Visits(x, w), n)
  {
    var s := Visits(x, w);
    forall j | 0 <= j < |s|
      ensures 0 <= s[j] < n
    {
      if j > 0 {
        assert w[j - 1] in edges;
      }
    }
  }

  /**
   * No closed walk through a vertex reachable from `source` has negative
   * weight: no negative cycle can be reached from `source`.
   */
  ghost predicate NoNegativeCycle(edges: seq<Edge>, source: int) {
    forall x, a, c :: IsWalk(edges, source, x, a) && IsWalk(edges, x, x, c) ==> Weight(c) >= 0
  }

  /**
   * Every walk from `source` to `v` can be cut down to one of fewer than `n`
   * edges between the same vertices, and, with no negative cycle reachable,
   * to one that weighs no more.
   */
  lemma {:induction false} Shorten(edges: seq<Edge>, n: nat, source: int, v: int, w: seq<Edge>) returns (w': seq<Edge>)
    requires ValidEdges(edges, n) && 0 <= source < n && IsWalk(edges, source, v, w)
    ensures IsWalk(edges, source, v, w') && |w'| < n
    ensures NoNegativeCycle(edges, source) ==> Weight(w') <= Weight(w)
    decreases |w|
  {
    if |w| < n {
      w' := w;
    } else {
      VisitsBelow(edges, n, source, v, w);
      var j, k := Repeat(Visits(source, w), n);
      var a, b := CutCycle(edges, source, v, w, j, k);
      w' := Shorten(edges, n, source, v, a + b);
    }
  }

  /**
   * A walk that is at the same vertex after `j` and after `k` edges splits
   * into a walk `a` to that vertex, a closed walk from it, and a walk `b`
   * on to the end; `a + b` is a shorter walk.
   */
  lemma CutCycle(edges: seq<Edge>, source: int, v: int, w: seq<Edge>, j: nat, k: nat) returns (a: seq<Edge>, b: seq<Edge>)
    requires IsWalk(edges, source, v, w) && j < k <= |w| && At(source, w, j) == At(source, w, k)
    ensures IsWalk(edges, source, v, a + b) && |a + b| < |w|
    ensures NoNegativeCycle(edges, source) ==> Weight(a + b) <= Weight(w)
  {
    var x := At(source, w, j);
    a, b := w[..j], w[k..];
    var c := w[j..k];
    WalkSplit(edges, source, v, w, j);
    WalkSplit(edges, source, v, w, k);
    WalkSplit(edges, source, x, w[..k], j);
    assert w[..k][..j] == a && w[..k][j..] == c;
    WalkAppend(edges, source, x, v, a, b);
    assert w == a + c + b;
    if NoNegativeCycle(edges, source) {
      assert IsWalk(edges, source, x, a) && IsWalk(edges, x, x, c);
      DropCycle(a, c, b);
    }
  }

  /** Leaving out a part of non-negative weight makes a walk no heavier. */
  lemma DropCycle(a: seq<Edge>, c: seq<Edge>, b: seq<Edge>)
    requires Weight(c) >= 0
    ensures Weight(a + b) <= Weight(a + c + b)
  {
    WeightAppend(a, c);
    WeightAppend(a + c, b);
    WeightAppend(a, b);
  }
}
