/**
 * Bellman-Ford single-source shortest paths (Practical-6). The three ports
 * run the same algorithm: every vertex starts at infinity except the source
 * at 0, all edges are relaxed in input order `V - 1` times, and one more
 * sweep over the edges reports a negative cycle as soon as some edge could
 * still be relaxed.
 */
module BellmanFord {
  import opened Walks

  /** A tentative distance; `Inf` is Python's `float('inf')`, `INT_MAX` in Java and C++. */
  datatype Dist = Fin(d: int) | Inf

  /** `a` is strictly shorter than `b`; every finite distance is shorter than `Inf`. */
  predicate Shorter(a: Dist, b: Dist) {
    a.Fin? && (b.Inf? || a.d < b.d)
  }

  /** `a` is no longer than `b`. */
  predicate NoLonger(a: Dist, b: Dist) {
    b.Inf? || (a.Fin? && a.d <= b.d)
  }

  /** `a` is a finite distance of at most `x`. */
  predicate Within(a: Dist, x: int) {
    a.Fin? && a.d <= x
  }

  /** The source is at distance 0, every other vertex at infinity. */
  function Init(n: nat, source: int): (dist: seq<Dist>)
    requires 0 <= source < n
    ensures |dist| == n && dist[source] == Fin(0)
    ensures forall v :: 0 <= v < n && v != source ==> dist[v] == Inf
  {
    seq(n, v requires 0 <= v < n => if v == source then Fin(0) else Inf)
  }

  /** The relaxation test: the source of `e` has a distance, and going through `e` is shorter. */
  predicate Relaxable(dist: seq<Dist>, e: Edge)
    requires 0 <= e.src < |dist| && 0 <= e.dest < |dist|
  {
    dist[e.src].Fin? && Shorter(Fin(dist[e.src].d + e.weight), dist[e.dest])
  }

  /**
   * Relaxing `e`: only the distance of `e.dest` may change, it never grows,
   * and afterwards it is no longer than the way through `e`.
   */
  function Relax(dist: seq<Dist>, e: Edge): (r: seq<Dist>)
    requires 0 <= e.src < |dist| && 0 <= e.dest < |dist|
    ensures |r| == |dist|
    ensures forall v :: 0 <= v < |dist| ==> NoLonger(r[v], dist[v])
    ensures forall v :: 0 <= v < |dist| && v != e.dest ==> r[v] == dist[v]
    ensures dist[e.src].Fin? ==> Within(r[e.dest], dist[e.src].d + e.weight)
  {
    if Relaxable(dist, e) then dist[e.dest := Fin(dist[e.src].d + e.weight)] else dist
  }

  /** A sweep relaxing the edges of `es` one after the other, in order. */
  function Pass(dist: seq<Dist>, es: seq<Edge>): (r: seq<Dist>)
    requires ValidEdges(es, |dist|)
    ensures |r| == |dist|
    decreases |es|
  {
    if es == [] then dist
    else
      PrefixValid(es, |es| - 1, |dist|);
      Relax(Pass(dist, es[..|es| - 1]), es[|es| - 1])
  }

  /** `k` sweeps over all the edges. */
  function Rounds(dist: seq<Dist>, edges: seq<Edge>, k: nat): (r: seq<Dist>)
    requires ValidEdges(edges, |dist|)
    ensures |r| == |dist|
  {
    if k == 0 then dist else Pass(Rounds(dist, edges, k - 1), edges)
  }

  /** The distances after the `V - 1` sweeps. */
  function Final(edges: seq<Edge>, n: nat, source: int): (dist: seq<Dist>)
    requires ValidEdges(edges, n) && 0 <= source < n
    ensures |dist| == n
  {
    Rounds(Init(n, source), edges, n - 1)
  }

  lemma PrefixValid(es: seq<Edge>, j: nat, n: nat)
    requires ValidEdges(es, n) && j <= |es|
    ensures ValidEdges(es[..j], n) && ValidEdges(es[j..], n)
  {
    forall e | e in es[..j]
      ensures e in es
    {
      var k :| 0 <= k < j && es[..j][k] == e;
      assert es[k] == e;
    }
    forall e | e in es[j..]
      ensures e in es
    {
      var k :| 0 <= k < |es| - j && es[j..][k] == e;
      assert es[j + k] == e;
    }
  }

  /** A sweep never lengthens a distance. */
  lemma {:induction false} PassLowers(dist: seq<Dist>, es: seq<Edge>)
    requires ValidEdges(es, |dist|)
    ensures forall v :: 0 <= v < |dist| ==> NoLonger(Pass(dist, es)[v], dist[v])
    decreases |es|
  {
    if es != [] {
      PrefixValid(es, |es| - 1, |dist|);
      PassLowers(dist, es[..|es| - 1]);
    }
  }

  /** Sweeping `a + b` is sweeping `a`, then `b`. */
  lemma {:induction false} PassAppend(dist: seq<Dist>, a: seq<Edge>, b: seq<Edge>)
    requires ValidEdges(a, |dist|) && ValidEdges(b, |dist|) && ValidEdges(a + b, |dist|)
    ensures Pass(dist, a + b) == Pass(Pass(dist, a), b)
    decreases |b|
  {
    if b == [] {
      assert a + b == a;
    } else {
      var b' := b[..|b| - 1];
      assert (a + b)[..|a + b| - 1] == a + b';
      PrefixValid(b, |b| - 1, |dist|);
      PrefixValid(a + b, |a + b| - 1, |dist|);
      PassAppend(dist, a, b');
    }
  }

  /**
   * After a sweep over `edges`, the distance of the end of any edge `e` is
   * no longer than the way through `e` from the distance its start had
   * before the sweep.
   */
  lemma PassCovers(dist: seq<Dist>, edges: seq<Edge>, e: Edge)
    requires ValidEdges(edges, |dist|) && e in edges && dist[e.src].Fin?
    ensures Within(Pass(dist, edges)[e.dest], dist[e.src].d + e.weight)
  {
    var j :| 0 <= j < |edges| && edges[j] == e;
    var a, b := edges[..j + 1], edges[j + 1..];
    assert edges == a + b;
    PrefixValid(edges, j + 1, |dist|);
    PrefixValid(a, j, |dist|);
    assert a[..j] == edges[..j];
    PassLowers(dist, edges[..j]);
    var before := Pass(dist, edges[..j]);
    assert Pass(dist, a) == Relax(before, e);
    PassAppend(dist, a, b);
    PassLowers(Pass(dist, a), b);
  }

  /** Every finite distance is the weight of some walk from the source. */
  ghost predicate Sound(edges: seq<Edge>, source: int, dist: seq<Dist>) {
    forall v :: 0 <= v < |dist| && dist[v].Fin? ==>
      exists w :: IsWalk(edges, source, v, w) && Weight(w) == dist[v].d
  }

  /** Relaxing an edge of the graph keeps every distance the weight of a walk. */
  lemma RelaxSound(edges: seq<Edge>, source: int, dist: seq<Dist>, e: Edge)
    requires e in edges && 0 <= e.src < |dist| && 0 <= e.dest < |dist|
    requires Sound(edges, source, dist)
    ensures Sound(edges, source, Relax(dist, e))
  {
    if Relaxable(dist, e) {
      var w :| IsWalk(edges, source, e.src, w) && Weight(w) == dist[e.src].d;
      WalkExtend(edges, source, w, e);
    }
  }

  lemma {:induction false} PassSound(edges: seq<Edge>, source: int, dist: seq<Dist>, es: seq<Edge>)
    requires ValidEdges(es, |dist|) && (forall e :: e in es ==> e in edges)
    requires Sound(edges, source, dist)
    ensures Sound(edges, source, Pass(dist, es))
    decreases |es|
  {
    if es != [] {
      PrefixValid(es, |es| - 1, |dist|);
      var pre := es[..|es| - 1];
      forall e | e in pre
        ensures e in edges
      {
        var k :| 0 <= k < |pre| && pre[k] == e;
        assert es[k] == e;
      }
      PassSound(edges, source, dist, pre);
      RelaxSound(edges, source, Pass(dist, pre), es[|es| - 1]);
    }
  }

  lemma {:induction false} RoundsSound(edges: seq<Edge>, n: nat, source: int, k: nat)
    requires ValidEdges(edges, n) && 0 <= source < n
    ensures Sound(edges, source, Rounds(Init(n, source), edges, k))
  {
    if k == 0 {
      assert IsWalk(edges, source, source, []) && Weight([]) == 0;
    } else {
      RoundsSound(edges, n, source, k - 1);
      PassSound(edges, source, Rounds(Init(n, source), edges, k - 1), edges);
    }
  }

  /** The end of a walk from a vertex below `n` along valid edges is below `n`. */
  lemma EndBelow(edges: seq<Edge>, n: nat, x: int, v: int, w: seq<Edge>)
    requires ValidEdges(edges, n) && 0 <= x < n && IsWalk(edges, x, v, w)
    ensures 0 <= v < n
  {
    if w != [] {
      assert w[|w| - 1] in edges;
    }
  }

  /**
   * After `k` sweeps the distance of `v` is no longer than any walk from
   * the source to `v` of at most `k` edges.
   */
  lemma {:induction false} RoundsBound(edges: seq<Edge>, n: nat, source: int, k: nat, v: int, w: seq<Edge>)
    requires ValidEdges(edges, n) && 0 <= source < n && 0 <= v < n
    requires IsWalk(edges, source, v, w) && |w| <= k
    ensures Within(Rounds(Init(n, source), edges, k)[v], Weight(w))
  {
    var init := Init(n, source);
    if k > 0 {
      var before := Rounds(init, edges, k - 1);
      if |w| < k {
        RoundsBound(edges, n, source, k - 1, v, w);
        PassLowers(before, edges);
      } else {
        var p, e := w[..|w| - 1], w[|w| - 1];
        assert w == p + [e];
        WalkSplit(edges, source, v, w, |w| - 1);
        assert e in edges;
        RoundsBound(edges, n, source, k - 1, e.src, p);
        PassCovers(before, edges, e);
      }
    }
  }

  /** Whether some walk leads from `source` to `v`. */
  ghost predicate Reachable(edges: seq<Edge>, source: int, v: int) {
    exists w :: IsWalk(edges, source, v, w)
  }

  /** A vertex reachable from the source ends with a finite distance. */
  lemma FinalReaches(edges: seq<Edge>, n: nat, source: int, v: int, w: seq<Edge>)
    requires ValidEdges(edges, n) && 0 <= source < n && 0 <= v < n
    requires IsWalk(edges, source, v, w)
    ensures Final(edges, n, source)[v].Fin?
  {
    var w' := Shorten(edges, n, source, v, w);
    RoundsBound(edges, n, source, n - 1, v, w');
  }

  /** With no negative cycle reachable, the final distance of `v` is no longer than any walk to `v`. */
  lemma FinalLeast(edges: seq<Edge>, n: nat, source: int, v: int, w: seq<Edge>)
    requires ValidEdges(edges, n) && 0 <= source < n && 0 <= v < n
    requires IsWalk(edges, source, v, w) && NoNegativeCycle(edges, source)
    ensures Within(Final(edges, n, source)[v], Weight(w))
  {
    var w' := Shorten(edges, n, source, v, w);
    RoundsBound(edges, n, source, n - 1, v, w');
  }

  /** No edge can be relaxed any more. */
  predicate Settled(edges: seq<Edge>, dist: seq<Dist>)
    requires ValidEdges(edges, |dist|)
  {
    forall e :: e in edges ==> !Relaxable(dist, e)
  }

  /** With no negative cycle reachable, the final distances are settled. */
  lemma NoCycleSettled(edges: seq<Edge>, n: nat, source: int)
    requires ValidEdges(edges, n) && 0 <= source < n && NoNegativeCycle(edges, source)
    ensures Settled(edges, Final(edges, n, source))
  {
    var dist := Final(edges, n, source);
    RoundsSound(edges, n, source, n - 1);
    forall e | e in edges && dist[e.src].Fin?
      ensures !Relaxable(dist, e)
    {
      var w :| IsWalk(edges, source, e.src, w) && Weight(w) == dist[e.src].d;
      WalkExtend(edges, source, w, e);
      FinalLeast(edges, n, source, e.dest, w + [e]);
    }
  }

  /** Along a walk over settled distances, the end is no further than the start plus the walk's weight. */
  lemma {:induction false} Telescope(edges: seq<Edge>, dist: seq<Dist>, x: int, y: int, c: seq<Edge>)
    requires ValidEdges(edges, |dist|) && Settled(edges, dist)
    requires 0 <= x < |dist| && dist[x].Fin? && IsWalk(edges, x, y, c)
    ensures 0 <= y < |dist| && Within(dist[y], dist[x].d + Weight(c))
    decreases |c|
  {
    if c != [] {
      var p, e := c[..|c| - 1], c[|c| - 1];
      WalkSplit(edges, x, y, c, |c| - 1);
      assert e in edges;
      Telescope(edges, dist, x, e.src, p);
      assert !Relaxable(dist, e);
    }
  }

  /** Settled final distances leave no negative cycle reachable. */
  lemma SettledNoCycle(edges: seq<Edge>, n: nat, source: int)
    requires ValidEdges(edges, n) && 0 <= source < n && Settled(edges, Final(edges, n, source))
    ensures NoNegativeCycle(edges, source)
  {
    var dist := Final(edges, n, source);
    forall x, a, c | IsWalk(edges, source, x, a) && IsWalk(edges, x, x, c)
      ensures Weight(c) >= 0
    {
      EndBelow(edges, n, source, x, a);
      FinalReaches(edges, n, source, x, a);
      Telescope(edges, dist, x, x, c);
    }
  }

  /** The inner loop: one sweep over the edges in input order. */
  method Sweep(edges: seq<Edge>, dist: seq<Dist>) returns (r: seq<Dist>)
    requires ValidEdges(edges, |dist|)
    ensures r == Pass(dist, edges)
  {
    r := dist;
    for j := 0 to |edges|
      invariant ValidEdges(edges[..j], |dist|)
      invariant r == Pass(dist, edges[..j])
    {
      TakeValid(edges, j + 1, |dist|);
      SweepStep(edges, dist, j);
      var e := edges[j];
      if r[e.src] != Inf && Shorter(Fin(r[e.src].d + e.weight), r[e.dest]) {
        r := r[e.dest := Fin(r[e.src].d + e.weight)];
      }
    }
    assert edges[..|edges|] == edges;
  }

  /** Sweeping one edge further relaxes that edge on the distances swept so far. */
  lemma SweepStep(edges: seq<Edge>, dist: seq<Dist>, j: nat)
    requires j < |edges| && ValidEdges(edges[..j + 1], |dist|)
    ensures ValidEdges(edges[..j], |dist|)
    ensures 0 <= edges[j].src < |dist| && 0 <= edges[j].dest < |dist|
    ensures Pass(dist, edges[..j + 1]) == Relax(Pass(dist, edges[..j]), edges[j])
  {
    var p := edges[..j + 1];
    TakeValid(p, j, |dist|);
    assert p[..j] == edges[..j] && p[j] == edges[j];
    assert p[j] in p;
  }

  /** A prefix of valid edges is valid. */
  lemma TakeValid(es: seq<Edge>, j: nat, n: nat)
    requires ValidEdges(es, n) && j <= |es|
    ensures ValidEdges(es[..j], n)
  {
    forall e | e in es[..j]
      ensures e in es
    {
      var k :| 0 <= k < j && es[..j][k] == e;
      assert es[k] == e;
    }
  }

  /** The final check: stops at the first edge that can still be relaxed. */
  method FindRelaxable(edges: seq<Edge>, dist: seq<Dist>) returns (hasNegativeCycle: bool)
    requires ValidEdges(edges, |dist|)
    ensures hasNegativeCycle <==> !Settled(edges, dist)
  {
    hasNegativeCycle := false;
    for j := 0 to |edges|
      invariant forall k :: 0 <= k < j ==> !Relaxable(dist, edges[k])
    {
      var e := edges[j];
      if dist[e.src] != Inf && Shorter(Fin(dist[e.src].d + e.weight), dist[e.dest]) {
        hasNegativeCycle := true;
        break;
      }
    }
  }

  /**
   * `bellman_ford(edges, num_vertices, num_edges, source)`: the distances
   * and whether a negative cycle was found. Every finite distance is the
   * weight of a walk from the source, a vertex is at infinity exactly when
   * it cannot be reached, a negative cycle is reported exactly when one can
   * be reached, and otherwise every distance is the least weight of a walk.
   */
  method Run(edges: seq<Edge>, n: nat, source: int) returns (dist: seq<Dist>, hasNegativeCycle: bool)
    requires ValidEdges(edges, n) && 0 <= source < n
    ensures |dist| == n && dist == Final(edges, n, source)
    ensures hasNegativeCycle <==> !Settled(edges, dist)
    ensures hasNegativeCycle <==> !NoNegativeCycle(edges, source)
    ensures Sound(edges, source, dist)
    ensures forall v :: 0 <= v < n ==> (dist[v].Fin? <==> Reachable(edges, source, v))
    ensures !hasNegativeCycle ==>
      forall v, w :: 0 <= v < n && IsWalk(edges, source, v, w) ==> Within(dist[v], Weight(w))
  {
    dist := Init(n, source);
    for i := 0 to n - 1
      invariant dist == Rounds(Init(n, source), edges, i)
    {
      dist := Sweep(edges, dist);
    }
    hasNegativeCycle := FindRelaxable(edges, dist);
    Verdict(edges, n, source);
  }

  /** The facts `Run` reports about the final distances. */
  lemma Verdict(edges: seq<Edge>, n: nat, source: int)
    requires ValidEdges(edges, n) && 0 <= source < n
    ensures var dist := Final(edges, n, source);
      && (Settled(edges, dist) <==> NoNegativeCycle(edges, source))
      && Sound(edges, source, dist)
      && (forall v :: 0 <= v < n ==> (dist[v].Fin? <==> Reachable(edges, source, v)))
      && (NoNegativeCycle(edges, source) ==>
            forall v, w :: 0 <= v < n && IsWalk(edges, source, v, w) ==> Within(dist[v], Weight(w)))
  {
    var dist := Final(edges, n, source);
    RoundsSound(edges, n, source, n - 1);
    if NoNegativeCycle(edges, source) {
      NoCycleSettled(edges, n, source);
      forall v, w | 0 <= v < n && IsWalk(edges, source, v, w)
        ensures Within(dist[v], Weight(w))
      {
        FinalLeast(edges, n, source, v, w);
      }
    }
    if Settled(edges, dist) {
      SettledNoCycle(edges, n, source);
    }
    forall v | 0 <= v < n && Reachable(edges, source, v)
      ensures dist[v].Fin?
    {
      var w :| IsWalk(edges, source, v, w);
      FinalReaches(edges, n, source, v, w);
    }
  }
}
