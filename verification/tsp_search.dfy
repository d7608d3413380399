/**
 * Search engine and result holder of the branch-and-bound travelling-salesman
 * solver (Practical-8): `tsp_recursive` / `TSPRec` and `solve_tsp` / `TSP`.
 *
 * The ports keep the current path, the visited flags and the best tour in
 * globals and mutate them in place; here they are the fields of a `State`
 * value that every call receives and returns. A branch mutates the state,
 * recurses, and then restores the running weight, the bound and the visited
 * flags exactly as the ports do (the flags are rebuilt from the path prefix).
 */
module TspSearch {
  import opened Pigeonhole
  import opened TspBounds
  import opened TspTour

  /** The solver's inputs: the matrix, the number of cities and the port. */
  datatype Problem = Problem(cost: seq<seq<int>>, n: nat, dialect: Dialect) {
    /**
     * The matrix is `n`-by-`n`. Python and Java index `visited[0]` before
     * searching, so they need a city; C++ keeps its arrays at capacity 10.
     */
    predicate Valid() {
      && Square(cost, n)
      && (dialect != Cpp ==> n >= 1)
      && (dialect == Cpp ==> n <= 10)
    }
  }

  /**
   * The search globals: `path` is the `n + 1`-slot current path array,
   * `visited` the per-city flags, and `finalCost` / `finalPath` the best tour
   * recorded so far.
   */
  datatype State = State(path: seq<int>, visited: seq<bool>, finalCost: int, finalPath: seq<int>)

  /** What `visited` must hold when the path prefix is `path[..level]`. */
  function Mirror(path: seq<int>, level: nat, n: nat): (v: seq<bool>)
    requires level <= |path|
    ensures |v| == n && forall c :: 0 <= c < n ==> (v[c] <==> c in path[..level])
  {
    seq(n, c => c in path[..level])
  }

  /** The reset loop after a branch, from entry `j` on: set the flag of every city of `path[j..level]`. */
  function RebuildFrom(path: seq<int>, j: nat, level: nat, v: seq<bool>): (r: seq<bool>)
    requires j <= level && InRange(path, level, |v|)
    requires forall c :: 0 <= c < |v| ==> (v[c] <==> c in path[..j])
    ensures r == Mirror(path, level, |v|)
    decreases level - j
  {
    if j == level then v
    else
      assert path[..j + 1] == path[..j] + [path[j]];
      RebuildFrom(path, j + 1, level, v[path[j] := true])
  }

  /** The reset after a branch: clear every flag, then set the flag of each city of the path prefix `path[..level]`. */
  function Rebuild(path: seq<int>, level: nat, n: nat): (r: seq<bool>)
    requires InRange(path, level, n)
    ensures r == Mirror(path, level, n)
  {
    RebuildFrom(path, 0, level, seq(n, _ => false))
  }

  /**
   * A search node at depth `level`: the path prefix is a simple path from
   * city 0, `visited` mirrors it, and `weight` is its edge sum.
   */
  ghost predicate Node(p: Problem, s: State, level: nat, weight: int) {
    && p.Valid() && 1 <= level <= p.n
    && |s.path| == p.n + 1
    && SimplePrefix(p.cost, p.n, s.path, level)
    && s.visited == Mirror(s.path, level, p.n)
    && weight == PathWeight(p.cost, s.path, level)
  }

  /**
   * The result holder moved from `s` to `s'` only to a strictly cheaper
   * closed tour, whose recorded cost is its edge sum and which runs through
   * the prefix `s.path[..level]`.
   */
  ghost predicate Improves(p: Problem, s: State, s': State, level: nat)
    requires p.Valid()
  {
    && s'.finalCost <= s.finalCost
    && (s'.finalCost == s.finalCost ==> s'.finalPath == s.finalPath)
    && (s'.finalCost < s.finalCost ==>
          && IsTour(p.cost, p.n, s'.finalPath)
          && TourCost(p.cost, s'.finalPath) == s'.finalCost
          && level <= p.n && level <= |s.path|
          && s'.finalPath[..level] == s.path[..level])
  }

  /** The amount a branch from `last` to `i` subtracts from the bound. */
  function Deduction(p: Problem, level: nat, last: nat, i: nat): real
    requires p.Valid() && last < p.n && i < p.n
  {
    var top := Top(p.dialect);
    if level == 1 then Halve(p.dialect, FirstMin(p.cost[last], last, top) + FirstMin(p.cost[i], i, top))
    else Halve(p.dialect, SecondMin(p.cost[last], last, top) + FirstMin(p.cost[i], i, top))
  }

  /** The path the leaf records: its `n` cities followed by the start city. */
  function ClosedPath(path: seq<int>, n: nat): seq<int>
    requires n <= |path| && 1 <= |path|
  {
    path[..n] + [path[0]]
  }

  /** The leaf case: record the closed tour if its closing edge exists and it is cheaper. */
  function Leaf(p: Problem, weight: int, s: State): (s': State)
    requires Node(p, s, p.n, weight)
    ensures s'.path == s.path && s'.visited == s.visited
    ensures Improves(p, s, s', p.n)
    ensures s'.finalCost < s.finalCost ==> s'.finalCost == weight + p.cost[s.path[p.n - 1]][0]
  {
    var closing := p.cost[s.path[p.n - 1]][s.path[0]];
    if closing != 0 && weight + closing < s.finalCost then
      var t := ClosedPath(s.path, p.n);
      assert t[..p.n] == s.path[..p.n];
      PathWeightPrefix(p.cost, s.path, t, p.n);
      s.(finalPath := t, finalCost := weight + closing)
    else s
  }

  /**
   * The record the Python leaf makes as written: a copy of the whole
   * `n + 1`-slot path array, whose last slot is never written and keeps its
   * initial -1, with the start city appended.
   */
  function PyRecordedPath(path: seq<int>): (t: seq<int>)
    requires |path| >= 1
    ensures |t| == |path| + 1 && t[..|path|] == path && t[|path|] == path[0]
  {
    path + [path[0]]
  }

  /**
   * At every leaf the Python record has `n + 2` entries and so is never a
   * closed tour, while the corrected record `ClosedPath` of the same node is
   * one whenever the closing edge exists. On one city the search starts at
   * its only leaf, path `[0, -1]`, and Python records `[0, -1, 0]`.
   */
  lemma PyRecordedPathNotTour(p: Problem, s: State, weight: int)
    requires Node(p, s, p.n, weight)
    ensures |PyRecordedPath(s.path)| == p.n + 2
    ensures !IsTour(p.cost, p.n, PyRecordedPath(s.path))
    ensures p.cost[s.path[p.n - 1]][0] != 0 ==> IsTour(p.cost, p.n, ClosedPath(s.path, p.n))
    ensures PyRecordedPath(InitialState(1, Best(0, [])).path) == [0, -1, 0]
  {
    var t := ClosedPath(s.path, p.n);
    assert t[..p.n] == s.path[..p.n];
    assert InitialState(1, Best(0, [])).path == [0, -1];
  }

  /** `tsp_recursive(cost, curr_bound, curr_weight, level, curr_path, n)`. */
  function Rec(p: Problem, bound: real, weight: int, level: nat, s: State): (s': State)
    requires Node(p, s, level, weight)
    ensures |s'.path| == p.n + 1 && s'.path[..level] == s.path[..level]
    ensures s'.visited == s.visited
    ensures Improves(p, s, s', level)
    decreases p.n - level, 2, 0
  {
    if level == p.n then Leaf(p, weight, s)
    else Branch(p, bound, weight, level, 0, s)
  }

  /**
   * Iterations `i .. n - 1` of the loop over candidate next cities at a node
   * of depth `level < n`.
   */
  function Branch(p: Problem, bound: real, weight: int, level: nat, i: nat, s: State): (s': State)
    requires Node(p, s, level, weight) && level < p.n && i <= p.n
    ensures |s'.path| == p.n + 1 && s'.path[..level] == s.path[..level]
    ensures s'.visited == s.visited
    ensures Improves(p, s, s', level)
    decreases p.n - level, 1, p.n - i
  {
    if i == p.n then s
    else if p.cost[s.path[level - 1]][i] != 0 && !s.visited[i] then
      var f := Attempt(p, bound, weight, level, i, s);
      Branch(p, f.bound, f.weight, level, i + 1, f.s)
    else Branch(p, bound, weight, level, i + 1, s)
  }

  /** The running values a loop iteration leaves behind. */
  datatype Frame = Frame(s: State, weight: int, bound: real)

  /**
   * One iteration of the candidate loop for an unvisited city `i` joined to
   * the path end by an existing edge: add the edge, lower the bound, recurse
   * if still promising, then restore weight, bound and visited flags.
   */
  function Attempt(p: Problem, bound: real, weight: int, level: nat, i: nat, s: State): (f: Frame)
    requires Node(p, s, level, weight) && level < p.n && i < p.n
    requires p.cost[s.path[level - 1]][i] != 0 && !s.visited[i]
    ensures f.weight == weight && f.bound == bound
    ensures |f.s.path| == p.n + 1 && f.s.path[..level] == s.path[..level]
    ensures f.s.visited == s.visited
    ensures Node(p, f.s, level, weight)
    ensures Improves(p, s, f.s, level)
    decreases p.n - level, 0, 1
  {
    var last := s.path[level - 1];
    var temp := bound;
    var w := weight + p.cost[last][i];
    var b := bound - Deduction(p, level, last, i);
    var s1 := Descend(p, b, weight, w, level, i, s);
    var s2 := s1.(visited := Rebuild(s1.path, level, p.n));
    SamePrefixSameNode(p, s, s2, level, weight);
    Frame(s2, w - p.cost[s2.path[level - 1]][i], temp)
  }

  /**
   * The pruning test of an iteration: with the child's bound `b` and weight
   * `w`, enter city `i` and recurse only if `b + w` is below the best cost.
   */
  function Descend(p: Problem, b: real, weight: int, w: int, level: nat, i: nat, s: State): (s1: State)
    requires Node(p, s, level, weight) && level < p.n && i < p.n
    requires p.cost[s.path[level - 1]][i] != 0 && !s.visited[i]
    requires w == weight + p.cost[s.path[level - 1]][i]
    ensures |s1.path| == p.n + 1 && s1.path[..level] == s.path[..level]
    ensures Improves(p, s, s1, level)
    ensures b + w as real >= s.finalCost as real ==> s1 == s
    decreases p.n - level, 0, 0
  {
    if b + w as real < s.finalCost as real then
      var child := s.(path := s.path[level := i], visited := s.visited[i := true]);
      ChildIsNode(p, s, level, weight, i);
      var r := Rec(p, b, w, level + 1, child);
      ImprovesThroughChild(p, s, child, r, level);
      r
    else s
  }

  /** Entering an unvisited city along an existing edge gives a node one level deeper. */
  lemma ChildIsNode(p: Problem, s: State, level: nat, weight: int, i: nat)
    requires Node(p, s, level, weight) && level < p.n && i < p.n
    requires p.cost[s.path[level - 1]][i] != 0 && !s.visited[i]
    ensures Node(p, s.(path := s.path[level := i], visited := s.visited[i := true]), level + 1,
                 weight + p.cost[s.path[level - 1]][i])
  {
    var path' := s.path[level := i];
    assert path'[..level] == s.path[..level];
    PathWeightPrefix(p.cost, s.path, path', level);
    assert i !in s.path[..level];
    DistinctAppend(s.path[..level], i);
    assert Distinct(path'[..level + 1]) by {
      assert path'[..level + 1] == s.path[..level] + [i];
    }
    assert InRange(path', level + 1, p.n) by {
      forall j | 0 <= j < level + 1
        ensures 0 <= path'[j] < p.n
      {
        if j < level {
          assert path'[j] == s.path[j];
        }
      }
    }
    assert NonzeroSteps(p.cost, path', level + 1) by {
      forall j | 0 <= j < level
        ensures p.cost[path'[j]][path'[j + 1]] != 0
      {
        if j < level - 1 {
          assert path'[j + 1] == s.path[j + 1];
        }
      }
    }
    var v := s.visited[i := true];
    forall c | 0 <= c < p.n
      ensures v[c] == Mirror(path', level + 1, p.n)[c]
    {
      assert path'[..level + 1] == s.path[..level] + [i];
      assert c in path'[..level + 1] <==> c in s.path[..level] || c == i;
    }
  }

  /** Replacing everything but the path prefix and the flags keeps a node a node. */
  lemma SamePrefixSameNode(p: Problem, s: State, s2: State, level: nat, weight: int)
    requires Node(p, s, level, weight)
    requires |s2.path| == p.n + 1 && s2.path[..level] == s.path[..level]
    requires s2.visited == Mirror(s2.path, level, p.n)
    ensures Node(p, s2, level, weight) && s2.visited == s.visited
    ensures s2.path[level - 1] == s.path[level - 1]
  {
    PathWeightPrefix(p.cost, s.path, s2.path, level);
    assert forall j :: 0 <= j < level ==> s2.path[j] == s2.path[..level][j] == s.path[..level][j] == s.path[j];
  }

  /** A tour recorded below a child runs through the parent's prefix too. */
  lemma ImprovesThroughChild(p: Problem, s: State, child: State, r: State, level: nat)
    requires p.Valid() && level < p.n && |s.path| == p.n + 1 && |child.path| == p.n + 1
    requires child.path[..level] == s.path[..level]
    requires child.finalCost == s.finalCost && child.finalPath == s.finalPath
    requires Improves(p, child, r, level + 1)
    ensures Improves(p, s, r, level)
  {
    if r.finalCost < s.finalCost {
      assert r.finalPath[..level] == r.finalPath[..level + 1][..level];
      assert child.path[..level] == child.path[..level + 1][..level];
    }
  }

  /** The result holder: the best cost found and the tour achieving it. */
  datatype Best = Best(cost: int, tour: seq<int>)

  /** The search state the solver sets up: path `[0, -1, ..., -1]` and only city 0 visited. */
  function InitialState(n: nat, prior: Best): (s: State)
    requires n >= 1
    ensures forall p: Problem | p.Valid() && p.n == n :: Node(p, s, 1, 0)
  {
    var path := [0] + seq(n, _ => -1);
    assert path[..1] == [0];
    State(path, seq(n, c => c == 0), prior.cost, prior.tour)
  }

  /**
   * `solve_tsp(cost, n)` / `TSP()`: compute the root bound and search from
   * city 0. Like the ports, it starts from the result holder it is handed
   * and does not reset it.
   */
  function SolveTsp(p: Problem, prior: Best): (r: Best)
    requires p.Valid()
    ensures r.cost <= prior.cost
    ensures r.cost == prior.cost ==> r.tour == prior.tour
    ensures r.cost < prior.cost ==> IsTour(p.cost, p.n, r.tour) && TourCost(p.cost, r.tour) == r.cost
  {
    if p.n == 0 then prior
    else
      var s := Rec(p, RootBound(p.dialect, p.cost), 0, 1, InitialState(p.n, prior));
      Best(s.finalCost, s.finalPath)
  }

  /**
   * Two cities: each row has a single off-diagonal entry, so its second
   * minimum is the sentinel and the root bound exceeds the sentinel by half
   * the edge sum. The one branch deducts that half again, and with a
   * positive edge the child's bound plus weight reaches the sentinel, so
   * the only tour `0 -> 1 -> 0` is pruned and no tour is reported. This
   * holds in the model's exact arithmetic; Python's float bound can round
   * below the sentinel instead.
   */
  lemma TwoCitiesPruned(p: Problem)
    requires p.Valid() && p.n == 2 && p.cost[0][1] > 0 && p.cost[1][0] > 0
    ensures IsTour(p.cost, 2, [0, 1, 0])
    ensures Solve(p).cost == Top(p.dialect) && Solve(p).tour == NoTour(p)
  {
    var d, top := p.dialect, Top(p.dialect);
    var a, b := FirstMin(p.cost[0], 0, top), FirstMin(p.cost[1], 1, top);
    assert Off(p.cost[0], 0, 1) && Off(p.cost[1], 1, 0);
    assert 0 < a <= top && 0 < b <= top;
    var sum := RowBoundSum(p.cost, 2, top);
    assert sum == a + b + 2 * top by {
      assert |p.cost[0]| == 2 && |p.cost[1]| == 2;
      FewColumns(p.cost[0], 0, top);
      FewColumns(p.cost[1], 1, top);
      assert RowBoundSum(p.cost, 1, top) == a + top;
    }
    var root := RootBound(d, p.cost);
    var child := root - Deduction(p, 1, 0, 1);
    assert child + p.cost[0][1] as real >= top as real;
    var s0 := InitialState(2, Best(top, NoTour(p)));
    assert s0.path[0] == 0 && s0.visited[0] && !s0.visited[1];
    var f := Attempt(p, root, 0, 1, 1, s0);
    assert f.s.finalCost == top && f.s.finalPath == NoTour(p);
    assert Rec(p, root, 0, 1, s0) == Branch(p, root, 0, 1, 1, s0);
    assert Branch(p, root, 0, 1, 1, s0) == Branch(p, f.bound, f.weight, 1, 2, f.s);
    var t := [0, 1, 0];
    assert t[..2] == [0, 1];
  }

  /**
   * The path a fresh holder starts with: Python's `main` sets an empty
   * list; Java allocates `n + 1` zeros and C++ keeps a zeroed global
   * array, of which `n + 1` entries are printed.
   */
  function NoTour(p: Problem): (t: seq<int>)
    ensures p.dialect == Python ==> t == []
    ensures p.dialect != Python ==> |t| == p.n + 1 && forall k :: 0 <= k < |t| ==> t[k] == 0
  {
    if p.dialect == Python then [] else seq(p.n + 1, _ => 0)
  }

  /**
   * A fresh run: the holder starts at the port's sentinel cost and the
   * port's initial path. Either a closed tour is reported with its edge sum
   * as cost, or the sentinel with the initial path untouched. In Python the
   * path is empty exactly when no tour was found; in Java and C++ an
   * all-zero path is also the only tour of a single city.
   */
  function Solve(p: Problem): (r: Best)
    requires p.Valid()
    ensures r.cost <= Top(p.dialect)
    ensures r.cost == Top(p.dialect) ==> r.tour == NoTour(p)
    ensures r.cost < Top(p.dialect) ==> IsTour(p.cost, p.n, r.tour) && TourCost(p.cost, r.tour) == r.cost
    ensures p.dialect == Python ==> (r.cost == Top(p.dialect) <==> r.tour == [])
  {
    SolveTsp(p, Best(Top(p.dialect), NoTour(p)))
  }
}
