/**
 * 0/1 knapsack (Practical-5): the dynamic-programming table of
 * `knapsack_01_dp` / `knapsack01` with Python's backtracking of the chosen
 * items, and the one-pass greedy choice of `knapsack_01_greedy`.
 *
 * A choice of items is a mask `sel` over the item list (`sel[k]` says item
 * `k` is taken). Weights and the capacity are natural numbers. A negative
 * capacity leaves no table to read the corner from. A negative weight makes
 * `w - weight` point past the last column once the capacity is at least 1;
 * at capacity 0 no entry is filled and the result is 0.
 *
 * `Cell` is the table as the ports fill it, column 0 forced to zero, and
 * the table-building methods compute it. `CellAll` fills column 0 by the
 * same recurrence. They differ only when an item weighs zero, where `Cell`
 * misses the item (`ZeroWeightCounterexample`).
 */
module Knapsack {

  datatype Item = Item(value: int, weight: nat)

  /** Total weight of the items that `sel` takes. */
  function Weight(items: seq<Item>, sel: seq<bool>): nat
    requires |sel| == |items|
  {
    if items == [] then 0
    else Weight(items[..|items| - 1], sel[..|sel| - 1]) + (if sel[|sel| - 1] then items[|items| - 1].weight else 0)
  }

  /** Total value of the items that `sel` takes. */
  function Value(items: seq<Item>, sel: seq<bool>): int
    requires |sel| == |items|
  {
    if items == [] then 0
    else Value(items[..|items| - 1], sel[..|sel| - 1]) + (if sel[|sel| - 1] then items[|items| - 1].value else 0)
  }

  predicate Feasible(items: seq<Item>, sel: seq<bool>, capacity: int) {
    |sel| == |items| && Weight(items, sel) <= capacity
  }

  /** `v` is the largest total value of a choice of items whose total weight fits in `capacity`. */
  ghost predicate Optimal(items: seq<Item>, capacity: int, v: int) {
    && (exists sel :: Feasible(items, sel, capacity) && Value(items, sel) == v)
    && (forall sel :: Feasible(items, sel, capacity) ==> Value(items, sel) <= v)
  }

  predicate PositiveWeights(items: seq<Item>) {
    forall k :: 0 <= k < |items| ==> items[k].weight >= 1
  }

  function Max(a: int, b: int): int { if a < b then b else a }

  /**
   * Entry `dp[n][w]` of the table as the three ports fill it, for the list
   * `items` of its first `n` items: row 0 and column 0 are zero, and every
   * other entry takes the better of leaving the last item out and, when it
   * fits, putting it in.
   */
  function Cell(items: seq<Item>, w: nat): int
  {
    if items == [] || w == 0 then 0
    else
      var it, rest := items[|items| - 1], items[..|items| - 1];
      if it.weight <= w then Max(it.value + Cell(rest, w - it.weight), Cell(rest, w))
      else Cell(rest, w)
  }

  /**
   * The same recurrence without the special case for column 0: a
   * zero-weight item still fits in no room at all.
   */
  function CellAll(items: seq<Item>, w: nat): int
  {
    if items == [] then 0
    else
      var it, rest := items[|items| - 1], items[..|items| - 1];
      if it.weight <= w then Max(it.value + CellAll(rest, w - it.weight), CellAll(rest, w))
      else CellAll(rest, w)
  }

  /** With no zero-weight item, forcing column 0 to zero changes nothing. */
  lemma {:induction false} CellAgrees(items: seq<Item>, w: nat)
    requires PositiveWeights(items)
    ensures Cell(items, w) == CellAll(items, w)
    decreases |items|
  {
    if items != [] {
      var it, rest := items[|items| - 1], items[..|items| - 1];
      assert PositiveWeights(rest);
      if w == 0 {
        NothingFits(items);
      } else {
        if it.weight <= w {
          CellAgrees(rest, w - it.weight);
        }
        CellAgrees(rest, w);
      }
    }
  }

  /** Items of positive weight: nothing fits in no room. */
  lemma {:induction false} NothingFits(items: seq<Item>)
    requires PositiveWeights(items)
    ensures CellAll(items, 0) == 0
    decreases |items|
  {
    if items != [] {
      var rest := items[..|items| - 1];
      assert PositiveWeights(rest);
      NothingFits(rest);
    }
  }

  /** Every entry is at least the entry above it, so none is negative, whatever the values. */
  lemma {:induction false} CellNonNegative(items: seq<Item>, w: nat)
    ensures Cell(items, w) >= 0
    ensures items != [] ==> Cell(items, w) >= Cell(items[..|items| - 1], w)
    decreases |items|
  {
    if items != [] {
      CellNonNegative(items[..|items| - 1], w);
    }
  }

  /**
   * The choice Python's backtracking reads off the table for `items` and
   * room `w`: the last item is taken exactly when its row differs from the
   * row above.
   */
  function Witness(items: seq<Item>, w: nat): (sel: seq<bool>)
    ensures |sel| == |items|
  {
    if items == [] then []
    else
      var it, rest := items[|items| - 1], items[..|items| - 1];
      if Cell(items, w) != Cell(rest, w) then Witness(rest, w - it.weight) + [true]
      else Witness(rest, w) + [false]
  }

  /** Where a row differs from the row above, the item fits, is worth taking, and the choice takes it. */
  lemma WitnessRoom(items: seq<Item>, w: nat)
    requires items != [] && Cell(items, w) != Cell(items[..|items| - 1], w)
    ensures var it, rest := items[|items| - 1], items[..|items| - 1];
      && 0 < w && it.weight <= w
      && Cell(items, w) == it.value + Cell(rest, w - it.weight)
      && Witness(items, w) == Witness(rest, w - it.weight) + [true]
  {
  }

  /** The backtracked choice fits in the room and reaches the table entry. */
  lemma {:induction false} WitnessAchieves(items: seq<Item>, w: nat)
    ensures Feasible(items, Witness(items, w), w)
    ensures Value(items, Witness(items, w)) == Cell(items, w)
    decreases |items|
  {
    if items != [] {
      var it, rest := items[|items| - 1], items[..|items| - 1];
      var sel := Witness(items, w);
      if Cell(items, w) != Cell(rest, w) {
        WitnessRoom(items, w);
        var s := Witness(rest, w - it.weight);
        WitnessAchieves(rest, w - it.weight);
        Snoc(items, sel, s);
        assert Value(items, sel) == Value(rest, s) + it.value;
      } else {
        var s := Witness(rest, w);
        WitnessAchieves(rest, w);
        Snoc(items, sel, s);
        assert Value(items, sel) == Value(rest, s);
      }
    }
  }

  /** Weight and value of a choice: those of its part over all but the last item, plus the last item when taken. */
  lemma Snoc(items: seq<Item>, sel: seq<bool>, s: seq<bool>)
    requires items != [] && |sel| == |items| && s + [sel[|sel| - 1]] == sel
    ensures var it, rest := items[|items| - 1], items[..|items| - 1];
      && Weight(items, sel) == Weight(rest, s) + (if sel[|sel| - 1] then it.weight else 0)
      && Value(items, sel) == Value(rest, s) + (if sel[|sel| - 1] then it.value else 0)
  {
    assert sel[..|sel| - 1] == s;
  }

  /** No choice that fits in `w` beats `CellAll(items, w)`. */
  lemma {:induction false} CellAllBound(items: seq<Item>, w: nat, sel: seq<bool>)
    requires Feasible(items, sel, w)
    ensures Value(items, sel) <= CellAll(items, w)
    decreases |items|
  {
    if items != [] {
      var it, rest := items[|items| - 1], items[..|items| - 1];
      if sel[|sel| - 1] {
        CellAllBound(rest, w - it.weight, sel[..|sel| - 1]);
      } else {
        CellAllBound(rest, w, sel[..|sel| - 1]);
      }
    }
  }

  /** Some choice that fits in `w` reaches `CellAll(items, w)`. */
  lemma {:induction false} CellAllWitness(items: seq<Item>, w: nat) returns (sel: seq<bool>)
    ensures Feasible(items, sel, w) && Value(items, sel) == CellAll(items, w)
    decreases |items|
  {
    if items == [] {
      sel := [];
    } else {
      var it, rest := items[|items| - 1], items[..|items| - 1];
      if it.weight <= w && it.value + CellAll(rest, w - it.weight) >= CellAll(rest, w) {
        var s := CellAllWitness(rest, w - it.weight);
        sel := s + [true];
        assert sel[..|sel| - 1] == s;
      } else {
        var s := CellAllWitness(rest, w);
        sel := s + [false];
        assert sel[..|sel| - 1] == s;
      }
    }
  }

  /** The corrected recurrence is optimal for every list of items and every capacity. */
  lemma CellAllOptimal(items: seq<Item>, w: nat)
    ensures Optimal(items, w, CellAll(items, w))
  {
    var sel := CellAllWitness(items, w);
    forall s | Feasible(items, s, w)
      ensures Value(items, s) <= CellAll(items, w)
    {
      CellAllBound(items, w, s);
    }
  }

  /**
   * Whatever the weights, the ports' entry is the value of a choice that
   * fits, so it never exceeds the optimum `CellAll`.
   */
  lemma CellAtMostOptimum(items: seq<Item>, w: nat)
    ensures 0 <= Cell(items, w) <= CellAll(items, w)
    ensures exists sel :: Feasible(items, sel, w) && Value(items, sel) == Cell(items, w)
  {
    WitnessAchieves(items, w);
    CellAllBound(items, w, Witness(items, w));
    CellNonNegative(items, w);
  }

  /** The ports' table is optimal when no item has weight zero. */
  lemma CellOptimal(items: seq<Item>, w: nat)
    requires PositiveWeights(items)
    ensures Optimal(items, w, Cell(items, w))
  {
    CellAgrees(items, w);
    CellAllOptimal(items, w);
  }

  /**
   * A zero-weight item breaks the ports' table: with items (value 5,
   * weight 0) and (value 10, weight 1) and capacity 1, taking both is worth
   * 15, but `dp[2][1]` is 10, because `dp[1][0]` is forced to zero.
   */
  lemma ZeroWeightCounterexample()
    ensures var items := [Item(5, 0), Item(10, 1)];
      && Cell(items, 1) == 10
      && Feasible(items, [true, true], 1) && Value(items, [true, true]) == 15
      && !Optimal(items, 1, Cell(items, 1))
      && Optimal(items, 1, CellAll(items, 1)) && CellAll(items, 1) == 15
  {
    var items := [Item(5, 0), Item(10, 1)];
    var first := items[..1];
    assert first == [Item(5, 0)] && first[..0] == [] && [true, true][..1] == [true];
    assert Value(items, [true, true]) == 15;
    assert Cell(first, 0) == 0 && Cell(first, 1) == 5;
    assert CellAll(first, 1) == 5 && CellAll(first, 0) == 5;
    CellAllOptimal(items, 1);
  }

  /**
   * One row of the table: `row[w] == dp[i][w]` for `w` in `0..capacity`.
   * Column 0 is zero, as the ports leave or force it; the columns from 1
   * take the better of leaving item `i - 1` out and putting it in.
   */
  method FillRow(items: seq<Item>, prev: seq<int>, i: nat, capacity: nat) returns (row: seq<int>)
    requires 0 < i <= |items| && |prev| == capacity + 1
    requires forall w :: 0 <= w <= capacity ==> prev[w] == Cell(items[..i - 1], w)
    ensures |row| == capacity + 1
    ensures forall w :: 0 <= w <= capacity ==> row[w] == Cell(items[..i], w)
  {
    assert items[..i][..i - 1] == items[..i - 1];
    row := [0];
    var it := items[i - 1];
    for w := 1 to capacity + 1
      invariant |row| == w
      invariant forall v :: 0 <= v < w ==> row[v] == Cell(items[..i], v)
    {
      var cell;
      if it.weight <= w {
        cell := Max(it.value + prev[w - it.weight], prev[w]);
      } else {
        cell := prev[w];
      }
      row := row + [cell];
    }
  }

  /** The table `dp`, `(n + 1) x (capacity + 1)`, filled bottom-up: row `i` holds the entries for the first `i` items. */
  method BuildTable(items: seq<Item>, capacity: nat) returns (dp: seq<seq<int>>)
    ensures |dp| == |items| + 1
    ensures forall i :: 0 <= i <= |items| ==> |dp[i]| == capacity + 1
    ensures forall i, w :: 0 <= i <= |items| && 0 <= w <= capacity ==> dp[i][w] == Cell(items[..i], w)
  {
    dp := [seq(capacity + 1, _ => 0)];
    for i := 1 to |items| + 1
      invariant |dp| == i
      invariant forall r :: 0 <= r < i ==> |dp[r]| == capacity + 1
      invariant forall r, w :: 0 <= r < i && 0 <= w <= capacity ==> dp[r][w] == Cell(items[..r], w)
    {
      var row := FillRow(items, dp[i - 1], i, capacity);
      dp := dp + [row];
    }
  }

  /** The backtracking loop of `knapsack_01_dp`, from the last item to the first. */
  method Backtrack(items: seq<Item>, dp: seq<seq<int>>, capacity: nat) returns (sel: seq<bool>)
    requires |dp| == |items| + 1
    requires forall i :: 0 <= i <= |items| ==> |dp[i]| == capacity + 1
    requires forall i, w :: 0 <= i <= |items| && 0 <= w <= capacity ==> dp[i][w] == Cell(items[..i], w)
    ensures sel == Witness(items, capacity)
  {
    var n := |items|;
    var w: nat := capacity;
    var tail: seq<bool> := [];
    var i := n;
    assert items[..n] == items;
    while i > 0
      invariant 0 <= i <= n && w <= capacity && |tail| == n - i
      invariant Witness(items, capacity) == Witness(items[..i], w) + tail
    {
      var differs := dp[i][w] != dp[i - 1][w];
      Unwind(items, i, w, tail, differs);
      if differs {
        tail := [true] + tail;
        w := w - items[i - 1].weight;
      } else {
        tail := [false] + tail;
      }
      i := i - 1;
    }
    sel := tail;
  }

  /** One step of the backtracking: the choice for the first `i` items in terms of the choice for the first `i - 1`. */
  lemma Unwind(items: seq<Item>, i: nat, w: nat, tail: seq<bool>, differs: bool)
    requires 0 < i <= |items| && (differs <==> Cell(items[..i], w) != Cell(items[..i - 1], w))
    ensures differs ==> items[i - 1].weight <= w && Witness(items[..i], w) + tail == Witness(items[..i - 1], w - items[i - 1].weight) + ([true] + tail)
    ensures !differs ==> Witness(items[..i], w) + tail == Witness(items[..i - 1], w) + ([false] + tail)
  {
    assert items[..i][..i - 1] == items[..i - 1];
    if differs {
      WitnessRoom(items[..i], w);
    }
  }

  /**
   * `knapsack_01_dp(items, capacity)`: the best value, the chosen items (as
   * a mask) and the table. The choice fits and reaches the best value,
   * which never exceeds the optimum and is the optimum when no item has
   * weight zero.
   */
  method KnapsackDp(items: seq<Item>, capacity: nat) returns (best: int, sel: seq<bool>, dp: seq<seq<int>>)
    ensures |dp| == |items| + 1 && forall i :: 0 <= i <= |items| ==> |dp[i]| == capacity + 1
    ensures forall i, w :: 0 <= i <= |items| && 0 <= w <= capacity ==> dp[i][w] == Cell(items[..i], w)
    ensures best == dp[|items|][capacity] && 0 <= best <= CellAll(items, capacity)
    ensures Feasible(items, sel, capacity) && Value(items, sel) == best
    ensures PositiveWeights(items) ==> Optimal(items, capacity, best)
  {
    dp := BuildTable(items, capacity);
    best := dp[|items|][capacity];
    assert items[..|items|] == items;
    sel := Backtrack(items, dp, capacity);
    WitnessAchieves(items, capacity);
    CellAtMostOptimum(items, capacity);
    if PositiveWeights(items) {
      CellOptimal(items, capacity);
    }
  }

  /**
   * `knapsack01(items, capacity)` of the Java and C++ ports: the same
   * table, returning only its corner. Some choice that fits reaches it, it
   * never exceeds the optimum, and it is the optimum when no item has
   * weight zero.
   */
  method Knapsack01(items: seq<Item>, capacity: nat) returns (best: int)
    ensures best == Cell(items, capacity) && 0 <= best <= CellAll(items, capacity)
    ensures exists sel :: Feasible(items, sel, capacity) && Value(items, sel) == best
    ensures PositiveWeights(items) ==> Optimal(items, capacity, best)
  {
    var dp := BuildTable(items, capacity);
    best := dp[|items|][capacity];
    assert items[..|items|] == items;
    CellAtMostOptimum(items, capacity);
    if PositiveWeights(items) {
      CellOptimal(items, capacity);
    }
  }

  /**
   * The state of the greedy pass after the first `k` items: `sel` chose
   * among them, `room` is what is left of the capacity, `value` is what was
   * taken, and every item left out did not fit in the room left at its turn.
   */
  ghost predicate GreedyState(items: seq<Item>, capacity: nat, k: nat, sel: seq<bool>, room: int, value: int) {
    && k <= |items| && |sel| == k
    && Weight(items[..k], sel) + room == capacity
    && Value(items[..k], sel) == value
    && forall j :: 0 <= j < k && !sel[j] ==> Weight(items[..j], sel[..j]) + items[j].weight > capacity
  }

  /**
   * The selection pass of `knapsack_01_greedy` over the items in the order
   * given (the ratio sort before it is not modelled): each item is taken
   * when it still fits in the room left.
   */
  method Greedy(items: seq<Item>, capacity: nat) returns (value: int, sel: seq<bool>)
    ensures Feasible(items, sel, capacity) && Value(items, sel) == value
    ensures forall k :: 0 <= k < |items| && !sel[k] ==> Weight(items[..k], sel[..k]) + items[k].weight > capacity
  {
    var room: nat := capacity;
    value, sel := 0, [];
    for k := 0 to |items|
      invariant GreedyState(items, capacity, k, sel, room, value)
    {
      var take := room >= items[k].weight;
      GreedyStep(items, capacity, k, sel, room, value, take);
      if take {
        room := room - items[k].weight;
        value := value + items[k].value;
      }
      sel := sel + [take];
    }
    assert items[..|items|] == items;
  }

  /** One turn of the greedy pass: item `k` is taken exactly when it fits in the room left. */
  lemma GreedyStep(items: seq<Item>, capacity: nat, k: nat, sel: seq<bool>, room: int, value: int, take: bool)
    requires k < |items| && GreedyState(items, capacity, k, sel, room, value)
    requires take <==> room >= items[k].weight
    ensures var it := items[k];
      GreedyState(items, capacity, k + 1, sel + [take], if take then room - it.weight else room, if take then value + it.value else value)
  {
    var sel' := sel + [take];
    assert items[..k + 1][..k] == items[..k] && sel'[..k] == sel;
    forall j | 0 <= j < k
      ensures sel'[..j] == sel[..j]
    {
    }
  }

  /** With no zero-weight item the greedy pass never beats the table. */
  lemma GreedyAtMostDp(items: seq<Item>, capacity: nat, sel: seq<bool>)
    requires PositiveWeights(items) && Feasible(items, sel, capacity)
    ensures Value(items, sel) <= Cell(items, capacity)
  {
    CellOptimal(items, capacity);
  }

  /**
   * The classic instance of `show_counter_example`: items (60, 10),
   * (100, 20), (120, 30), already in decreasing value-per-weight order, and
   * capacity 50. The greedy pass takes the first two for 160; the table
   * gives 220, the optimum, reached by the last two.
   */
  lemma CounterExample(value: int, sel: seq<bool>)
    requires var items := [Item(60, 10), Item(100, 20), Item(120, 30)];
      && Feasible(items, sel, 50) && Value(items, sel) == value
      && forall k :: 0 <= k < 3 && !sel[k] ==> Weight(items[..k], sel[..k]) + items[k].weight > 50
    ensures value == 160 && sel == [true, true, false]
    ensures Cell([Item(60, 10), Item(100, 20), Item(120, 30)], 50) == 220
    ensures Optimal([Item(60, 10), Item(100, 20), Item(120, 30)], 50, 220)
  {
    var items := [Item(60, 10), Item(100, 20), Item(120, 30)];
    var i1, i2 := items[..1], items[..2];
    assert i1 == [Item(60, 10)] && i1[..0] == [] && i2 == [Item(60, 10), Item(100, 20)] && i2[..1] == i1;
    assert sel[..0] == [] && sel[..1] == [sel[0]] && sel[..2] == [sel[0], sel[1]] && sel[..2][..1] == sel[..1];
    assert Weight(items[..0], sel[..0]) == 0;
    assert sel[0];
    assert Weight(i1, sel[..1]) == 10;
    assert sel[1];
    assert Weight(i2, sel[..2]) == 30;
    assert !sel[2];
    assert sel == [true, true, false];
    var t2, t3 := [true, true], [true, true, false];
    assert t2[..1] == [true] && t3[..2] == t2 && [true][..0] == [];
    assert Value(i1, [true]) == 60;
    assert Value(i2, t2) == 160;
    assert Value(items, t3) == 160;
    assert Cell(i1, 0) == 0;
    assert Cell(i1, 20) == 60;
    assert Cell(i1, 30) == 60;
    assert Cell(i1, 50) == 60;
    assert Cell(i2, 20) == 100;
    assert Cell(i2, 50) == 160;
    CellOptimal(items, 50);
  }
}
