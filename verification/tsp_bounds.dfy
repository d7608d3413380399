/**
 * Bound estimator of the branch-and-bound travelling-salesman solver
 * (Practical-8): the off-diagonal minimum and second minimum of a row of
 * the cost matrix, the root lower bound, and the per-branch deduction.
 *
 * The Python, Java and C++ ports share this logic but differ in their
 * "no value" sentinel and in how they halve: Python divides exactly (its
 * bound becomes a float, modelled as `real`), Java and C++ divide `int`s
 * and truncate toward zero.
 */
module TspBounds {

  /** Which port of the solver is being modelled. */
  datatype Dialect = Python | Java | Cpp

  /** Python's `sys.maxsize` on a 64-bit interpreter. */
  const PyMaxSize: int := 0x7FFF_FFFF_FFFF_FFFF
  /** `Integer.MAX_VALUE` in Java and `INT_MAX` in C++. */
  const IntMax: int := 0x7FFF_FFFF

  /** The sentinel a port uses both for "no edge seen yet" and "no tour found yet". */
  function Top(d: Dialect): (t: int)
    ensures t > 0
  {
    if d == Python then PyMaxSize else IntMax
  }

  function Max(a: int, b: int): int { if a < b then b else a }

  /** Column `k` is an off-diagonal position of row `i`. */
  predicate Off(row: seq<int>, i: int, k: int) {
    0 <= k < |row| && k != i
  }

  /** `m` is the least of `top` and the off-diagonal entries of `row` before column `hi`. */
  ghost predicate IsMinUpTo(row: seq<int>, i: int, hi: int, top: int, m: int) {
    && m <= top
    && (forall k | k < hi && Off(row, i, k) :: m <= row[k])
    && (m == top || exists k | k < hi && Off(row, i, k) :: m == row[k])
  }

  /**
   * `m` is the second smallest of the off-diagonal entries of `row` before
   * column `hi`, counted with multiplicity and padded with two copies of
   * `top`: the least value that two different columns both reach, or `top`.
   */
  ghost predicate IsSecondUpTo(row: seq<int>, i: int, hi: int, top: int, m: int) {
    && m <= top
    && (forall j, k | j < hi && k < hi && Off(row, i, j) && Off(row, i, k) && j != k :: m <= Max(row[j], row[k]))
    && (m == top || exists j, k | j < hi && k < hi && Off(row, i, j) && Off(row, i, k) && j != k :: m == Max(row[j], row[k]))
  }

  ghost predicate IsRowMin(row: seq<int>, i: int, top: int, m: int) {
    IsMinUpTo(row, i, |row|, top, m)
  }

  ghost predicate IsRowSecondMin(row: seq<int>, i: int, top: int, m: int) {
    IsSecondUpTo(row, i, |row|, top, m)
  }

  /** The scan of `first_min` from column `k` on, with running minimum `acc`. */
  function FirstMinFrom(row: seq<int>, i: int, k: nat, top: int, acc: int): (m: int)
    requires k <= |row|
    requires IsMinUpTo(row, i, k, top, acc)
    ensures IsRowMin(row, i, top, m)
    decreases |row| - k
  {
    if k == |row| then acc
    else FirstMinFrom(row, i, k + 1, top, if row[k] < acc && i != k then row[k] else acc)
  }

  /** `first_min(cost, i, n)` on row `row` of a matrix, with sentinel `top`. */
  function FirstMin(row: seq<int>, i: int, top: int): (m: int)
    ensures IsRowMin(row, i, top, m)
  {
    FirstMinFrom(row, i, 0, top, top)
  }

  /** One column of the `second_min` scan keeps the running pair exact. */
  lemma SecondMinStep(row: seq<int>, i: int, k: nat, top: int, first: int, second: int)
    requires k < |row| && first <= second
    requires IsMinUpTo(row, i, k, top, first) && IsSecondUpTo(row, i, k, top, second)
    ensures var (f, s) := SecondMinUpdate(row, i, k, first, second);
      f <= s && IsMinUpTo(row, i, k + 1, top, f) && IsSecondUpTo(row, i, k + 1, top, s)
  {
    var c := row[k];
    if i == k {
      assert forall j | j < k + 1 && Off(row, i, j) :: j < k;
    } else if c <= first {
      NewMinimum(row, i, k, top, first, second);
    } else if c <= second {
      if first == top {
        assert false;
      }
      var j :| j < k && Off(row, i, j) && first == row[j];
      assert c == Max(row[j], row[k]);
    }
  }

  /** A column holding a new minimum demotes the old minimum to second place. */
  lemma NewMinimum(row: seq<int>, i: int, k: nat, top: int, first: int, second: int)
    requires k < |row| && first <= second && Off(row, i, k) && row[k] <= first
    requires IsMinUpTo(row, i, k, top, first) && IsSecondUpTo(row, i, k, top, second)
    ensures IsMinUpTo(row, i, k + 1, top, row[k]) && IsSecondUpTo(row, i, k + 1, top, first)
  {
    if first != top {
      var j :| j < k && Off(row, i, j) && first == row[j];
      assert first == Max(row[j], row[k]);
    }
  }

  /** The update `second_min` applies to its running pair at column `k`. */
  function SecondMinUpdate(row: seq<int>, i: int, k: nat, first: int, second: int): (int, int)
    requires k < |row|
  {
    if i == k then (first, second)
    else if row[k] <= first then (row[k], first)
    else if row[k] <= second && row[k] != first then (first, row[k])
    else (first, second)
  }

  /**
   * The scan of `second_min` from column `k` on, with running smallest
   * `first` and second smallest `second`; returns the final pair.
   */
  function SecondMinFrom(row: seq<int>, i: int, k: nat, top: int, first: int, second: int): (r: (int, int))
    requires k <= |row| && first <= second
    requires IsMinUpTo(row, i, k, top, first) && IsSecondUpTo(row, i, k, top, second)
    ensures r.0 <= r.1 && IsRowMin(row, i, top, r.0) && IsRowSecondMin(row, i, top, r.1)
    decreases |row| - k
  {
    if k == |row| then (first, second)
    else
      SecondMinStep(row, i, k, top, first, second);
      var (f, s) := SecondMinUpdate(row, i, k, first, second);
      SecondMinFrom(row, i, k + 1, top, f, s)
  }

  /** `second_min(cost, i, n)` on row `row` of a matrix, with sentinel `top`. */
  function SecondMin(row: seq<int>, i: int, top: int): (m: int)
    ensures IsRowSecondMin(row, i, top, m)
    ensures FirstMin(row, i, top) <= m
  {
    SecondMinFrom(row, i, 0, top, top, top).1
  }

  /** The row minimum, when it occurs in two different columns, is also the second minimum. */
  lemma SecondMinTie(row: seq<int>, i: int, top: int, j: int, k: int)
    requires Off(row, i, j) && Off(row, i, k) && j != k
    requires row[j] == FirstMin(row, i, top) && row[k] == FirstMin(row, i, top)
    ensures SecondMin(row, i, top) == FirstMin(row, i, top)
  {
    assert Max(row[j], row[k]) == row[j];
  }

  /** With fewer than two off-diagonal columns both scans return the sentinel. */
  lemma FewColumns(row: seq<int>, i: int, top: int)
    requires 0 <= i < |row| <= 2
    ensures SecondMin(row, i, top) == top
    ensures |row| == 1 ==> FirstMin(row, i, top) == top
  {
  }

  /** Java's and C++'s `int` division by two, which truncates toward zero. */
  function TruncHalf(x: int): (r: int)
    ensures x >= 0 ==> 0 <= 2 * r <= x <= 2 * r + 1
    ensures x < 0 ==> 2 * r - 1 <= x <= 2 * r <= 0
  {
    if x >= 0 then x / 2 else -((-x) / 2)
  }

  /** Halving in the bound updates: exact in Python, truncating in Java and C++. */
  function Halve(d: Dialect, x: int): (r: real)
    ensures d == Python ==> 2.0 * r == x as real
    ensures d != Python ==> r == r.Floor as real
    ensures d != Python && x >= 0 ==> 0.0 <= r && 2.0 * r <= x as real < 2.0 * r + 2.0
  {
    if d == Python then x as real / 2.0 else TruncHalf(x) as real
  }

  /**
   * The rounding of the root bound: Python rounds an odd sum up; Java and
   * C++ halve toward zero, except that a sum of exactly 1 gives 1.
   */
  function RootRound(d: Dialect, sum: int): (r: int)
    ensures d == Python ==> 2 * r - 1 <= sum <= 2 * r
    ensures d != Python && sum == 1 ==> r == 1
    ensures d != Python && sum >= 0 && sum != 1 ==> 2 * r <= sum <= 2 * r + 1
    ensures d != Python && sum < 0 ==> 2 * r - 1 <= sum <= 2 * r
  {
    if d == Python then (if sum % 2 == 0 then sum / 2 else sum / 2 + 1)
    else if sum == 1 then sum / 2 + 1
    else TruncHalf(sum)
  }

  /** The ports agree on the root bound except on odd sums above 1, where Java and C++ are one lower. */
  lemma RootRoundDivergence(sum: int)
    ensures sum % 2 == 0 || sum == 1 || sum < 0 ==> RootRound(Java, sum) == RootRound(Python, sum)
    ensures sum % 2 == 1 && sum > 1 ==> RootRound(Java, sum) == RootRound(Python, sum) - 1
    ensures RootRound(Cpp, sum) == RootRound(Java, sum)
  {
  }

  /** `sum_{v < k} (first_min(v) + second_min(v))`, the accumulation loop of the root bound. */
  function RowBoundSum(cost: seq<seq<int>>, k: nat, top: int): int
    requires k <= |cost|
  {
    if k == 0 then 0
    else RowBoundSum(cost, k - 1, top) + FirstMin(cost[k - 1], k - 1, top) + SecondMin(cost[k - 1], k - 1, top)
  }

  /** The root lower bound a port starts its search with. */
  function RootBound(d: Dialect, cost: seq<seq<int>>): real
  {
    RootRound(d, RowBoundSum(cost, |cost|, Top(d))) as real
  }
}
