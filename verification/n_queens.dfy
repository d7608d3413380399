/**
 * N-Queens by backtracking (Practical-7). `board[i]` is the column of the
 * queen in row `i`, or -1 while the row is empty. The search places a queen
 * in each safe column of the current row, recurses on the next row, and
 * takes the queen off again; every full board it reaches is counted and
 * printed. The solution counter, a global in Python and Java and a
 * reference parameter in C++, is carried in an explicit search state, and
 * the printed boards are recorded in it as a list.
 */
module NQueens {

  const Empty := -1

  function Abs(x: int): nat {
    if x < 0 then -x else x
  }

  /** Queens at `(r1, c1)` and `(r2, c2)` share a column or a diagonal. */
  predicate Attacks(r1: int, c1: int, r2: int, c2: int) {
    c1 == c2 || Abs(c1 - c2) == Abs(r1 - r2)
  }

  /** `is_safe(board, row, col)`: no queen in the rows above attacks `(row, col)`. */
  predicate Safe(board: seq<int>, row: nat, col: int)
    requires row <= |board|
  {
    forall i :: 0 <= i < row ==> !Attacks(i, board[i], row, col)
  }

  /** `isSafe` of the Java and C++ ports: the column test and the two diagonal equalities. */
  predicate CrossSafe(board: seq<int>, row: nat, col: int)
    requires row <= |board|
  {
    forall i :: 0 <= i < row ==>
      board[i] != col && board[i] - i != col - row && board[i] + i != col + row
  }

  /** The two ways of testing a square are the same test. */
  lemma SafeForms(board: seq<int>, row: nat, col: int)
    requires row <= |board|
    ensures Safe(board, row, col) <==> CrossSafe(board, row, col)
  {
    forall i | 0 <= i < row
      ensures Attacks(i, board[i], row, col) <==>
        (board[i] == col || board[i] - i == col - row || board[i] + i == col + row)
    {
      var a, b := board[i] - col, i - row;
      assert Abs(a) == Abs(b) <==> (a == b || a == -b);
    }
  }

  /** The loop of `is_safe`, returning as soon as a queen above attacks the square. */
  method IsSafe(board: seq<int>, row: nat, col: int) returns (safe: bool)
    requires row <= |board|
    ensures safe <==> Safe(board, row, col)
  {
    for i := 0 to row
      invariant forall k :: 0 <= k < i ==> !Attacks(k, board[k], row, col)
    {
      if board[i] == col {
        return false;
      }
      if Abs(board[i] - col) == Abs(i - row) {
        return false;
      }
    }
    return true;
  }

  /** Queens in columns `0..n-1`, one per row, no two attacking each other. */
  predicate Placement(b: seq<int>, n: int) {
    && (forall i :: 0 <= i < |b| ==> 0 <= b[i] < n)
    && (forall i, j :: 0 <= i < j < |b| ==> !Attacks(i, b[i], j, b[j]))
  }

  /** `b` is a solution of the `n`-queens problem whose first rows are `prefix`. */
  ghost predicate Completion(b: seq<int>, prefix: seq<int>, n: int) {
    |b| == n && prefix <= b && Placement(b, n)
  }

  /** No board occurs twice. */
  predicate NoRepeats(s: seq<seq<int>>) {
    forall i, j :: 0 <= i < j < |s| ==> s[i] != s[j]
  }

  /** The state the search threads through: the board, the solution counter and the boards printed so far. */
  datatype Search = Search(board: seq<int>, count: nat, printed: seq<seq<int>>)

  /**
   * `solve_n_queens(board, row, n)`: whether some solution was reached,
   * and the state afterwards. A full board is counted and printed.
   */
  function Solve(s: Search, row: nat, n: nat): (r: (bool, Search))
    requires |s.board| == n && row <= n
    ensures |r.1.board| == n
    decreases n - row, n + 1
  {
    if row == n then (true, Search(s.board, s.count + 1, s.printed + [s.board]))
    else Columns(s, row, n, 0, false)
  }

  /** The `for col in range(n)` loop of `solve_n_queens` from column `col` on. */
  function Columns(s: Search, row: nat, n: nat, col: nat, found: bool): (r: (bool, Search))
    requires |s.board| == n && row < n && col <= n
    ensures |r.1.board| == n
    decreases n - row, n - col
  {
    if col == n then (found, s)
    else if Safe(s.board, row, col) then
      var (f, t) := Solve(s.(board := s.board[row := col]), row + 1, n);
      Columns(t.(board := t.board[row := Empty]), row, n, col + 1, found || f)
    else Columns(s, row, n, col + 1, found)
  }

  /** What a call leaves behind: `t` keeps the rows above `row`, and empties or keeps the others. */
  ghost predicate Restored(s: Search, t: Search, row: nat, n: nat)
    requires |s.board| == n && |t.board| == n && row <= n
  {
    && t.board[..row] == s.board[..row]
    && (forall r :: row <= r < n ==> t.board[r] == s.board[r] || t.board[r] == Empty)
  }

  /** The boards `t` has printed since `s`. */
  function Since(s: Search, t: Search): seq<seq<int>>
    requires |s.printed| <= |t.printed|
  {
    t.printed[|s.printed|..]
  }

  /**
   * `t` keeps the boards `s` had printed and adds to them, one count per
   * board added, no board added twice.
   */
  ghost predicate Records(s: Search, t: Search) {
    && |s.printed| <= |t.printed| && t.printed[..|s.printed|] == s.printed
    && t.count == s.count + (|t.printed| - |s.printed|)
    && NoRepeats(Since(s, t))
  }

  /**
   * From a safe partial board, the search prints every solution extending
   * it, each exactly once, adds one to the counter per solution, reports
   * whether there was one, and leaves the rows above `row` as it found them.
   */
  lemma {:induction false} SolveCounts(s: Search, row: nat, n: nat)
    requires |s.board| == n && row <= n && Placement(s.board[..row], n)
    ensures var (found, t) := Solve(s, row, n);
      && Records(s, t)
      && (forall b :: b in Since(s, t) <==> Completion(b, s.board[..row], n))
      && (found <==> Since(s, t) != [])
      && Restored(s, t, row, n)
    decreases n - row, n + 1, 0
  {
    if row == n {
      var t := Solve(s, row, n).1;
      assert Since(s, t) == [s.board];
      assert s.board[..n] == s.board;
      forall b | Completion(b, s.board[..row], n)
        ensures b == s.board
      {
        assert b[..n] == b;
      }
    } else {
      ColumnsCount(s, row, n, 0, false);
    }
  }

  /** The loop over the columns from `col` on: the solutions whose queen in `row` is at `col` or to its right. */
  lemma {:induction false} ColumnsCount(s: Search, row: nat, n: nat, col: nat, found: bool)
    requires |s.board| == n && row < n && col <= n && Placement(s.board[..row], n)
    ensures var (found', t) := Columns(s, row, n, col, found);
      && Records(s, t)
      && (forall b :: b in Since(s, t) <==> Completion(b, s.board[..row], n) && b[row] >= col)
      && (found' <==> found || Since(s, t) != [])
      && Restored(s, t, row, n)
    decreases n - row, n - col, 1
  {
    var prefix := s.board[..row];
    if col == n {
      assert Since(s, s) == [];
      forall b | Completion(b, prefix, n)
        ensures b[row] < n
      {
        assert b[row] == b[row];
      }
    } else if Safe(s.board, row, col) {
      TakeColumn(s, row, n, col, found);
    } else {
      forall b | Completion(b, prefix, n)
        ensures b[row] != col
      {
        Blocked(prefix, col, n, b);
      }
      ColumnsCount(s, row, n, col + 1, found);
    }
  }

  /** A safe column: the solutions with the queen of `row` there, then those further right. */
  lemma {:induction false} TakeColumn(s: Search, row: nat, n: nat, col: nat, found: bool)
    requires |s.board| == n && row < n && col < n && Placement(s.board[..row], n)
    requires Safe(s.board, row, col)
    ensures var (found', t) := Columns(s, row, n, col, found);
      && Records(s, t)
      && (forall b :: b in Since(s, t) <==> Completion(b, s.board[..row], n) && b[row] >= col)
      && (found' <==> found || Since(s, t) != [])
      && Restored(s, t, row, n)
    decreases n - row, n - col, 0
  {
    var prefix := s.board[..row];
    var placed := s.(board := s.board[row := col]);
    assert placed.board[..row + 1] == prefix + [col];
    PlaceSafe(prefix, col, n);
    SolveCounts(placed, row + 1, n);
    var (f, t) := Solve(placed, row + 1, n);
    var cleared := t.(board := t.board[row := Empty]);
    assert cleared.board[..row] == prefix;
    ColumnsCount(cleared, row, n, col + 1, found || f);
    var (found', last) := Columns(cleared, row, n, col + 1, found || f);
    assert Columns(s, row, n, col, found) == (found', last);
    Combine(s, placed, t, cleared, last, row, col, n, found, f, found');
  }

  /**
   * The facts about the search below the queen at `(row, col)`, ending in
   * state `t`, and about the columns right of `col`, ending in `u`, make up
   * the facts about the columns from `col` on.
   */
  lemma Combine(s: Search, placed: Search, t: Search, cleared: Search, u: Search,
                 row: nat, col: nat, n: nat, found: bool, f: bool, found': bool)
    requires |s.board| == n && |t.board| == n && |u.board| == n && row < n && col < n
    requires placed == s.(board := s.board[row := col]) && cleared == t.(board := t.board[row := Empty])
    requires Records(placed, t) && Restored(placed, t, row + 1, n)
    requires forall b :: b in Since(placed, t) <==> Completion(b, placed.board[..row + 1], n)
    requires f <==> Since(placed, t) != []
    requires Records(cleared, u) && Restored(cleared, u, row, n)
    requires forall b :: b in Since(cleared, u) <==> Completion(b, cleared.board[..row], n) && b[row] >= col + 1
    requires found' <==> found || f || Since(cleared, u) != []
    ensures Records(s, u) && Restored(s, u, row, n)
    ensures forall b :: b in Since(s, u) <==> Completion(b, s.board[..row], n) && b[row] >= col
    ensures found' <==> found || Since(s, u) != []
  {
    var prefix := s.board[..row];
    assert placed.board[..row + 1] == prefix + [col];
    assert cleared.board[..row] == prefix;
    forall b
      ensures b in Since(placed, t) <==> Completion(b, prefix, n) && b[row] == col
    {
      Extend(prefix, col, n, b);
    }
    Chain(placed, t, cleared, u, row, col);
    RestoreChain(s, t, u, row, col, n);
  }

  /** Placing a queen in `row`, searching below, then emptying `row` again, restores the board as `Restored` says. */
  lemma RestoreChain(s: Search, t: Search, u: Search, row: nat, col: int, n: nat)
    requires |s.board| == n && |t.board| == n && |u.board| == n && row < n
    requires Restored(s.(board := s.board[row := col]), t, row + 1, n)
    requires Restored(t.(board := t.board[row := Empty]), u, row, n)
    ensures Restored(s, u, row, n)
  {
    var placed, cleared := s.(board := s.board[row := col]), t.(board := t.board[row := Empty]);
    assert t.board[..row] == t.board[..row + 1][..row] == placed.board[..row + 1][..row];
    forall r | row <= r < n
      ensures u.board[r] == s.board[r] || u.board[r] == Empty
    {
      if r > row {
        assert cleared.board[r] == t.board[r];
      }
    }
  }

  /**
   * The boards printed over two stretches of the search, the first all with
   * the queen of `row` at `col`, the second all further right: together they
   * are recorded, and none is printed twice.
   */
  lemma Chain(s: Search, t: Search, t': Search, u: Search, row: nat, col: int)
    requires Records(s, t) && Records(t', u) && t'.printed == t.printed && t'.count == t.count
    requires forall b :: b in Since(s, t) ==> |b| > row && b[row] == col
    requires forall b :: b in Since(t', u) ==> |b| > row && b[row] > col
    ensures Records(s, u) && Since(s, u) == Since(s, t) + Since(t', u)
  {
    SinceJoin(s, t, t', u);
    Disjoint(Since(s, t), Since(t', u), row, col);
  }

  /** Printing `a` after `s` and then `b` prints `a + b` after `s`. */
  lemma SinceJoin(s: Search, t: Search, t': Search, u: Search)
    requires |s.printed| <= |t.printed| && t.printed[..|s.printed|] == s.printed
    requires |t.printed| <= |u.printed| && u.printed[..|t.printed|] == t.printed && t'.printed == t.printed
    ensures |s.printed| <= |u.printed| && u.printed[..|s.printed|] == s.printed
    ensures Since(s, u) == Since(s, t) + Since(t', u)
  {
    var a, b := Since(s, t), Since(t', u);
    assert t.printed == s.printed + a;
    assert u.printed == t.printed + b;
    assert u.printed == s.printed + (a + b);
  }

  /** Boards with different queens in `row` are different, so the two lists share no board. */
  lemma Disjoint(first: seq<seq<int>>, rest: seq<seq<int>>, row: nat, col: int)
    requires NoRepeats(first) && NoRepeats(rest)
    requires forall b :: b in first ==> |b| > row && b[row] == col
    requires forall b :: b in rest ==> |b| > row && b[row] > col
    ensures NoRepeats(first + rest)
  {
    var s := first + rest;
    forall i, j | 0 <= i < j < |s|
      ensures s[i] != s[j]
    {
      if i < |first| && |first| <= j {
        assert s[i] in first && s[j] in rest;
      }
    }
  }

  /** A queen on a safe square of the board's next row keeps it a safe partial board. */
  lemma PlaceSafe(prefix: seq<int>, col: int, n: int)
    requires Placement(prefix, n) && Safe(prefix, |prefix|, col) && 0 <= col < n
    ensures Placement(prefix + [col], n)
  {
  }

  /** The solutions extending `prefix + [col]` are those extending `prefix` with their next queen at `col`. */
  lemma Extend(prefix: seq<int>, col: int, n: int, b: seq<int>)
    requires |prefix| < n
    ensures Completion(b, prefix + [col], n) <==> Completion(b, prefix, n) && b[|prefix|] == col
  {
    if Completion(b, prefix, n) && b[|prefix|] == col {
      assert b[..|prefix| + 1] == prefix + [col];
    }
  }

  /** No solution puts its next queen on a square a queen above attacks. */
  lemma Blocked(prefix: seq<int>, col: int, n: int, b: seq<int>)
    requires |prefix| < n && !Safe(prefix, |prefix|, col)
    ensures Completion(b, prefix, n) ==> b[|prefix|] != col
  {
    if Completion(b, prefix, n) {
      var i :| 0 <= i < |prefix| && Attacks(i, prefix[i], |prefix|, col);
      assert b[i] == prefix[i];
    }
  }

  /** With the empty rows at the bottom, as `main` sets the board up, the search hands the board back unchanged. */
  lemma Untouched(s: Search, row: nat, n: nat)
    requires |s.board| == n && row <= n && Placement(s.board[..row], n)
    requires forall r :: row <= r < n ==> s.board[r] == Empty
    ensures Solve(s, row, n).1.board == s.board
  {
    SolveCounts(s, row, n);
    var t := Solve(s, row, n).1;
    assert t.board == t.board[..row] + t.board[row..];
    assert s.board == s.board[..row] + s.board[row..];
    assert t.board[row..] == s.board[row..];
  }

  datatype Outcome =
    | Refused                                      // n < 4 and n != 1: "No solution exists for N = n"
    | Solved(found: bool, count: nat, printed: seq<seq<int>>)

  /**
   * `main` after reading `n`: refuses every `n` below 4 except 1, and
   * otherwise searches from an empty board. The search prints every
   * solution exactly once and counts them, and finds one exactly when one
   * exists.
   */
  function Queens(n: int): (r: Outcome)
    ensures r.Refused? <==> n < 4 && n != 1
    ensures r.Solved? ==>
      && r.count == |r.printed| && NoRepeats(r.printed)
      && (forall b :: b in r.printed <==> |b| == n && Placement(b, n))
      && (r.found <==> r.printed != [])
  {
    if n < 4 && n != 1 then Refused
    else
      var s := Search(seq(n, _ => Empty), 0, []);
      assert s.board[..0] == [];
      SolveCounts(s, 0, n);
      var (found, t) := Solve(s, 0, n);
      assert t.printed == Since(s, t);
      Solved(found, t.count, t.printed)
  }

  /** The guard is right for 2 and 3: no placement exists there. */
  lemma TooSmall(n: int, b: seq<int>)
    requires n == 2 || n == 3
    ensures !(|b| == n && Placement(b, n))
  {
    if |b| == n && forall i :: 0 <= i < n ==> 0 <= b[i] < n {
      if n == 2 || b[1] == 1 || Attacks(0, b[0], 1, b[1]) {
        assert Attacks(0, b[0], 1, b[1]);
      } else if !Attacks(1, b[1], 2, b[2]) {
        assert Attacks(0, b[0], 2, b[2]);
      }
    }
  }
}
