/**
 * The first step of job sequencing with deadlines (Practical-4): the jobs
 * are sorted by profit, highest first. Python's `list.sort` and Java's
 * `Arrays.sort` on objects are stable, so jobs of equal profit keep their
 * input order; C++'s `std::sort` is not, and may leave them in any order.
 */
module JobOrder {

  datatype Job = Job(id: int, deadline: int, profit: int)

  /** Non-increasing profit. */
  predicate ByProfit(s: seq<Job>) {
    forall j, k :: 0 <= j < k < |s| ==> s[j].profit >= s[k].profit
  }

  /** The jobs of `s` whose profit is `p`, in the order of `s`. */
  function WithProfit(s: seq<Job>, p: int): seq<Job> {
    if s == [] then [] else (if s[0].profit == p then [s[0]] else []) + WithProfit(s[1..], p)
  }

  /**
   * `s` with `x` inserted after every job of profit at least `x.profit`:
   * one step of a stable insertion sort, highest profit first.
   */
  function Insert(s: seq<Job>, x: Job): (r: seq<Job>)
    requires ByProfit(s)
    ensures |r| == |s| + 1 && multiset(r) == multiset(s) + multiset{x}
  {
    if s == [] then [x]
    else if s[0].profit >= x.profit then
      assert ByProfit(s[1..]);
      assert s == [s[0]] + s[1..];
      [s[0]] + Insert(s[1..], x)
    else [x] + s
  }

  lemma {:induction false} InsertOrdered(s: seq<Job>, x: Job)
    requires ByProfit(s)
    ensures ByProfit(Insert(s, x))
    decreases |s|
  {
    if s != [] && s[0].profit >= x.profit {
      assert ByProfit(s[1..]);
      InsertOrdered(s[1..], x);
      var r := Insert(s, x);
      forall k | 0 < k < |r|
        ensures r[0].profit >= r[k].profit
      {
        assert r[k] in multiset(Insert(s[1..], x));
        if r[k] != x {
          assert r[k] in multiset(s[1..]);
          var j :| 0 <= j < |s[1..]| && s[1..][j] == r[k];
        }
      }
    }
  }

  /** The order the stable sorts leave the jobs in. */
  function StableSort(jobs: seq<Job>): (r: seq<Job>)
    ensures ByProfit(r) && |r| == |jobs|
  {
    if jobs == [] then []
    else
      var rest := StableSort(jobs[..|jobs| - 1]);
      InsertOrdered(rest, jobs[|jobs| - 1]);
      Insert(rest, jobs[|jobs| - 1])
  }

  /** The stable sort permutes the jobs. */
  lemma {:induction false} StableSortPermutes(jobs: seq<Job>)
    ensures multiset(StableSort(jobs)) == multiset(jobs)
    decreases |jobs|
  {
    if jobs != [] {
      var pre, last := jobs[..|jobs| - 1], jobs[|jobs| - 1];
      StableSortPermutes(pre);
      assert jobs == pre + [last];
    }
  }

  lemma {:induction false} WithProfitAppend(a: seq<Job>, b: seq<Job>, p: int)
    ensures WithProfit(a + b, p) == WithProfit(a, p) + WithProfit(b, p)
    decreases |a|
  {
    if a == [] {
      assert a + b == b;
    } else {
      var h := if a[0].profit == p then [a[0]] else [];
      assert (a + b)[0] == a[0] && (a + b)[1..] == a[1..] + b;
      assert WithProfit(a + b, p) == h + WithProfit(a[1..] + b, p);
      WithProfitAppend(a[1..], b, p);
      assert WithProfit(a, p) == h + WithProfit(a[1..], p);
    }
  }

  /** The jobs of profit `p` in a list with head `y`: `y` when it has that profit, then those of the rest. */
  lemma Cons(y: Job, t: seq<Job>, p: int)
    ensures WithProfit([y] + t, p) == (if y.profit == p then [y] else []) + WithProfit(t, p)
  {
    assert ([y] + t)[1..] == t;
  }

  /** The jobs of profit `p` are exactly the jobs of `s` that have it. */
  lemma {:induction false} WithProfitMembers(s: seq<Job>, p: int)
    ensures forall x :: x in WithProfit(s, p) <==> x in s && x.profit == p
    decreases |s|
  {
    if s != [] {
      WithProfitMembers(s[1..], p);
      assert s == [s[0]] + s[1..];
    }
  }

  /** Inserting `x` keeps the order among every profit class and puts `x` last in its own. */
  lemma {:induction false} InsertStable(s: seq<Job>, x: Job, p: int)
    requires ByProfit(s)
    ensures WithProfit(Insert(s, x), p) == WithProfit(s, p) + WithProfit([x], p)
    decreases |s|, 1
  {
    if s == [] {
      assert Insert(s, x) == [x];
    } else if s[0].profit >= x.profit {
      InsertBehind(s, x, p);
    } else {
      InsertAhead(s, x, p);
    }
  }

  /** `x` goes behind the head. */
  lemma {:induction false} InsertBehind(s: seq<Job>, x: Job, p: int)
    requires ByProfit(s) && s != [] && s[0].profit >= x.profit
    ensures WithProfit(Insert(s, x), p) == WithProfit(s, p) + WithProfit([x], p)
    decreases |s|, 0
  {
    var t := s[1..];
    var h := if s[0].profit == p then [s[0]] else [];
    assert ByProfit(t);
    InsertStable(t, x, p);
    assert Insert(s, x) == [s[0]] + Insert(t, x);
    Cons(s[0], Insert(t, x), p);
    assert s == [s[0]] + t;
    Cons(s[0], t, p);
    calc {
      WithProfit(Insert(s, x), p);
      h + WithProfit(Insert(t, x), p);
      h + (WithProfit(t, p) + WithProfit([x], p));
      (h + WithProfit(t, p)) + WithProfit([x], p);
      WithProfit(s, p) + WithProfit([x], p);
    }
  }

  /** `x` goes in front of a head of lower profit. */
  lemma InsertAhead(s: seq<Job>, x: Job, p: int)
    requires ByProfit(s) && s != [] && s[0].profit < x.profit
    ensures WithProfit(Insert(s, x), p) == WithProfit(s, p) + WithProfit([x], p)
  {
    assert Insert(s, x) == [x] + s;
    Cons(x, s, p);
    Cons(x, [], p);
    assert [x] + [] == [x];
    if x.profit == p {
      Above(s, p);
    }
  }

  /** Where the head of an order by profit is below `p`, no job has profit `p`. */
  lemma Above(s: seq<Job>, p: int)
    requires ByProfit(s) && s != [] && s[0].profit < p
    ensures WithProfit(s, p) == []
  {
    Absent(s, p);
  }

  /** No job of profit `p`, no class of profit `p`. */
  lemma {:induction false} Absent(s: seq<Job>, p: int)
    requires forall k :: 0 <= k < |s| ==> s[k].profit != p
    ensures WithProfit(s, p) == []
    decreases |s|
  {
    if s != [] {
      Absent(s[1..], p);
    }
  }

  /** The stable sort keeps the input order among jobs of equal profit. */
  lemma {:induction false} StableSortStable(jobs: seq<Job>, p: int)
    ensures WithProfit(StableSort(jobs), p) == WithProfit(jobs, p)
    decreases |jobs|
  {
    if jobs != [] {
      var pre, last := jobs[..|jobs| - 1], jobs[|jobs| - 1];
      StableSortStable(pre, p);
      InsertStable(StableSort(pre), last, p);
      assert jobs == pre + [last];
      WithProfitAppend(pre, [last], p);
    }
  }

  /**
   * An order by non-increasing profit is determined by the order within
   * each profit class; so the stable sort's result is the only one that
   * keeps every class in input order.
   */
  lemma {:induction false} OrderDetermined(a: seq<Job>, b: seq<Job>)
    requires ByProfit(a) && ByProfit(b)
    requires forall p :: WithProfit(a, p) == WithProfit(b, p)
    ensures a == b
    decreases |a|
  {
    if a == [] || b == [] {
      if a != [] {
        Lead(a);
        assert false;
      } else if b != [] {
        Lead(b);
        assert false;
      }
    } else {
      HeadsAgree(a, b);
      assert ByProfit(a[1..]) && ByProfit(b[1..]);
      forall p
        ensures WithProfit(a[1..], p) == WithProfit(b[1..], p)
      {
        TailsAgree(a, b, p);
      }
      OrderDetermined(a[1..], b[1..]);
      assert a == [a[0]] + a[1..] && b == [b[0]] + b[1..];
    }
  }

  /** Two orders by profit with the same classes start with the same job. */
  lemma HeadsAgree(a: seq<Job>, b: seq<Job>)
    requires ByProfit(a) && ByProfit(b) && a != [] && b != []
    requires forall p :: WithProfit(a, p) == WithProfit(b, p)
    ensures a[0] == b[0]
  {
    var pa, pb := a[0].profit, b[0].profit;
    Lead(a);
    Lead(b);
    WithProfitMembers(a, pb);
    WithProfitMembers(b, pa);
    assert WithProfit(a, pb) == WithProfit(b, pb) && WithProfit(a, pa) == WithProfit(b, pa);
    var j :| 0 <= j < |a| && a[j] == b[0];
    var k :| 0 <= k < |b| && b[k] == a[0];
    assert pb <= pa && pa <= pb;
  }

  /** Dropping the same head from both keeps the classes equal. */
  lemma TailsAgree(a: seq<Job>, b: seq<Job>, p: int)
    requires a != [] && b != [] && a[0] == b[0] && WithProfit(a, p) == WithProfit(b, p)
    ensures WithProfit(a[1..], p) == WithProfit(b[1..], p)
  {
    Cons(a[0], a[1..], p);
    Cons(b[0], b[1..], p);
    assert a == [a[0]] + a[1..] && b == [b[0]] + b[1..];
    var h := if a[0].profit == p then [a[0]] else [];
    assert WithProfit(a[1..], p) == (h + WithProfit(a[1..], p))[|h|..];
    assert WithProfit(b[1..], p) == (h + WithProfit(b[1..], p))[|h|..];
  }

  /** The class of the head's profit starts with the head. */
  lemma Lead(s: seq<Job>)
    requires s != []
    ensures WithProfit(s, s[0].profit) != [] && WithProfit(s, s[0].profit)[0] == s[0]
  {
  }

  /** Any stable sort by non-increasing profit returns `StableSort(jobs)`. */
  lemma StableSortUnique(jobs: seq<Job>, r: seq<Job>)
    requires ByProfit(r) && forall p :: WithProfit(r, p) == WithProfit(jobs, p)
    ensures r == StableSort(jobs)
  {
    forall p
      ensures WithProfit(r, p) == WithProfit(StableSort(jobs), p)
    {
      StableSortStable(jobs, p);
    }
    OrderDetermined(r, StableSort(jobs));
  }
}
