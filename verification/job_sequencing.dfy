/**
 * Job sequencing with deadlines (Practical-4): after the sort by profit,
 * each job in turn takes the latest free time slot below both its deadline
 * and the largest deadline, and is skipped when every such slot is taken.
 *
 * Python marks a free slot by -1 in `slots` and stores the job's id in the
 * slot it takes; Java and C++ keep a separate `filled` flag per slot next
 * to the `slot` ids, and count the jobs placed. The model records, for
 * every job processed, the slot it took (or -1), which the source does not
 * keep; the properties of the schedule are stated through it.
 */
module JobSequencing {
  import opened JobOrder
  import opened Pigeonhole

  /** Python's marker of a free slot. */
  const Free := -1

  /** Python's `max(job.deadline for job in jobs)`. */
  function MaxDeadline(jobs: seq<Job>): (m: int)
    requires jobs != []
    ensures forall k :: 0 <= k < |jobs| ==> jobs[k].deadline <= m
    ensures exists k :: 0 <= k < |jobs| && jobs[k].deadline == m
  {
    var last := jobs[|jobs| - 1].deadline;
    if |jobs| == 1 then last
    else
      var m := MaxDeadline(jobs[..|jobs| - 1]);
      if last > m then last else m
  }

  /** The Java and C++ loop that finds `maxDeadline`, starting from 0. */
  function MaxDeadlineFrom0(jobs: seq<Job>): (m: nat)
    ensures forall k :: 0 <= k < |jobs| ==> jobs[k].deadline <= m
    ensures m == 0 || exists k :: 0 <= k < |jobs| && jobs[k].deadline == m
  {
    if jobs == [] then 0
    else
      var m := MaxDeadlineFrom0(jobs[..|jobs| - 1]);
      var d := jobs[|jobs| - 1].deadline;
      if d > m then d else m
  }

  /** On non-empty input the two agree, except that Java and C++ never go below 0. */
  lemma MaxDeadlineAgree(jobs: seq<Job>)
    requires jobs != []
    ensures MaxDeadlineFrom0(jobs) == (if MaxDeadline(jobs) < 0 then 0 else MaxDeadline(jobs))
  {
  }

  /** `min(max_deadline, job.deadline)`: the slots below it may take the job. */
  function Limit(maxDeadline: int, job: Job): int {
    if maxDeadline < job.deadline then maxDeadline else job.deadline
  }

  /** The number of slots: `[-1] * max_deadline` is empty for a negative count. */
  function SlotCount(maxDeadline: int): nat {
    if maxDeadline < 0 then 0 else maxDeadline
  }

  /**
   * The slot the inner loop stops at: the latest free slot below `limit`,
   * or -1 when every slot below `limit` is taken.
   */
  function LatestFree(free: seq<bool>, limit: int): (s: int)
    requires limit <= |free|
    ensures s == -1 ==> forall t :: 0 <= t < limit ==> !free[t]
    ensures s != -1 ==> 0 <= s < limit && free[s] && forall t :: s < t < limit ==> !free[t]
    decreases limit
  {
    if limit <= 0 then -1
    else if free[limit - 1] then limit - 1
    else LatestFree(free, limit - 1)
  }

  /**
   * The inner loop of all three ports, `for slot in range(limit - 1, -1,
   * -1)` and `for (j = limit - 1; j >= 0; j--)`, up to its `break`.
   */
  method FindSlot(free: seq<bool>, limit: int) returns (s: int)
    requires limit <= |free|
    ensures s == LatestFree(free, limit)
  {
    var j := limit - 1;
    while j >= 0
      invariant j < limit
      invariant LatestFree(free, limit) == LatestFree(free, j + 1)
    {
      if free[j] {
        return j;
      }
      j := j - 1;
    }
    s := -1;
  }

  // ---------------------------------------------------------------------
  // Python: `slots` with -1 for free, the `sequence` of jobs placed and
  // `max_profit`.

  datatype Run = Run(slots: seq<int>, sequence: seq<Job>, maxProfit: int, at: seq<int>)

  function FreeSlots(slots: seq<int>): (free: seq<bool>)
    ensures |free| == |slots| && forall t :: 0 <= t < |slots| ==> (free[t] <==> slots[t] == Free)
  {
    seq(|slots|, t requires 0 <= t < |slots| => slots[t] == Free)
  }

  /** One turn of Python's outer loop: the job takes the latest free slot, if any. */
  function Place(r: Run, job: Job, maxDeadline: int): Run
    requires |r.slots| == SlotCount(maxDeadline)
  {
    var s := LatestFree(FreeSlots(r.slots), Limit(maxDeadline, job));
    if s == -1 then r.(at := r.at + [-1])
    else Run(r.slots[s := job.id], r.sequence + [job], r.maxProfit + job.profit, r.at + [s])
  }

  /** Python's scheduling loop over `jobs`, in their order. */
  function Schedule(jobs: seq<Job>, maxDeadline: int): (r: Run)
    ensures |r.slots| == SlotCount(maxDeadline) && |r.at| == |jobs|
  {
    if jobs == [] then Run(seq(SlotCount(maxDeadline), _ => Free), [], 0, [])
    else Place(Schedule(jobs[..|jobs| - 1], maxDeadline), jobs[|jobs| - 1], maxDeadline)
  }

  /** The jobs whose recorded slot is not -1, in order. */
  function Selected(jobs: seq<Job>, at: seq<int>): seq<Job>
    requires |at| == |jobs|
  {
    if jobs == [] then []
    else Selected(jobs[..|jobs| - 1], at[..|at| - 1]) + (if at[|at| - 1] != -1 then [jobs[|jobs| - 1]] else [])
  }

  /** The slots taken, in the order they were taken. */
  function Taken(at: seq<int>): seq<int> {
    if at == [] then []
    else Taken(at[..|at| - 1]) + (if at[|at| - 1] != -1 then [at[|at| - 1]] else [])
  }

  function TotalProfit(s: seq<Job>): int {
    if s == [] then 0 else TotalProfit(s[..|s| - 1]) + s[|s| - 1].profit
  }

  predicate NoFreeIds(jobs: seq<Job>) {
    forall k :: 0 <= k < |jobs| ==> jobs[k].id != Free
  }

  /**
   * What Python's slot table promises after the first jobs: every job
   * placed sits in its own slot below its limit, and the slot holds its id;
   * every occupied slot was taken by some job; and a job was skipped only
   * when every slot below its limit is occupied.
   */
  ghost predicate Occupancy(jobs: seq<Job>, maxDeadline: int, slots: seq<int>, at: seq<int>) {
    && |slots| == SlotCount(maxDeadline) && |at| == |jobs|
    && (forall k :: 0 <= k < |jobs| && at[k] != -1 ==>
         0 <= at[k] < Limit(maxDeadline, jobs[k]) && slots[at[k]] == jobs[k].id)
    && Distinct(Taken(at))
    && (forall t :: 0 <= t < |slots| && slots[t] != Free ==> t in at)
    && (forall k, t :: 0 <= k < |jobs| && at[k] == -1 && 0 <= t < Limit(maxDeadline, jobs[k]) ==> slots[t] != Free)
  }

  /** `sequence` lists the jobs placed, in order, and `max_profit` is their total profit. */
  ghost predicate Accounted(jobs: seq<Job>, r: Run) {
    && |r.at| == |jobs|
    && r.sequence == Selected(jobs, r.at)
    && r.maxProfit == TotalProfit(r.sequence)
  }

  ghost predicate Consistent(jobs: seq<Job>, maxDeadline: int, r: Run) {
    Occupancy(jobs, maxDeadline, r.slots, r.at) && Accounted(jobs, r)
  }

  /** Whatever the ids, `sequence` and `max_profit` account for the jobs placed. */
  lemma {:induction false} ScheduleAccounted(jobs: seq<Job>, maxDeadline: int)
    ensures Accounted(jobs, Schedule(jobs, maxDeadline))
    decreases |jobs|
  {
    if jobs != [] {
      var pre, job := jobs[..|jobs| - 1], jobs[|jobs| - 1];
      ScheduleAccounted(pre, maxDeadline);
      var r := Schedule(pre, maxDeadline);
      var r' := Place(r, job, maxDeadline);
      assert r'.at[..|pre|] == r.at;
      if r'.sequence != r.sequence {
        assert r'.sequence == r.sequence + [job];
      }
    }
  }

  /** With no job whose id is -1, Python's run is consistent after every prefix of the jobs. */
  lemma {:induction false} ScheduleConsistent(jobs: seq<Job>, maxDeadline: int)
    requires NoFreeIds(jobs)
    ensures Consistent(jobs, maxDeadline, Schedule(jobs, maxDeadline))
    decreases |jobs|
  {
    if jobs != [] {
      var pre, job := jobs[..|jobs| - 1], jobs[|jobs| - 1];
      assert NoFreeIds(pre);
      ScheduleConsistent(pre, maxDeadline);
      ScheduleAccounted(jobs, maxDeadline);
      PlaceOccupancy(pre, job, maxDeadline, Schedule(pre, maxDeadline));
      assert pre + [job] == jobs;
    }
  }

  /** One turn of the loop keeps the slot table consistent. */
  lemma PlaceOccupancy(jobs: seq<Job>, job: Job, maxDeadline: int, r: Run)
    requires Occupancy(jobs, maxDeadline, r.slots, r.at) && NoFreeIds(jobs) && job.id != Free
    ensures Occupancy(jobs + [job], maxDeadline, Place(r, job, maxDeadline).slots, Place(r, job, maxDeadline).at)
  {
    var s := LatestFree(FreeSlots(r.slots), Limit(maxDeadline, job));
    if s == -1 {
      SkipOccupancy(jobs, job, maxDeadline, r.slots, r.at);
    } else {
      TakeOccupancy(jobs, job, maxDeadline, r.slots, r.at, s);
    }
  }

  /** A job skipped: every slot below its limit is occupied. */
  lemma SkipOccupancy(jobs: seq<Job>, job: Job, maxDeadline: int, slots: seq<int>, at: seq<int>)
    requires Occupancy(jobs, maxDeadline, slots, at)
    requires LatestFree(FreeSlots(slots), Limit(maxDeadline, job)) == -1
    ensures Occupancy(jobs + [job], maxDeadline, slots, at + [-1])
  {
    var all, at' := jobs + [job], at + [-1];
    assert forall k :: 0 <= k < |jobs| ==> all[k] == jobs[k] && at'[k] == at[k];
    assert at'[..|at|] == at;
    assert Taken(at') == Taken(at);
  }

  /** A job placed in the latest free slot `s` below its limit. */
  lemma TakeOccupancy(jobs: seq<Job>, job: Job, maxDeadline: int, slots: seq<int>, at: seq<int>, s: int)
    requires Occupancy(jobs, maxDeadline, slots, at) && NoFreeIds(jobs) && job.id != Free
    requires s == LatestFree(FreeSlots(slots), Limit(maxDeadline, job)) && s != -1
    ensures Occupancy(jobs + [job], maxDeadline, slots[s := job.id], at + [s])
  {
    var all, at', slots' := jobs + [job], at + [s], slots[s := job.id];
    assert forall k :: 0 <= k < |jobs| ==> all[k] == jobs[k] && at'[k] == at[k];
    assert slots[s] == Free;
    assert forall k :: 0 <= k < |jobs| && at[k] != -1 ==> slots[at[k]] != Free;
    assert s !in at;
    TakenMembers(at);
    DistinctAppend(Taken(at), s);
    assert at'[..|at|] == at;
    assert Taken(at') == Taken(at) + [s];
    forall k | 0 <= k < |jobs| && at[k] != -1
      ensures slots'[at[k]] == jobs[k].id
    {
      assert at[k] != s;
    }
  }

  /** `Taken(at)` holds exactly the entries of `at` other than -1. */
  lemma {:induction false} TakenMembers(at: seq<int>)
    ensures forall t :: t in Taken(at) <==> t in at && t != -1
    decreases |at|
  {
    if at != [] {
      TakenMembers(at[..|at| - 1]);
      assert at == at[..|at| - 1] + [at[|at| - 1]];
    }
  }

  /** As many jobs are placed as slots are taken. */
  lemma {:induction false} SelectedCount(jobs: seq<Job>, at: seq<int>)
    requires |at| == |jobs|
    ensures |Selected(jobs, at)| == |Taken(at)|
    decreases |jobs|
  {
    if jobs != [] {
      SelectedCount(jobs[..|jobs| - 1], at[..|at| - 1]);
    }
  }

  /** The taken slots lie below the number of slots. */
  lemma {:induction false} TakenBelow(at: seq<int>, n: int)
    requires forall k :: 0 <= k < |at| && at[k] != -1 ==> 0 <= at[k] < n
    ensures Below(Taken(at), n)
    decreases |at|
  {
    if at != [] {
      TakenBelow(at[..|at| - 1], n);
    }
  }

  /** At most one job per slot, so no more jobs are placed than there are slots. */
  lemma SequenceFits(jobs: seq<Job>, maxDeadline: int, r: Run)
    requires Consistent(jobs, maxDeadline, r)
    ensures |r.sequence| <= SlotCount(maxDeadline)
  {
    SelectedCount(jobs, r.at);
    TakenBelow(r.at, SlotCount(maxDeadline));
    DistinctBelow(Taken(r.at), SlotCount(maxDeadline));
  }

  datatype Outcome = MaxOfEmpty | Scheduled(jobs: seq<Job>, run: Run)

  /**
   * `job_sequencing(jobs)`: sorts the jobs (stably) by profit, highest
   * first, and schedules them. `max` of no deadlines raises, so empty input
   * fails. `max_profit` is the total profit of `sequence`; without a job
   * whose id is -1, the run is consistent and places at most one job per
   * slot.
   */
  method PyJobSequencing(jobs: seq<Job>) returns (out: Outcome)
    ensures out == MaxOfEmpty <==> jobs == []
    ensures out.Scheduled? ==> out.jobs == StableSort(jobs) && out.run == Schedule(out.jobs, MaxDeadline(jobs))
    ensures out.Scheduled? ==> out.run.maxProfit == TotalProfit(out.run.sequence)
    ensures out.Scheduled? && NoFreeIds(jobs) ==>
      && Consistent(out.jobs, MaxDeadline(jobs), out.run)
      && |out.run.sequence| <= SlotCount(MaxDeadline(jobs))
  {
    if jobs == [] {
      return MaxOfEmpty;
    }
    var sorted := StableSort(jobs);
    StableSortPermutes(jobs);
    var maxDeadline := MaxDeadline(sorted);
    SameMax(jobs, sorted);
    var run := ScheduleLoop(sorted, maxDeadline);
    out := Scheduled(sorted, run);
    Promises(jobs, sorted, maxDeadline);
  }

  /** Python's outer loop over the sorted jobs. */
  method ScheduleLoop(jobs: seq<Job>, maxDeadline: int) returns (run: Run)
    ensures run == Schedule(jobs, maxDeadline)
  {
    run := Run(seq(SlotCount(maxDeadline), _ => Free), [], 0, []);
    for i := 0 to |jobs|
      invariant run == Schedule(jobs[..i], maxDeadline)
    {
      assert jobs[..i + 1][..i] == jobs[..i];
      run := PlaceJob(run, jobs[i], maxDeadline);
    }
    assert jobs[..|jobs|] == jobs;
  }

  /** What the run promises for a permutation `sorted` of the input. */
  lemma Promises(jobs: seq<Job>, sorted: seq<Job>, maxDeadline: int)
    requires multiset(sorted) == multiset(jobs)
    ensures var run := Schedule(sorted, maxDeadline);
      && run.maxProfit == TotalProfit(run.sequence)
      && (NoFreeIds(jobs) ==> Consistent(sorted, maxDeadline, run) && |run.sequence| <= SlotCount(maxDeadline))
  {
    ScheduleAccounted(sorted, maxDeadline);
    if NoFreeIds(jobs) {
      SameIds(jobs, sorted);
      ScheduleConsistent(sorted, maxDeadline);
      SequenceFits(sorted, maxDeadline, Schedule(sorted, maxDeadline));
    }
  }

  /** The body of Python's outer loop. */
  method PlaceJob(r: Run, job: Job, maxDeadline: int) returns (r': Run)
    requires |r.slots| == SlotCount(maxDeadline)
    ensures r' == Place(r, job, maxDeadline)
  {
    var s := FindSlot(FreeSlots(r.slots), Limit(maxDeadline, job));
    if s == -1 {
      r' := r.(at := r.at + [-1]);
    } else {
      r' := Run(r.slots[s := job.id], r.sequence + [job], r.maxProfit + job.profit, r.at + [s]);
    }
  }

  /** A permutation has the same largest deadline. */
  lemma SameMax(jobs: seq<Job>, sorted: seq<Job>)
    requires jobs != [] && multiset(sorted) == multiset(jobs)
    ensures sorted != [] && MaxDeadline(sorted) == MaxDeadline(jobs)
  {
    assert jobs[0] in multiset(sorted);
    var m, n := MaxDeadline(jobs), MaxDeadline(sorted);
    var j :| 0 <= j < |jobs| && jobs[j].deadline == m;
    var k :| 0 <= k < |sorted| && sorted[k].deadline == n;
    assert jobs[j] in multiset(sorted) && sorted[k] in multiset(jobs);
  }

  /** A permutation has the same ids. */
  lemma SameIds(jobs: seq<Job>, sorted: seq<Job>)
    requires NoFreeIds(jobs) && multiset(sorted) == multiset(jobs)
    ensures NoFreeIds(sorted)
  {
    forall k | 0 <= k < |sorted|
      ensures sorted[k].id != Free
    {
      assert sorted[k] in multiset(jobs);
    }
  }

  // ---------------------------------------------------------------------
  // Java and C++: `filled` flags, `slot` ids, `totalProfit` and `jobCount`.

  datatype Slots = Slots(slot: seq<int>, filled: seq<bool>, totalProfit: int, jobCount: nat)

  function Unfilled(filled: seq<bool>): (free: seq<bool>)
    ensures |free| == |filled| && forall t :: 0 <= t < |filled| ==> free[t] == !filled[t]
  {
    seq(|filled|, t requires 0 <= t < |filled| => !filled[t])
  }

  /** One turn of the Java and C++ outer loop. */
  function Fill(r: Slots, job: Job, maxDeadline: nat): Slots
    requires |r.filled| == maxDeadline && |r.slot| == maxDeadline
  {
    var s := LatestFree(Unfilled(r.filled), Limit(maxDeadline, job));
    if s == -1 then r
    else Slots(r.slot[s := job.id], r.filled[s := true], r.totalProfit + job.profit, r.jobCount + 1)
  }

  /** The Java and C++ scheduling loop over `jobs`, in their order. */
  function FillAll(jobs: seq<Job>, maxDeadline: nat): (r: Slots)
    ensures |r.filled| == maxDeadline && |r.slot| == maxDeadline
  {
    if jobs == [] then Slots(seq(maxDeadline, _ => 0), seq(maxDeadline, _ => false), 0, 0)
    else Fill(FillAll(jobs[..|jobs| - 1], maxDeadline), jobs[|jobs| - 1], maxDeadline)
  }

  function CountFilled(filled: seq<bool>): nat {
    if filled == [] then 0 else CountFilled(filled[..|filled| - 1]) + (if filled[|filled| - 1] then 1 else 0)
  }

  /**
   * For a non-negative `maxDeadline` the Java and C++ loop makes the same
   * choices as Python's whenever no id is -1: a slot is filled exactly when
   * Python's is occupied, by the same id, and the totals agree with
   * Python's `max_profit` and `len(sequence)`.
   */
  lemma {:induction false} FillMatchesPlace(jobs: seq<Job>, maxDeadline: nat)
    requires NoFreeIds(jobs)
    ensures var j, p := FillAll(jobs, maxDeadline), Schedule(jobs, maxDeadline);
      && (forall t :: 0 <= t < maxDeadline ==> (j.filled[t] <==> p.slots[t] != Free))
      && (forall t :: 0 <= t < maxDeadline && j.filled[t] ==> j.slot[t] == p.slots[t])
      && j.totalProfit == p.maxProfit
      && j.jobCount == |p.sequence|
    decreases |jobs|
  {
    if jobs != [] {
      var pre := jobs[..|jobs| - 1];
      assert NoFreeIds(pre);
      FillMatchesPlace(pre, maxDeadline);
      var j, p := FillAll(pre, maxDeadline), Schedule(pre, maxDeadline);
      assert FreeSlots(p.slots) == Unfilled(j.filled);
    }
  }

  /** `jobCount` is the number of filled slots. */
  lemma {:induction false} JobCountFilled(jobs: seq<Job>, maxDeadline: nat)
    ensures FillAll(jobs, maxDeadline).jobCount == CountFilled(FillAll(jobs, maxDeadline).filled)
    decreases |jobs|
  {
    if jobs == [] {
      var f := seq(maxDeadline, _ => false);
      NoneFilled(f);
    } else {
      var pre := jobs[..|jobs| - 1];
      JobCountFilled(pre, maxDeadline);
      var r := FillAll(pre, maxDeadline);
      var s := LatestFree(Unfilled(r.filled), Limit(maxDeadline, jobs[|jobs| - 1]));
      if s != -1 {
        CountSet(r.filled, s);
      }
    }
  }

  lemma {:induction false} NoneFilled(f: seq<bool>)
    requires forall t :: 0 <= t < |f| ==> !f[t]
    ensures CountFilled(f) == 0
    decreases |f|
  {
    if f != [] {
      NoneFilled(f[..|f| - 1]);
    }
  }

  /** Filling an unfilled slot adds one to the count. */
  lemma {:induction false} CountSet(f: seq<bool>, s: nat)
    requires s < |f| && !f[s]
    ensures CountFilled(f[s := true]) == CountFilled(f) + 1
    decreases |f|
  {
    var n := |f|;
    assert f[s := true][..n - 1] == if s == n - 1 then f[..n - 1] else f[..n - 1][s := true];
    if s < n - 1 {
      CountSet(f[..n - 1], s);
    }
  }

  /**
   * The part of `jobSequencing` after the sort, in Java and in C++: the
   * largest deadline (0 for no jobs), then the slot assignment over the jobs
   * in the order given. C++'s `std::sort` may order jobs of equal profit
   * either way; this part is the same for whichever order it leaves.
   */
  method AssignSlots(jobs: seq<Job>) returns (maxDeadline: nat, r: Slots)
    ensures maxDeadline == MaxDeadlineFrom0(jobs) && r == FillAll(jobs, maxDeadline)
    ensures r.jobCount == CountFilled(r.filled) && r.jobCount <= maxDeadline
    ensures NoFreeIds(jobs) && jobs != [] ==> r.totalProfit == Schedule(jobs, MaxDeadline(jobs)).maxProfit
  {
    maxDeadline := LargestDeadline(jobs);
    r := FillLoop(jobs, maxDeadline);
    JobCountFilled(jobs, maxDeadline);
    CountAtMost(r.filled);
    if NoFreeIds(jobs) && jobs != [] {
      FillMatchesPlace(jobs, maxDeadline);
      MaxDeadlineAgree(jobs);
      if MaxDeadline(jobs) < 0 {
        NothingPlaced(jobs, MaxDeadline(jobs));
        NothingPlaced(jobs, 0);
      }
    }
  }

  /** The Java and C++ loop for `maxDeadline`. */
  method LargestDeadline(jobs: seq<Job>) returns (maxDeadline: nat)
    ensures maxDeadline == MaxDeadlineFrom0(jobs)
  {
    maxDeadline := 0;
    for i := 0 to |jobs|
      invariant maxDeadline == MaxDeadlineFrom0(jobs[..i])
    {
      assert jobs[..i + 1][..i] == jobs[..i];
      if jobs[i].deadline > maxDeadline {
        maxDeadline := jobs[i].deadline;
      }
    }
    assert jobs[..|jobs|] == jobs;
  }

  /** The Java and C++ assignment loop. */
  method FillLoop(jobs: seq<Job>, maxDeadline: nat) returns (r: Slots)
    ensures r == FillAll(jobs, maxDeadline)
  {
    r := Slots(seq(maxDeadline, _ => 0), seq(maxDeadline, _ => false), 0, 0);
    for i := 0 to |jobs|
      invariant r == FillAll(jobs[..i], maxDeadline)
    {
      assert jobs[..i + 1][..i] == jobs[..i];
      var s := FindSlot(Unfilled(r.filled), Limit(maxDeadline, jobs[i]));
      if s != -1 {
        r := Slots(r.slot[s := jobs[i].id], r.filled[s := true], r.totalProfit + jobs[i].profit, r.jobCount + 1);
      }
    }
    assert jobs[..|jobs|] == jobs;
  }

  lemma {:induction false} CountAtMost(f: seq<bool>)
    ensures CountFilled(f) <= |f|
    decreases |f|
  {
    if f != [] {
      CountAtMost(f[..|f| - 1]);
    }
  }

  /** With no slot to take nothing is placed. */
  lemma {:induction false} NothingPlaced(jobs: seq<Job>, maxDeadline: int)
    requires maxDeadline <= 0
    ensures Schedule(jobs, maxDeadline).maxProfit == 0 && Schedule(jobs, maxDeadline).sequence == []
    decreases |jobs|
  {
    if jobs != [] {
      NothingPlaced(jobs[..|jobs| - 1], maxDeadline);
    }
  }

  /**
   * Java's `jobSequencing`: the stable sort by profit, then the slot
   * assignment. Its totals are Python's whenever no id is -1.
   */
  method JavaJobSequencing(jobs: seq<Job>) returns (sorted: seq<Job>, maxDeadline: nat, r: Slots)
    ensures sorted == StableSort(jobs) && multiset(sorted) == multiset(jobs)
    ensures maxDeadline == MaxDeadlineFrom0(jobs) && r == FillAll(sorted, maxDeadline)
    ensures r.jobCount == CountFilled(r.filled) && r.jobCount <= maxDeadline
    ensures NoFreeIds(jobs) && jobs != [] ==> r.totalProfit == Schedule(sorted, MaxDeadline(jobs)).maxProfit
  {
    sorted := StableSort(jobs);
    StableSortPermutes(jobs);
    maxDeadline, r := AssignSlots(sorted);
    SameMaxFrom0(jobs, sorted);
    if NoFreeIds(jobs) && jobs != [] {
      SameIds(jobs, sorted);
      SameMax(jobs, sorted);
    }
  }

  /** A permutation has the same `maxDeadline`. */
  lemma SameMaxFrom0(jobs: seq<Job>, sorted: seq<Job>)
    requires multiset(sorted) == multiset(jobs)
    ensures MaxDeadlineFrom0(sorted) == MaxDeadlineFrom0(jobs)
  {
    var m, n := MaxDeadlineFrom0(jobs), MaxDeadlineFrom0(sorted);
    if m != 0 {
      var j :| 0 <= j < |jobs| && jobs[j].deadline == m;
      assert jobs[j] in multiset(sorted);
    }
    if n != 0 {
      var k :| 0 <= k < |sorted| && sorted[k].deadline == n;
      assert sorted[k] in multiset(jobs);
    }
    forall k | 0 <= k < |jobs|
      ensures jobs[k].deadline <= n
    {
      assert jobs[k] in multiset(sorted);
    }
    forall k | 0 <= k < |sorted|
      ensures sorted[k].deadline <= m
    {
      assert sorted[k] in multiset(jobs);
    }
  }
}
