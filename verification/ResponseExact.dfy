/** Exactly when a time bounds every response of a task under fixed priorities, whatever its
    deadline and its period: the worst schedule releases every task at 0 and as often as it can,
    each instance for its whole WCET. */
module ResponseExact {
  import opened Arith
  import opened Common
  import opened Counting
  import opened ResponseTime
  import opened FixedPriority
  import EdfResponse

  // The worst releases

  /** The first n releases, a period apart from the first. */
  function Every(t: Task, first: nat, n: nat): (q: seq<Instance>)
    ensures |q| == n && forall k :: 0 <= k < n ==> q[k] == Instance(first + Times(k, t.period), t.wcet)
  {
    seq(n, k requires 0 <= k < n => Instance(first + Times(k, t.period), t.wcet))
  }

  function Synchronous(tasks: seq<Task>, n: nat): (jobs: seq<seq<Instance>>)
    ensures |jobs| == |tasks| && forall j :: 0 <= j < |jobs| ==> jobs[j] == Every(tasks[j], 0, n)
  {
    seq(|tasks|, j requires 0 <= j < |tasks| => Every(tasks[j], 0, n))
  }

  lemma EverySporadic(t: Task, first: nat, n: nat)
    ensures Sporadic(t, Every(t, first, n))
  {
    forall k | 1 <= k < n ensures Times(k - 1, t.period) + t.period <= Times(k, t.period) {
      Distributes(k - 1, 1, t.period);
    }
  }

  lemma SynchronousReleases(tasks: seq<Task>, n: nat)
    requires Periodic(tasks)
    ensures Releases(tasks, Synchronous(tasks, n))
  {
    forall j | 0 <= j < |tasks| ensures Sporadic(tasks[j], Synchronous(tasks, n)[j]) {
      EverySporadic(tasks[j], 0, n);
    }
  }

  lemma {:induction false} EveryWork(t: Task, first: nat, n: nat)
    ensures Work(Every(t, first, n)) == Times(n, t.wcet)
  {
    if n > 0 {
      EveryWork(t, first, n - 1);
      assert Every(t, first, n)[..n - 1] == Every(t, first, n - 1);
      Distributes(n - 1, 1, t.wcet);
    }
  }

  /** Released from 0 by u: a WCET for each period begun. */
  lemma {:induction false} EveryArrived(t: Task, n: nat, u: nat)
    requires t.period > 0
    ensures Arrived(Every(t, 0, n), u) == Times(if Ceil(u, t.period) < n then Ceil(u, t.period) else n, t.wcet)
  {
    CeilBounds(u, t.period);
    if n > 0 {
      var c := Ceil(u, t.period);
      EveryArrived(t, n - 1, u);
      assert Every(t, 0, n)[..n - 1] == Every(t, 0, n - 1);
      Distributes(n - 1, 1, t.wcet);
      if Times(n - 1, t.period) < u {
        MulCancels(n - 1, c, t.period);
      } else if c >= n {
        MulMonotone(n - 1, c - 1, t.period);
      }
    }
  }

  lemma CeilSmall(u: nat, p: nat)
    requires 0 < p
    ensures Ceil(u, p) <= u
  {
    CeilBounds(u, p);
    if u > 0 {
      MulMonotone(1, p, Ceil(u, p) - 1);
      assert (Ceil(u, p) - 1) * p == p * (Ceil(u, p) - 1);
    } else {
      MulCancels(Ceil(u, p) - 1, 0, p);
    }
  }

  // The schedule

  /** The pending task of the highest priority, among the first n. */
  lemma {:induction false} Top(tasks: seq<Task>, jobs: seq<seq<Instance>>, run: seq<Slot>, n: nat) returns (s: Slot)
    requires |jobs| == |tasks| && n <= |tasks|
    ensures match s
            case Idle => forall k :: 0 <= k < n ==> !Pending(run, jobs, k, |run|)
            case Run(j) =>
              && j < n && Pending(run, jobs, j, |run|)
              && forall k :: 0 <= k < n && PriorityOver(k, j, tasks) ==> !Pending(run, jobs, k, |run|)
  {
    if n == 0 {
      s := Idle;
    } else {
      s := Top(tasks, jobs, run, n - 1);
      if Pending(run, jobs, n - 1, |run|) && (s.Idle? || PriorityOver(n - 1, s.task, tasks)) {
        s := Run(n - 1);
      }
    }
  }

  lemma {:induction false} Greedy(tasks: seq<Task>, jobs: seq<seq<Instance>>, length: nat) returns (run: seq<Slot>)
    requires Releases(tasks, jobs)
    ensures |run| == length && Schedule(tasks, jobs, run)
  {
    if length == 0 {
      run := [];
    } else {
      var shorter := Greedy(tasks, jobs, length - 1);
      var s := Top(tasks, jobs, shorter, |tasks|);
      run := shorter + [s];
      forall t | 0 <= t < length ensures Dispatched(tasks, jobs, run, t) {
        forall k: nat | k < |tasks| ensures Pending(run, jobs, k, t) == Pending(shorter, jobs, k, t) {
          assert run[..t] == shorter[..t];
        }
        if t < length - 1 {
          assert Dispatched(tasks, jobs, shorter, t);
        }
      }
    }
  }

  // When i has been given its work

  /** The tick that brings a task's service up to a goal. */
  lemma {:induction false} Reached(run: seq<Slot>, i: nat, goal: nat, end: nat) returns (t: nat)
    requires end <= |run| && 0 < goal <= Served(run, i, end)
    ensures 0 < t <= end && run[t - 1] == Run(i) && Served(run, i, t) == goal
  {
    if end > 0 {
      ServedStep(run, i, end - 1);
    }
    if Served(run, i, end - 1) >= goal {
      t := Reached(run, i, goal, end - 1);
    } else {
      t := end;
    }
  }

  /** Just before a tick of i, the tasks of priority over it have been served all released by
      then: the first n of them, all the analysis counts. */
  lemma {:induction false} AboveServed(tasks: seq<Task>, run: seq<Slot>, i: nat, n: nat, t: nat, count: nat)
    requires Periodic(tasks) && i < |tasks| && n <= |tasks| && 0 < t <= count && t <= |run|
    requires var jobs := Synchronous(tasks, count);
      forall k :: 0 <= k < |tasks| && PriorityOver(k, i, tasks) ==> !Pending(run, jobs, k, t - 1)
    ensures Ticks(run[..t], Above(tasks, i, n)) >= Load(n, i, tasks, FREE, t)
  {
    if n > 0 {
      var k := n - 1;
      AboveServed(tasks, run, i, k, t, count);
      AboveNext(tasks, i, k, run[..t]);
      LoadNext(tasks, i, k, t);
      if PriorityOver(k, i, tasks) {
        EveryArrived(tasks[k], count, t);
        CeilSmall(t, tasks[k].period);
        ServedWindow(run, k, t - 1, t);
      }
    }
  }

  /** The instance k of i is done in that schedule only after a window that fits it. */
  lemma DoneFits(tasks: seq<Task>, run: seq<Slot>, i: nat, k: nat, end: nat, count: nat)
    requires Periodic(tasks) && i < |tasks| && end <= count && end <= |run|
    requires Schedule(tasks, Synchronous(tasks, count), run)
    requires Served(run, i, end) >= Times(k + 1, tasks[i].wcet)
    ensures exists t: nat :: t <= end && WindowFits(i, tasks, k, t)
  {
    var goal := Times(k + 1, tasks[i].wcet);
    if goal == 0 {
      LoadOfNone(|tasks|, i, tasks);
      assert WindowFits(i, tasks, k, 0);
    } else {
      var t := Reached(run, i, goal, end);
      assert Dispatched(tasks, Synchronous(tasks, count), run, t - 1);
      AboveServed(tasks, run, i, |tasks|, t, count);
      var level := (s: Slot) => AtLevel(tasks, i, s);
      TicksAdd(run[..t], Above(tasks, i, |tasks|), OfTask(i), level);
      assert WindowFits(i, tasks, k, t);
    }
  }

  lemma {:induction false} LoadOfNone(n: nat, i: nat, tasks: seq<Task>)
    requires n <= |tasks| && i < |tasks| && Periodic(tasks)
    ensures Load(n, i, tasks, FREE, 0) == 0
  {
    if n > 0 {
      LoadOfNone(n - 1, i, tasks);
      LoadNext(tasks, i, n - 1, 0);
      CeilSmall(0, tasks[n - 1].period);
    }
  }

  /** r bounds the responses of task i when all are released at 0 and as often as they can be, for
      their whole WCET. */
  ghost predicate WorstBounds(i: nat, tasks: seq<Task>, r: nat) {
    forall count: nat, run, k: nat :: Schedule(tasks, Synchronous(tasks, count), run) ==>
      InTime(Synchronous(tasks, count), run, i, k, r)
  }

  /** Such a time fits: the worst schedule shows each window. */
  lemma WorstFits(i: nat, tasks: seq<Task>, r: nat)
    requires i < |tasks| && Periodic(tasks) && WorstBounds(i, tasks, r)
    ensures Fits(i, tasks, r)
  {
    forall k: nat ensures FitsFor(i, tasks, k, r) {
      var release := Times(k, tasks[i].period);
      var count := release + r + k + 1;
      var jobs := Synchronous(tasks, count);
      SynchronousReleases(tasks, count);
      var run := Greedy(tasks, jobs, release + r);
      assert InTime(jobs, run, i, k, r);
      assert jobs[i][..k + 1] == Every(tasks[i], 0, k + 1);
      EveryWork(tasks[i], 0, k + 1);
      DoneFits(tasks, run, i, k, release + r, count);
    }
  }

  lemma BoundFits(i: nat, tasks: seq<Task>, r: nat)
    requires i < |tasks| && Periodic(tasks) && Bounds(i, tasks, r)
    ensures Fits(i, tasks, r)
  {
    WorstFits(i, tasks, r);
  }

  /** A time bounds every response of task i if and only if, for each number of its instances one
      after the other, a window that fits them ends within it of the last release. */
  lemma BoundExactly(i: nat, tasks: seq<Task>, r: nat)
    requires i < |tasks| && Periodic(tasks)
    ensures Bounds(i, tasks, r) <==> Fits(i, tasks, r)
  {
    if Bounds(i, tasks, r) {
      BoundFits(i, tasks, r);
    }
    if Fits(i, tasks, r) {
      forall jobs: seq<seq<Instance>>, run: seq<Slot>, n: nat | Schedule(tasks, jobs, run)
        ensures InTime(jobs, run, i, n, r) {
        if n < |jobs[i]| && jobs[i][n].release + r <= |run| {
          FitsBounds(tasks, jobs, run, i, n, r);
        }
      }
    }
  }

  /** The analysis's answer: no lower bound holds, and with none within the deadline the
      deadline is no bound either. */
  lemma AnswerIsLeast(i: nat, tasks: seq<Task>, r: nat)
    requires i < |tasks| && Periodic(tasks) && Bounds(i, tasks, r)
    ensures exists x: nat :: x <= r && Enough(i, tasks, FREE, x)
  {
    BoundFits(i, tasks, r);
    assert FitsFor(i, tasks, 0, r);
    var t: nat :| t <= Times(0, tasks[i].period) + r && WindowFits(i, tasks, 0, t);
    assert Enough(i, tasks, FREE, t);
  }

  /** response_time, without costs: when its answer is within the period, it is the longest
      response there can be; when it has none, a deadline can be missed. */
  method WorstResponse(i: nat, tasks: seq<Task>) returns (bound: Option<nat>)
    requires i < |tasks| && Periodic(tasks)
    ensures bound.Some? ==> bound.value <= tasks[i].deadline && forall r :: Bounds(i, tasks, r) ==> bound.value <= r
    ensures bound.Some? && bound.value <= tasks[i].period ==> Bounds(i, tasks, bound.value)
    ensures bound.None? ==> !Bounds(i, tasks, tasks[i].deadline)
  {
    bound := ResponseTime.ResponseTime(i, tasks, FREE);
    forall r: nat | Bounds(i, tasks, r) ensures exists x: nat :: x <= r && Enough(i, tasks, FREE, x) {
      AnswerIsLeast(i, tasks, r);
    }
    if bound.Some? && bound.value <= tasks[i].period {
      EnoughFits(i, tasks, bound.value);
      BoundExactly(i, tasks, bound.value);
    }
  }

  // Only the instances of one busy period matter

  /** A time in which task i and those of priority over it, released as often as they can, are
      all served. */
  predicate LevelBusy(i: nat, tasks: seq<Task>, length: nat)
    requires i < |tasks| && Periodic(tasks)
  {
    0 < length
    && Times(Ceil(length, tasks[i].period), tasks[i].wcet) + Load(|tasks|, i, tasks, FREE, length) <= length
  }

  /** Past a busy period the windows repeat. */
  lemma {:induction false} FitsLater(i: nat, tasks: seq<Task>, r: nat, length: nat, k: nat)
    requires i < |tasks| && Periodic(tasks) && LevelBusy(i, tasks, length)
    requires forall j: nat :: j < Ceil(length, tasks[i].period) ==> FitsFor(i, tasks, j, r)
    ensures FitsFor(i, tasks, k, r)
  {
    var p, c, rounds := tasks[i].period, tasks[i].wcet, Ceil(length, tasks[i].period);
    if k >= rounds {
      CeilBounds(length, p);
      MulCancels(0, rounds, p);
      FitsLater(i, tasks, r, length, k - rounds);
      var t: nat :| t <= Times(k - rounds, p) + r && WindowFits(i, tasks, k - rounds, t);
      LoadAdds(|tasks|, i, tasks, t, length);
      Distributes(k - rounds, rounds, p);
      Distributes(k - rounds + 1, rounds, c);
      assert WindowFits(i, tasks, k, t + length);
    }
  }

  lemma FitsWithin(i: nat, tasks: seq<Task>, r: nat, length: nat)
    requires i < |tasks| && Periodic(tasks) && LevelBusy(i, tasks, length)
    ensures Fits(i, tasks, r) <==> forall k: nat :: k < Ceil(length, tasks[i].period) ==> FitsFor(i, tasks, k, r)
  {
    if forall k: nat :: k < Ceil(length, tasks[i].period) ==> FitsFor(i, tasks, k, r) {
      forall k: nat ensures FitsFor(i, tasks, k, r) {
        FitsLater(i, tasks, r, length, k);
      }
    }
  }

  // Checking it

  /** Task i and those of priority over it, of the first n. */
  function Level(i: nat, tasks: seq<Task>, n: nat): seq<Task>
    requires i < |tasks| && n <= |tasks|
  {
    if n == 0 then []
    else Level(i, tasks, n - 1) + if n - 1 == i || PriorityOver(n - 1, i, tasks) then [tasks[n - 1]] else []
  }

  lemma {:induction false} LevelDemand(i: nat, tasks: seq<Task>, n: nat, t: nat)
    requires i < |tasks| && n <= |tasks| && Periodic(tasks)
    ensures Periodic(Level(i, tasks, n))
    ensures EdfResponse.Demand(Level(i, tasks, n), FREE, t)
         == Load(n, i, tasks, FREE, t) + if i < n then Times(Ceil(t, tasks[i].period), tasks[i].wcet) else 0
  {
    if n > 0 {
      var k := n - 1;
      LevelDemand(i, tasks, k, t);
      LoadNext(tasks, i, k, t);
      if k == i || PriorityOver(k, i, tasks) {
        var level := Level(i, tasks, n);
        assert level[..|level| - 1] == Level(i, tasks, k) && level[|level| - 1] == tasks[k];
      } else {
        assert Level(i, tasks, n) == Level(i, tasks, k);
      }
    }
  }

  /** Whether a window that fits k + 1 instances ends by a limit: the least one is looked for,
      from the work of the instances on. */
  method WindowBy(i: nat, tasks: seq<Task>, k: nat, limit: nat) returns (fits: bool)
    requires i < |tasks| && Periodic(tasks)
    ensures fits <==> exists t: nat :: t <= limit && WindowFits(i, tasks, k, t)
  {
    var own := Times(k + 1, tasks[i].wcet);
    var t := own;
    while t <= limit
      invariant t <= own + Load(|tasks|, i, tasks, FREE, t)
      invariant forall x: nat :: WindowFits(i, tasks, k, x) ==> t <= x
      decreases limit - t
    {
      var next := own + Load(|tasks|, i, tasks, FREE, t);
      if next == t {
        assert WindowFits(i, tasks, k, t);
        return true;
      }
      forall x: nat | WindowFits(i, tasks, k, x) ensures next <= x {
        LoadRises(|tasks|, i, tasks, FREE, t, x);
      }
      LoadRises(|tasks|, i, tasks, FREE, t, next);
      t := next;
    }
    return false;
  }

  /** Whether r bounds every response of task i, decided from the tasks alone when their load at
      its level is below 1. */
  method BoundHolds(i: nat, tasks: seq<Task>, r: nat) returns (holds: Option<bool>)
    requires i < |tasks| && Periodic(tasks)
    ensures Periodic(Level(i, tasks, |tasks|))
    ensures holds.None? <==> EdfResponse.Utilization(Level(i, tasks, |tasks|), FREE) >= 1.0
    ensures holds.Some? ==> holds.value == Bounds(i, tasks, r)
  {
    LevelDemand(i, tasks, |tasks|, 0);
    var period := EdfResponse.BusyPeriod(Level(i, tasks, |tasks|), FREE);
    if period.None? {
      return None;
    }
    BoundExactly(i, tasks, r);
    LevelDemand(i, tasks, |tasks|, period.value);
    // a level without work is busy no longer than any time
    var length := if period.value > 0 then period.value else 1;
    if period.value == 0 {
      EdfResponse.NothingAsked(Level(i, tasks, |tasks|), FREE, 1);
      LevelDemand(i, tasks, |tasks|, 1);
    }
    FitsWithin(i, tasks, r, length);
    for k := 0 to Ceil(length, tasks[i].period)
      invariant forall j: nat :: j < k ==> FitsFor(i, tasks, j, r)
    {
      var fits := WindowBy(i, tasks, k, Times(k, tasks[i].period) + r);
      if !fits {
        assert !FitsFor(i, tasks, k, r);
        return Some(false);
      }
      assert FitsFor(i, tasks, k, r);
    }
    return Some(true);
  }

  // Past the period

  const SHORT: seq<Task> := [Task(5, 100, 5), Task(2, 6, 7)]
  const LONG: seq<Task> := [Task(3, 6, 3), Task(2, 4, 5)]

  lemma TwoTasks(a: Task, b: Task, t: nat)
    requires a.period > 0 && b.period > 0 && a.deadline < b.deadline
    ensures Load(2, 1, [a, b], FREE, t) == Times(Ceil(t, a.period), a.wcet)
  {
    LoadNext([a, b], 1, 0, t);
    LoadNext([a, b], 1, 1, t);
  }

  /** A response past the period may still be a bound: 7, past task 1's period of 6. */
  lemma PastPeriodBounds()
    ensures Window(1, SHORT, FREE, 7) == 7 == SHORT[1].deadline > SHORT[1].period
    ensures Bounds(1, SHORT, 7)
  {
    TwoTasks(SHORT[0], SHORT[1], 7);
    TwoTasks(SHORT[0], SHORT[1], 9);
    assert LevelBusy(1, SHORT, 9);
    assert WindowFits(1, SHORT, 0, 7) && WindowFits(1, SHORT, 1, 9);
    FitsWithin(1, SHORT, 7, 9);
    BoundExactly(1, SHORT, 7);
  }

  /** And may not: 5 for task 1 of period 4, within its deadline, but its second instance can
      take longer. */
  lemma DeadlinePastPeriod()
    ensures Window(1, LONG, FREE, 5) == 5 == LONG[1].deadline > LONG[1].period && Enough(1, LONG, FREE, 5)
    ensures !Bounds(1, LONG, 5)
  {
    TwoTasks(LONG[0], LONG[1], 5);
    forall t: nat | t <= Times(1, 4) + 5 ensures !WindowFits(1, LONG, 1, t) {
      TwoTasks(LONG[0], LONG[1], t);
    }
    assert !FitsFor(1, LONG, 1, 5);
    BoundExactly(1, LONG, 5);
  }
}
