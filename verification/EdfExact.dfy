/** Spuri's analysis is exact without the kernel's costs: each window it looks at is a response
    of some earliest-deadline schedule, the other tasks released at 0 and as often as they can
    be, task i at its offset, ties against it. */
module EdfExact {
  import opened Arith
  import opened Common
  import opened Counting
  import opened ResponseTime
  import opened FixedPriority
  import opened ResponseExact
  import EdfResponse
  import opened EdfSchedule

  // The worst releases

  /** Task i released first at a given time, the others at 0. */
  function AtOffset(tasks: seq<Task>, i: nat, first: nat, n: nat): (jobs: seq<seq<Instance>>)
    ensures |jobs| == |tasks|
    ensures forall j :: 0 <= j < |jobs| ==> jobs[j] == Every(tasks[j], if j == i then first else 0, n)
  {
    seq(|tasks|, j requires 0 <= j < |tasks| => Every(tasks[j], if j == i then first else 0, n))
  }

  lemma OffsetReleases(tasks: seq<Task>, i: nat, first: nat, n: nat)
    requires Periodic(tasks)
    ensures Releases(tasks, AtOffset(tasks, i, first, n))
  {
    forall j | 0 <= j < |tasks| ensures Sporadic(tasks[j], AtOffset(tasks, i, first, n)[j]) {
      EverySporadic(tasks[j], if j == i then first else 0, n);
    }
  }

  /** Those due by a time are the first ones. */
  lemma {:induction false} EveryEarly(t: Task, n: nat, last: int)
    requires t.period > 0
    ensures last < 0 ==> Early(Every(t, 0, n), last) == []
    ensures last >= 0 ==>
      Early(Every(t, 0, n), last) == Every(t, 0, EdfResponse.Least(n, 1 + last / t.period))
  {
    if n > 0 {
      var q := Every(t, 0, n);
      assert q[..n - 1] == Every(t, 0, n - 1);
      if q[n - 1].release > last {
        EveryEarly(t, n - 1, last);
      }
      if last >= 0 {
        AtMost(n - 1, t.period, last);
      } else {
        MulMonotone(0, n - 1, t.period);
      }
    }
  }

  lemma AtMost(k: nat, p: nat, x: nat)
    requires 0 < p
    ensures Times(k, p) <= x <==> k <= x / p
  {
    assert x == (x / p) * p + x % p;
    if k <= x / p {
      MulMonotone(k, x / p, p);
    } else {
      MulMonotone(x / p + 1, k, p);
      Distributes(x / p, 1, p);
    }
  }

  // The schedule

  /** The instance in service of a task, if any. */
  lemma ServiceOf(tasks: seq<Task>, jobs: seq<seq<Instance>>, run: seq<Slot>, j: nat) returns (o: Option<nat>)
    requires |jobs| == |tasks| && j < |tasks|
    ensures o.Some? ==> InService(jobs, run, j, o.value, |run|)
    ensures forall m: nat :: InService(jobs, run, j, m, |run|) ==> o == Some(m)
  {
    var q, served := jobs[j], Served(run, j, |run|);
    if served < Work(q[..|q|]) {
      var n := FirstUndone(q, |q|, served);
      forall m: nat | InService(jobs, run, j, m, |run|) ensures m == n {
        OneUndone(q, m, n, served);
      }
      o := if q[n].release <= |run| then Some(n) else None;
    } else {
      forall m: nat | InService(jobs, run, j, m, |run|) ensures false {
        WorkRises(q, m + 1, |q|);
      }
      o := None;
    }
  }

  lemma OneUndone(q: seq<Instance>, m: nat, n: nat, served: nat)
    requires m < |q| && n < |q|
    requires Work(q[..m]) <= served < Work(q[..m + 1]) && Work(q[..n]) <= served < Work(q[..n + 1])
    ensures m == n
  {
    if m < n {
      WorkRises(q, m + 1, n);
    } else if n < m {
      WorkRises(q, n + 1, m);
    }
  }

  /** At tick t task i runs only when its deadline is before any other. */
  ghost predicate TiesAgainst(tasks: seq<Task>, jobs: seq<seq<Instance>>, run: seq<Slot>, i: nat, t: nat)
    requires t < |run| && |jobs| == |tasks|
  {
    run[t] == Run(i) ==>
      exists n :: InService(jobs, run, i, n, t) &&
        forall k: nat, m: nat :: k != i && InService(jobs, run, k, m, t) ==>
          Due(tasks, jobs, i, n) < Due(tasks, jobs, k, m)
  }

  /** Instance n of task j is in service, and none of the first `count` tasks' is before it,
      nor at its deadline when j is i. */
  ghost predicate First(tasks: seq<Task>, jobs: seq<seq<Instance>>, run: seq<Slot>, i: nat, count: nat, j: nat, n: nat)
    requires |jobs| == |tasks|
  {
    && j < count && InService(jobs, run, j, n, |run|)
    && forall k: nat, m: nat :: k < count && InService(jobs, run, k, m, |run|) ==>
         Due(tasks, jobs, j, n) <= Due(tasks, jobs, k, m)
         && (j == i && k != i ==> Due(tasks, jobs, j, n) < Due(tasks, jobs, k, m))
  }

  predicate Sooner(tasks: seq<Task>, jobs: seq<seq<Instance>>, i: nat, k: nat, m: nat, j: nat, n: nat)
    requires |jobs| == |tasks| && k < |tasks| && j < |tasks| && m < |jobs[k]| && n < |jobs[j]|
  {
    Due(tasks, jobs, k, m) < Due(tasks, jobs, j, n) || (Due(tasks, jobs, k, m) == Due(tasks, jobs, j, n) && k != i)
  }

  lemma {:induction false} FirstOf(tasks: seq<Task>, jobs: seq<seq<Instance>>, run: seq<Slot>, i: nat, count: nat)
    returns (s: Slot, n: nat)
    requires |jobs| == |tasks| && count <= |tasks|
    ensures s.Run? ==> First(tasks, jobs, run, i, count, s.task, n)
    ensures s.Idle? ==> forall k: nat, m: nat :: k < count ==> !InService(jobs, run, k, m, |run|)
  {
    s, n := Idle, 0;
    if count > 0 {
      var k := count - 1;
      s, n := FirstOf(tasks, jobs, run, i, k);
      var o := ServiceOf(tasks, jobs, run, k);
      if o.Some? && (s.Idle? || Sooner(tasks, jobs, i, k, o.value, s.task, n)) {
        s, n := Run(k), o.value;
      }
    }
  }

  lemma SameService(jobs: seq<seq<Instance>>, run: seq<Slot>, s: Slot, j: nat, n: nat, t: nat)
    requires t <= |run|
    ensures InService(jobs, run + [s], j, n, t) == InService(jobs, run, j, n, t)
  {
    assert (run + [s])[..t] == run[..t];
  }

  lemma StaysEarliest(tasks: seq<Task>, jobs: seq<seq<Instance>>, run: seq<Slot>, s: Slot, i: nat, t: nat)
    requires |jobs| == |tasks| && t < |run| && Earliest(tasks, jobs, run, t) && TiesAgainst(tasks, jobs, run, i, t)
    ensures Earliest(tasks, jobs, run + [s], t) && TiesAgainst(tasks, jobs, run + [s], i, t)
  {
    forall j: nat, n: nat ensures InService(jobs, run + [s], j, n, t) == InService(jobs, run, j, n, t) {
      SameService(jobs, run, s, j, n, t);
    }
  }

  lemma FirstIsEarliest(tasks: seq<Task>, jobs: seq<seq<Instance>>, run: seq<Slot>, s: Slot, i: nat, n: nat)
    requires |jobs| == |tasks|
    requires s.Run? ==> First(tasks, jobs, run, i, |tasks|, s.task, n)
    requires s.Idle? ==> forall k: nat, m: nat :: k < |tasks| ==> !InService(jobs, run, k, m, |run|)
    ensures Earliest(tasks, jobs, run + [s], |run|) && TiesAgainst(tasks, jobs, run + [s], i, |run|)
  {
    forall j: nat, n: nat ensures InService(jobs, run + [s], j, n, |run|) == InService(jobs, run, j, n, |run|) {
      SameService(jobs, run, s, j, n, |run|);
    }
  }

  lemma {:induction false} GreedyEdf(tasks: seq<Task>, jobs: seq<seq<Instance>>, i: nat, length: nat)
    returns (run: seq<Slot>)
    requires Releases(tasks, jobs)
    ensures |run| == length && EdfSchedule.Schedule(tasks, jobs, run)
    ensures forall t :: 0 <= t < length ==> TiesAgainst(tasks, jobs, run, i, t)
  {
    run := [];
    if length > 0 {
      var shorter := GreedyEdf(tasks, jobs, i, length - 1);
      var s, n := FirstOf(tasks, jobs, shorter, i, |tasks|);
      run := shorter + [s];
      forall t | 0 <= t < length ensures Earliest(tasks, jobs, run, t) && TiesAgainst(tasks, jobs, run, i, t) {
        if t < length - 1 {
          StaysEarliest(tasks, jobs, shorter, s, i, t);
        } else {
          FirstIsEarliest(tasks, jobs, shorter, s, i, n);
        }
      }
    }
  }

  // When the instance released at the offset is done

  /** What the analysis counts of another task in a window of u, `last` the latest release of an
      instance due. */
  function DueWork(t: Task, last: int, u: nat): nat
    requires t.period > 0
  {
    if last < 0 then 0 else Times(EdfResponse.Least(Ceil(u, t.period), 1 + last / t.period), t.wcet)
  }

  lemma OthersNext(k: nat, i: nat, a: nat, tasks: seq<Task>, t: nat)
    requires k < |tasks| && i < |tasks| && Periodic(tasks)
    ensures EdfResponse.Others(k + 1, i, a, tasks, FREE, t)
         == EdfResponse.Others(k, i, a, tasks, FREE, t)
            + if k == i then 0 else DueWork(tasks[k], a + tasks[i].deadline - tasks[k].deadline, t)
  {
  }

  /** It is what arrives of them. */
  lemma DueArrived(t: Task, count: nat, last: int, u: nat)
    requires t.period > 0 && u <= count
    ensures Arrived(Early(Every(t, 0, count), last), u) == DueWork(t, last, u)
  {
    EveryEarly(t, count, last);
    if last >= 0 {
      EveryArrived(t, EdfResponse.Least(count, 1 + last / t.period), u);
      CeilSmall(u, t.period);
    }
  }

  /** At tick u no other task has an instance due by d in service. */
  ghost predicate OnlyMine(tasks: seq<Task>, jobs: seq<seq<Instance>>, run: seq<Slot>, i: nat, d: int, u: nat)
    requires |jobs| == |tasks| && u <= |run|
  {
    forall k: nat, m: nat :: k != i && InService(jobs, run, k, m, u) ==> d < Due(tasks, jobs, k, m)
  }

  /** Then each of them has been served all due by d that was released by u. */
  lemma OtherServed(tasks: seq<Task>, jobs: seq<seq<Instance>>, run: seq<Slot>, i: nat, k: nat, d: int, u: nat)
    requires Releases(tasks, jobs) && k < |tasks| && k != i && u < |run| && OnlyMine(tasks, jobs, run, i, d, u)
    ensures Served(run, k, u + 1) >= Arrived(DueBy(tasks, jobs, k, d), u + 1)
  {
    ServedStep(run, k, u);
    if Served(run, k, u) < Arrived(DueBy(tasks, jobs, k, d), u + 1) {
      var m := SomeInService(tasks[k], jobs[k], d - tasks[k].deadline, Served(run, k, u), u);
      assert InService(jobs, run, k, m, u);
    }
  }

  lemma OtherCounted(tasks: seq<Task>, run: seq<Slot>, i: nat, first: nat, count: nat, k: nat, d: int, t: nat)
    requires Periodic(tasks) && k < |tasks| && k != i && 0 < t <= count && t <= |run|
    requires OnlyMine(tasks, AtOffset(tasks, i, first, count), run, i, d, t - 1)
    ensures Served(run, k, t) >= DueWork(tasks[k], d - tasks[k].deadline, t)
  {
    OffsetReleases(tasks, i, first, count);
    OtherServed(tasks, AtOffset(tasks, i, first, count), run, i, k, d, t - 1);
    DueArrived(tasks[k], count, d - tasks[k].deadline, t);
  }

  lemma {:induction false} AllServed(tasks: seq<Task>, run: seq<Slot>, i: nat, first: nat, count: nat, a: nat, n: nat,
                                     t: nat)
    requires Periodic(tasks) && i < |tasks| && n <= |tasks| && 0 < t <= count && t <= |run|
    requires OnlyMine(tasks, AtOffset(tasks, i, first, count), run, i, a + tasks[i].deadline, t - 1)
    ensures Ticks(run[..t], FirstTasks(n))
         >= EdfResponse.Others(n, i, a, tasks, FREE, t) + if i < n then Served(run, i, t) else 0
  {
    if n > 0 {
      var k := n - 1;
      AllServed(tasks, run, i, first, count, a, k, t);
      OneTaskMore(run[..t], k);
      OthersNext(k, i, a, tasks, t);
      if k != i {
        OtherCounted(tasks, run, i, first, count, k, a + tasks[i].deadline, t);
      }
    }
  }

  lemma {:induction false} OthersOfNone(n: nat, i: nat, a: nat, tasks: seq<Task>)
    requires n <= |tasks| && i < |tasks| && Periodic(tasks)
    ensures EdfResponse.Others(n, i, a, tasks, FREE, 0) == 0
  {
    if n > 0 {
      OthersOfNone(n - 1, i, a, tasks);
      OthersNext(n - 1, i, a, tasks, 0);
      CeilSmall(0, tasks[n - 1].period);
    }
  }

  /** The instance of i at the offset, whose end takes i's own work. */
  lemma AtItsOffset(tasks: seq<Task>, i: nat, a: nat, count: nat)
    requires Periodic(tasks) && i < |tasks| && a / tasks[i].period < count
    ensures var n, q := a / tasks[i].period, AtOffset(tasks, i, a % tasks[i].period, count)[i];
      && q[n].release == a && Work(q[..n + 1]) == EdfResponse.OwnWork(i, a, tasks)
      && Work(q[..n]) == EdfResponse.OwnWork(i, a, tasks) - tasks[i].wcet
  {
    var p := tasks[i].period;
    var n, q := a / p, Every(tasks[i], a % p, count);
    assert a == n * p + a % p;
    assert q[..n + 1] == Every(tasks[i], a % p, n + 1) && q[..n] == Every(tasks[i], a % p, n);
    EveryWork(tasks[i], a % p, n);
    EveryWork(tasks[i], a % p, n + 1);
    Distributes(n, 1, tasks[i].wcet);
  }

  lemma RunsLast(tasks: seq<Task>, jobs: seq<seq<Instance>>, run: seq<Slot>, i: nat, n: nat, u: nat)
    requires |jobs| == |tasks| && i < |tasks| && n < |jobs[i]| && u < |run|
    requires TiesAgainst(tasks, jobs, run, i, u) && run[u] == Run(i)
    requires Work(jobs[i][..n]) <= Served(run, i, u) < Work(jobs[i][..n + 1])
    ensures OnlyMine(tasks, jobs, run, i, Due(tasks, jobs, i, n), u)
  {
    var m: nat :| InService(jobs, run, i, m, u) &&
      forall k: nat, o: nat :: k != i && InService(jobs, run, k, o, u) ==>
        Due(tasks, jobs, i, m) < Due(tasks, jobs, k, o);
    OneUndone(jobs[i], m, n, Served(run, i, u));
  }

  lemma TickOnlyMine(tasks: seq<Task>, run: seq<Slot>, i: nat, a: nat, count: nat, t: nat)
    requires Periodic(tasks) && i < |tasks| && 0 < tasks[i].wcet && 0 < t <= |run| && a / tasks[i].period < count
    requires TiesAgainst(tasks, AtOffset(tasks, i, a % tasks[i].period, count), run, i, t - 1)
    requires run[t - 1] == Run(i) && Served(run, i, t) == EdfResponse.OwnWork(i, a, tasks)
    ensures OnlyMine(tasks, AtOffset(tasks, i, a % tasks[i].period, count), run, i, a + tasks[i].deadline, t - 1)
  {
    ServedStep(run, i, t - 1);
    AtItsOffset(tasks, i, a, count);
    RunsLast(tasks, AtOffset(tasks, i, a % tasks[i].period, count), run, i, a / tasks[i].period, t - 1);
  }

  /** It is done only after a window that covers what it asks for. */
  lemma DoneCovers(tasks: seq<Task>, run: seq<Slot>, i: nat, a: nat, end: nat, count: nat)
    requires Periodic(tasks) && i < |tasks| && end <= count && end <= |run| && a / tasks[i].period < count
    requires var jobs := AtOffset(tasks, i, a % tasks[i].period, count);
      forall t :: 0 <= t < |run| ==> TiesAgainst(tasks, jobs, run, i, t)
    requires Served(run, i, end) >= EdfResponse.OwnWork(i, a, tasks)
    ensures exists t: nat :: t <= end && EdfResponse.Asked(i, a, tasks, FREE, t) <= t
  {
    if tasks[i].wcet == 0 {
      OthersOfNone(|tasks|, i, a, tasks);
      assert EdfResponse.Asked(i, a, tasks, FREE, 0) <= 0;
    } else {
      TimesRises(1, 1 + a / tasks[i].period, tasks[i].wcet);
      var t := Reached(run, i, EdfResponse.OwnWork(i, a, tasks), end);
      TickOnlyMine(tasks, run, i, a, count, t);
      AllServed(tasks, run, i, a % tasks[i].period, count, a, |tasks|, t);
      assert EdfResponse.Asked(i, a, tasks, FREE, t) <= t;
    }
  }

  // The exact bound

  /** r bounds every response of task i under EDF. */
  ghost predicate EdfBounds(i: nat, tasks: seq<Task>, r: nat) {
    forall jobs, run, n: nat :: EdfSchedule.Schedule(tasks, jobs, run) ==> InTime(jobs, run, i, n, r)
  }

  lemma WorstRun(tasks: seq<Task>, i: nat, first: nat, count: nat, length: nat) returns (run: seq<Slot>)
    requires Periodic(tasks)
    ensures |run| == length && EdfSchedule.Schedule(tasks, AtOffset(tasks, i, first, count), run)
    ensures forall t :: 0 <= t < length ==> TiesAgainst(tasks, AtOffset(tasks, i, first, count), run, i, t)
  {
    OffsetReleases(tasks, i, first, count);
    run := GreedyEdf(tasks, AtOffset(tasks, i, first, count), i, length);
  }

  lemma EdfInTime(tasks: seq<Task>, jobs: seq<seq<Instance>>, run: seq<Slot>, i: nat, n: nat, r: nat)
    requires EdfBounds(i, tasks, r) && EdfSchedule.Schedule(tasks, jobs, run)
    requires i < |jobs| && n < |jobs[i]| && jobs[i][n].release + r <= |run|
    ensures Served(run, i, jobs[i][n].release + r) >= Work(jobs[i][..n + 1])
  {
    assert InTime(jobs, run, i, n, r);
  }

  /** In the worst schedule the instance at the offset is served by the bound. */
  lemma WorstServes(i: nat, tasks: seq<Task>, a: nat, r: nat, count: nat) returns (run: seq<Slot>)
    requires i < |tasks| && Periodic(tasks) && EdfBounds(i, tasks, r) && a / tasks[i].period < count
    ensures |run| == a + r && Served(run, i, a + r) >= EdfResponse.OwnWork(i, a, tasks)
    ensures forall t :: 0 <= t < |run| ==>
      TiesAgainst(tasks, AtOffset(tasks, i, a % tasks[i].period, count), run, i, t)
  {
    run := WorstRun(tasks, i, a % tasks[i].period, count, a + r);
    AtItsOffset(tasks, i, a, count);
    EdfInTime(tasks, AtOffset(tasks, i, a % tasks[i].period, count), run, i, a / tasks[i].period, r);
  }

  /** So no bound is below a window, at any offset. */
  lemma WindowReached(i: nat, tasks: seq<Task>, a: nat, w: nat, r: nat)
    requires i < |tasks| && Periodic(tasks) && EdfBounds(i, tasks, r)
    requires EdfResponse.IsWindow(i, a, tasks, FREE, w)
    ensures w - a <= r
  {
    var count := a / tasks[i].period + a + r + 1;
    var run := WorstServes(i, tasks, a, r, count);
    DoneCovers(tasks, run, i, a, a + r, count);
  }

  /** With a load below 1, a time bounds every response if and only if it bounds those the
      analysis looks at. */
  lemma EdfExactly(i: nat, tasks: seq<Task>, length: nat, r: nat)
    requires i < |tasks| && Periodic(tasks) && EdfResponse.IsBusyPeriod(tasks, FREE, length)
    ensures EdfBounds(i, tasks, r)
       <==> forall a: nat, w: nat :: EdfResponse.IsResponse(i, tasks, FREE, length, a, w) ==> w - a <= r
  {
    if EdfBounds(i, tasks, r) {
      forall a: nat, w: nat | EdfResponse.IsResponse(i, tasks, FREE, length, a, w) ensures w - a <= r {
        WindowReached(i, tasks, a, w, r);
      }
    } else {
      var jobs, run, n: nat :| EdfSchedule.Schedule(tasks, jobs, run) && !InTime(jobs, run, i, n, r);
      if forall a: nat, w: nat :: EdfResponse.IsResponse(i, tasks, FREE, length, a, w) ==> w - a <= r {
        EdfResponseBounded(tasks, jobs, run, i, n, length, r);
      }
    }
  }

  /** No bound is below the WCET. */
  lemma WcetReached(i: nat, tasks: seq<Task>, length: nat, r: nat)
    requires i < |tasks| && Periodic(tasks) && EdfResponse.IsBusyPeriod(tasks, FREE, length)
    requires EdfBounds(i, tasks, r)
    ensures tasks[i].wcet <= r
  {
    if length > 0 {
      EdfResponse.WithinDemand(|tasks|, i, 0, tasks, FREE, length);
      assert tasks[..|tasks|] == tasks;
      var w := WindowFrom(i, 0, tasks, FREE, length, 0);
      WindowReached(i, tasks, 0, w, r);
    } else {
      SumHolds(tasks, i);
    }
  }

  /** edf_response_time, without costs: its answer is the longest response there can be, and
      with none for a load below 1 a deadline can be missed. */
  method WorstEdfResponse(i: nat, tasks: seq<Task>) returns (bound: Option<nat>)
    requires i < |tasks| && Periodic(tasks)
    ensures bound.Some? ==>
      && bound.value <= tasks[i].deadline && EdfBounds(i, tasks, bound.value)
      && forall r :: EdfBounds(i, tasks, r) ==> bound.value <= r
    ensures bound.None? && EdfResponse.Utilization(tasks, FREE) < 1.0 ==> !EdfBounds(i, tasks, tasks[i].deadline)
  {
    ghost var length;
    bound, length := EdfResponse.EdfResponseTime(i, tasks, FREE);
    if EdfResponse.Utilization(tasks, FREE) < 1.0 {
      forall r: nat | EdfBounds(i, tasks, r)
        ensures tasks[i].wcet <= r
        ensures forall a: nat, w: nat :: EdfResponse.IsResponse(i, tasks, FREE, length, a, w) ==> w - a <= r
      {
        WcetReached(i, tasks, length, r);
        EdfExactly(i, tasks, length, r);
      }
      if bound.Some? {
        EdfExactly(i, tasks, length, bound.value);
      }
    }
  }
}
