/** What the kernel's costs mean in Spuri's analysis: earliest-deadline schedules in which the
    handlers of the releases run above all tasks, in the order of the releases, and each instance
    of the other tasks restores a context once it ends. */
module EdfCosts {
  import opened Arith
  import opened Common
  import opened Counting
  import opened ResponseTime
  import opened FixedPriority
  import opened ResponseExact
  import opened ResponseCosts
  import EdfResponse
  import opened EdfSchedule
  import opened EdfExact

  // The schedules

  /** At tick t a handler runs while one is in service, the first released first; then the task of
      the earliest deadline; the processor idles when there is none. The first n are handlers. */
  ghost predicate HandlersOver(e: seq<Task>, n: nat, jobs: seq<seq<Instance>>, run: seq<Slot>, t: nat)
    requires t < |run| && |jobs| == |e|
  {
    match run[t]
    case Run(j) =>
      exists m :: InService(jobs, run, j, m, t) && HandlersOverAt(e, n, jobs, run, t, j, m)
    case Idle => forall k, o :: !InService(jobs, run, k, o, t)
  }

  ghost predicate HandlersOverAt(e: seq<Task>, n: nat, jobs: seq<seq<Instance>>, run: seq<Slot>, t: nat, j: nat,
                                 m: nat)
    requires t < |run| && |jobs| == |e| && j < |e| && m < |jobs[j]|
  {
    if j < n then
      forall k: nat, o: nat :: k < n && InService(jobs, run, k, o, t) ==> jobs[j][m].release <= jobs[k][o].release
    else
      && (forall k: nat, o: nat :: k < n ==> !InService(jobs, run, k, o, t))
      && forall k: nat, o: nat :: InService(jobs, run, k, o, t) ==> Due(e, jobs, j, m) <= Due(e, jobs, k, o)
  }

  ghost predicate CostSchedule(e: seq<Task>, n: nat, jobs: seq<seq<Instance>>, run: seq<Slot>) {
    Releases(e, jobs) && forall t :: 0 <= t < |run| ==> HandlersOver(e, n, jobs, run, t)
  }

  // As earliest-deadline schedules, the tasks' deadlines put off

  /** All but the first n put off by d. */
  function PutOff(e: seq<Task>, n: nat, d: nat): (r: seq<Task>)
    ensures |r| == |e|
    ensures forall j :: 0 <= j < |r| ==> r[j] == if j < n then e[j] else e[j].(deadline := e[j].deadline + d)
  {
    seq(|e|, j requires 0 <= j < |e| => if j < n then e[j] else e[j].(deadline := e[j].deadline + d))
  }

  /** The handlers are due at their releases. */
  ghost predicate Handlers(e: seq<Task>, n: nat) {
    n <= |e| && forall j :: 0 <= j < n ==> e[j].deadline == 0
  }

  lemma PutOffReleases(e: seq<Task>, n: nat, d: nat, jobs: seq<seq<Instance>>)
    ensures Releases(PutOff(e, n, d), jobs) <==> Releases(e, jobs)
  {
    var r := PutOff(e, n, d);
    forall j, q | 0 <= j < |e| ensures Sporadic(r[j], q) <==> Sporadic(e[j], q) {
    }
    if Releases(r, jobs) {
      forall j | 0 <= j < |e| ensures e[j].period > 0 && Sporadic(e[j], jobs[j]) {
        assert r[j].period > 0;
      }
    }
  }

  /** What is in service at t was released by then: far enough put off, a task is due after every
      handler. */
  lemma DueWhen(e: seq<Task>, n: nat, d: nat, jobs: seq<seq<Instance>>, run: seq<Slot>, t: nat, j: nat, m: nat)
    requires Handlers(e, n) && |jobs| == |e| && t < |run| <= d && InService(jobs, run, j, m, t)
    ensures if j < n then Due(PutOff(e, n, d), jobs, j, m) == jobs[j][m].release <= t
            else Due(PutOff(e, n, d), jobs, j, m) == Due(e, jobs, j, m) + d > t
  {
  }

  lemma OverIsEarliest(e: seq<Task>, n: nat, d: nat, jobs: seq<seq<Instance>>, run: seq<Slot>, t: nat, j: nat, m: nat)
    requires Handlers(e, n) && |jobs| == |e| && t < |run| <= d && InService(jobs, run, j, m, t)
    ensures HandlersOverAt(e, n, jobs, run, t, j, m)
       <==> forall k: nat, o: nat :: InService(jobs, run, k, o, t) ==>
              Due(PutOff(e, n, d), jobs, j, m) <= Due(PutOff(e, n, d), jobs, k, o)
  {
    forall k: nat, o: nat | InService(jobs, run, k, o, t)
      ensures if k < n then Due(PutOff(e, n, d), jobs, k, o) == jobs[k][o].release <= t
              else Due(PutOff(e, n, d), jobs, k, o) == Due(e, jobs, k, o) + d > t
    {
      DueWhen(e, n, d, jobs, run, t, k, o);
    }
    DueWhen(e, n, d, jobs, run, t, j, m);
  }

  lemma OverAtTick(e: seq<Task>, n: nat, d: nat, jobs: seq<seq<Instance>>, run: seq<Slot>, t: nat)
    requires Handlers(e, n) && |jobs| == |e| && t < |run| <= d
    ensures HandlersOver(e, n, jobs, run, t) <==> Earliest(PutOff(e, n, d), jobs, run, t)
  {
    if run[t].Run? {
      var j := run[t].task;
      forall m: nat | InService(jobs, run, j, m, t)
        ensures HandlersOverAt(e, n, jobs, run, t, j, m)
           <==> forall k: nat, o: nat :: InService(jobs, run, k, o, t) ==>
                  Due(PutOff(e, n, d), jobs, j, m) <= Due(PutOff(e, n, d), jobs, k, o)
      {
        OverIsEarliest(e, n, d, jobs, run, t, j, m);
      }
    }
  }

  lemma CostsAreEdf(e: seq<Task>, n: nat, d: nat, jobs: seq<seq<Instance>>, run: seq<Slot>)
    requires Handlers(e, n) && |run| <= d
    ensures CostSchedule(e, n, jobs, run) <==> EdfSchedule.Schedule(PutOff(e, n, d), jobs, run)
  {
    PutOffReleases(e, n, d, jobs);
    if |jobs| == |e| {
      forall t | 0 <= t < |run| ensures HandlersOver(e, n, jobs, run, t) <==> Earliest(PutOff(e, n, d), jobs, run, t) {
        OverAtTick(e, n, d, jobs, run, t);
      }
    }
  }

  // The windows

  lemma CeilWithin(w: nat, slack: nat, p: nat)
    requires 0 < p && w <= slack
    ensures Ceil(w, p) <= 1 + slack / p
  {
    CeilRises(w, slack + 1, p);
    CeilNext(slack, p);
  }

  /** The task set for a handler's time h, the times the others take and tasks put off by d. */
  ghost predicate Entering(e: seq<Task>, i: nat, tasks: seq<Task>, h: nat, taken: seq<nat>, d: nat) {
    && |e| == 2 * |tasks| && |taken| == |tasks| && Periodic(e) && Periodic(tasks)
    && (forall j :: 0 <= j < |tasks| ==> e[j] == Task(h, tasks[j].period, 0))
    && forall j :: 0 <= j < |tasks| ==>
         e[|tasks| + j] == Task(if j == i then tasks[j].wcet else taken[j], tasks[j].period, tasks[j].deadline + d)
  }

  /** The instances of the first n tasks due with that of i. */
  function DueOthers(n: nat, i: nat, a: nat, tasks: seq<Task>, taken: seq<nat>, w: nat): nat
    requires n <= |tasks| == |taken| && i < |tasks| && Periodic(tasks)
  {
    if n == 0 then 0
    else
      var t := tasks[n - 1];
      DueOthers(n - 1, i, a, tasks, taken, w)
      + if n - 1 == i then 0
        else DueWork(Task(taken[n - 1], t.period, 0), a + tasks[i].deadline - t.deadline, w)
  }

  lemma NextDue(e: seq<Task>, at: nat, k: nat, a: nat, w: nat, t: Task)
    requires k < |e| && at < |e| && Periodic(e) && e[k].wcet == t.wcet && e[k].period == t.period
    ensures t.period > 0
    ensures EdfResponse.Others(k + 1, at, a, e, FREE, w)
         == EdfResponse.Others(k, at, a, e, FREE, w)
            + if k == at then 0 else DueWork(t, a + e[at].deadline - e[k].deadline, w)
  {
    OthersNext(k, at, a, e, w);
  }

  lemma {:induction false} HandlersDue(n: nat, e: seq<Task>, i: nat, a: nat, tasks: seq<Task>, h: nat, taken: seq<nat>,
                                       d: nat, w: nat)
    requires n <= |tasks| && i < |tasks| && Entering(e, i, tasks, h, taken, d) && w <= a + tasks[i].deadline + d
    ensures EdfResponse.Others(n, |tasks| + i, a, e, FREE, w) == Interrupts(n, tasks, h, w)
  {
    if n > 0 {
      var k, slack := n - 1, a + tasks[i].deadline + d;
      HandlersDue(k, e, i, a, tasks, h, taken, d, w);
      NextDue(e, |tasks| + i, k, a, w, Task(h, tasks[k].period, 0));
      CeilWithin(w, slack, tasks[k].period);
    }
  }

  lemma {:induction false} TasksDue(n: nat, e: seq<Task>, i: nat, a: nat, tasks: seq<Task>, h: nat, taken: seq<nat>,
                                    d: nat, w: nat)
    requires n <= |tasks| && i < |tasks| && Entering(e, i, tasks, h, taken, d) && w <= a + tasks[i].deadline + d
    ensures EdfResponse.Others(|tasks| + n, |tasks| + i, a, e, FREE, w)
         == Interrupts(|tasks|, tasks, h, w) + DueOthers(n, i, a, tasks, taken, w)
  {
    if n == 0 {
      HandlersDue(|tasks|, e, i, a, tasks, h, taken, d, w);
    } else {
      var k := n - 1;
      TasksDue(k, e, i, a, tasks, h, taken, d, w);
      NextDue(e, |tasks| + i, |tasks| + k, a, w,
              Task(if k == i then tasks[k].wcet else taken[k], tasks[k].period, 0));
    }
  }

  lemma {:induction false} OthersAre(n: nat, i: nat, a: nat, tasks: seq<Task>, costs: Costs, h: nat, taken: seq<nat>,
                                     w: nat)
    requires n <= |tasks| == |taken| && i < |tasks| && Periodic(tasks)
    requires h == costs.isw + costs.timer + costs.rsw
    requires forall j :: 0 <= j < |tasks| ==> taken[j] == tasks[j].wcet + costs.rsw
    ensures EdfResponse.Others(n, i, a, tasks, costs, w)
         == Interrupts(n, tasks, h, w) + DueOthers(n, i, a, tasks, taken, w)
  {
    if n > 0 {
      OthersAre(n - 1, i, a, tasks, costs, h, taken, w);
    }
  }

  function Taken(tasks: seq<Task>, costs: Costs): (r: seq<nat>)
    ensures |r| == |tasks| && forall j :: 0 <= j < |r| ==> r[j] == tasks[j].wcet + costs.rsw
  {
    seq(|tasks|, j requires 0 <= j < |tasks| => tasks[j].wcet + costs.rsw)
  }

  /** The task set as an earliest-deadline one. */
  function EdfWithCosts(i: nat, tasks: seq<Task>, costs: Costs, d: nat): seq<Task> {
    PutOff(WithCosts(i, tasks, costs), |tasks|, d)
  }

  lemma EdfEntering(i: nat, tasks: seq<Task>, costs: Costs, d: nat)
    requires i < |tasks| && Periodic(tasks)
    ensures Entering(EdfWithCosts(i, tasks, costs, d), i, tasks, costs.isw + costs.timer + costs.rsw,
                     Taken(tasks, costs), d)
  {
    CostsPeriodic(i, tasks, costs);
    var e := EdfWithCosts(i, tasks, costs, d);
    forall j | 0 <= j < |e| ensures e[j].period > 0 {
      assert WithCosts(i, tasks, costs)[j].period > 0;
    }
  }

  lemma AskedEntering(e: seq<Task>, i: nat, a: nat, tasks: seq<Task>, h: nat, taken: seq<nat>, d: nat, w: nat)
    requires i < |tasks| && Entering(e, i, tasks, h, taken, d) && w <= a + tasks[i].deadline + d
    ensures EdfResponse.Asked(|tasks| + i, a, e, FREE, w)
         == EdfResponse.OwnWork(i, a, tasks) + Interrupts(|tasks|, tasks, h, w)
            + DueOthers(|tasks|, i, a, tasks, taken, w)
  {
    TasksDue(|tasks|, e, i, a, tasks, h, taken, d, w);
  }

  /** What is asked of the processor with the costs is what is asked of it without them for that
      task set, far enough put off. */
  lemma AskedWithCosts(i: nat, tasks: seq<Task>, costs: Costs, d: nat, a: nat, w: nat)
    requires i < |tasks| && Periodic(tasks) && w <= a + tasks[i].deadline + d
    ensures Periodic(EdfWithCosts(i, tasks, costs, d))
    ensures EdfResponse.Asked(|tasks| + i, a, EdfWithCosts(i, tasks, costs, d), FREE, w)
         == EdfResponse.Asked(i, a, tasks, costs, w)
  {
    var h, taken := costs.isw + costs.timer + costs.rsw, Taken(tasks, costs);
    EdfEntering(i, tasks, costs, d);
    AskedEntering(EdfWithCosts(i, tasks, costs, d), i, a, tasks, h, taken, d, w);
    OthersAre(|tasks|, i, a, tasks, costs, h, taken, w);
  }

  // The demand

  /** What the first n tasks take in a window with their restores, but for task i. */
  function TakenWork(n: nat, i: nat, tasks: seq<Task>, taken: seq<nat>, l: nat): nat
    requires n <= |tasks| == |taken| && Periodic(tasks)
  {
    if n == 0 then 0
    else TakenWork(n - 1, i, tasks, taken, l)
         + Times(Ceil(l, tasks[n - 1].period), if n - 1 == i then tasks[n - 1].wcet else taken[n - 1])
  }

  lemma NextDemand(e: seq<Task>, k: nat, l: nat, p: nat, c: nat)
    requires Periodic(e) && k < |e| && e[k].period == p && e[k].wcet == c
    ensures EdfResponse.Demand(e[..k + 1], FREE, l) == EdfResponse.Demand(e[..k], FREE, l) + Times(Ceil(l, p), c)
  {
    DemandNext(e, k, l);
  }

  lemma {:induction false} HandlersDemand(n: nat, e: seq<Task>, i: nat, tasks: seq<Task>, h: nat, taken: seq<nat>,
                                          d: nat, l: nat)
    requires n <= |tasks| && Entering(e, i, tasks, h, taken, d)
    ensures EdfResponse.Demand(e[..n], FREE, l) == Interrupts(n, tasks, h, l)
  {
    if n > 0 {
      HandlersDemand(n - 1, e, i, tasks, h, taken, d, l);
      NextDemand(e, n - 1, l, tasks[n - 1].period, h);
    }
  }

  lemma {:induction false} TasksDemand(n: nat, e: seq<Task>, i: nat, tasks: seq<Task>, h: nat, taken: seq<nat>,
                                       d: nat, l: nat)
    requires n <= |tasks| && Entering(e, i, tasks, h, taken, d)
    ensures EdfResponse.Demand(e[..|tasks| + n], FREE, l)
         == Interrupts(|tasks|, tasks, h, l) + TakenWork(n, i, tasks, taken, l)
  {
    if n == 0 {
      HandlersDemand(|tasks|, e, i, tasks, h, taken, d, l);
    } else {
      var k := n - 1;
      TasksDemand(k, e, i, tasks, h, taken, d, l);
      NextDemand(e, |tasks| + k, l, tasks[k].period, if k == i then tasks[k].wcet else taken[k]);
    }
  }

  lemma {:induction false} DemandIs(n: nat, i: nat, tasks: seq<Task>, costs: Costs, h: nat, taken: seq<nat>, l: nat)
    requires n <= |tasks| == |taken| && Periodic(tasks) && h == costs.isw + costs.timer + costs.rsw
    requires forall j :: 0 <= j < |tasks| ==> taken[j] == tasks[j].wcet + costs.rsw
    ensures Interrupts(n, tasks, h, l) + TakenWork(n, i, tasks, taken, l) <= EdfResponse.Demand(tasks[..n], costs, l)
    ensures i >= n ==>
      Interrupts(n, tasks, h, l) + TakenWork(n, i, tasks, taken, l) == EdfResponse.Demand(tasks[..n], costs, l)
  {
    if n > 0 {
      var k := n - 1;
      DemandIs(k, i, tasks, costs, h, taken, l);
      assert tasks[..n][..k] == tasks[..k] && tasks[..n][k] == tasks[k];
      EdfResponse.TimesAdds(Ceil(l, tasks[k].period), taken[k], h);
      EdfResponse.TimesAdds(Ceil(l, tasks[k].period), tasks[k].wcet, costs.rsw);
    }
  }

  lemma AllDemand(e: seq<Task>, i: nat, tasks: seq<Task>, h: nat, taken: seq<nat>, d: nat, l: nat)
    requires Entering(e, i, tasks, h, taken, d)
    ensures EdfResponse.Demand(e, FREE, l) == Interrupts(|tasks|, tasks, h, l) + TakenWork(|tasks|, i, tasks, taken, l)
  {
    TasksDemand(|tasks|, e, i, tasks, h, taken, d, l);
    assert e[..|tasks| + |tasks|] == e;
  }

  lemma DemandEntering(e: seq<Task>, i: nat, tasks: seq<Task>, costs: Costs, h: nat, d: nat, l: nat)
    requires h == costs.isw + costs.timer + costs.rsw && Entering(e, i, tasks, h, Taken(tasks, costs), d)
    ensures EdfResponse.Demand(e, FREE, l) <= EdfResponse.Demand(tasks, costs, l)
    ensures i >= |tasks| ==> EdfResponse.Demand(e, FREE, l) == EdfResponse.Demand(tasks, costs, l)
  {
    AllDemand(e, i, tasks, h, Taken(tasks, costs), d, l);
    DemandIs(|tasks|, i, tasks, costs, h, Taken(tasks, costs), l);
    assert tasks[..|tasks|] == tasks;
  }

  /** The demand with the costs is that of the handlers and of all tasks, each restoring. */
  lemma DemandWithCosts(tasks: seq<Task>, costs: Costs, l: nat)
    requires Periodic(tasks)
    ensures Periodic(WithCosts(|tasks|, tasks, costs))
    ensures EdfResponse.Demand(WithCosts(|tasks|, tasks, costs), FREE, l) == EdfResponse.Demand(tasks, costs, l)
  {
    CostsPeriodic(|tasks|, tasks, costs);
    DemandEntering(WithCosts(|tasks|, tasks, costs), |tasks|, tasks, costs, costs.isw + costs.timer + costs.rsw, 0, l);
  }

  /** The load of the first n handlers, and of the first n tasks. */
  function HandlersShare(n: nat, tasks: seq<Task>, h: nat): real
    requires n <= |tasks| && Periodic(tasks)
  {
    if n == 0 then 0.0 else HandlersShare(n - 1, tasks, h) + h as real / tasks[n - 1].period as real
  }

  function TakenShare(n: nat, tasks: seq<Task>, taken: seq<nat>): real
    requires n <= |tasks| == |taken| && Periodic(tasks)
  {
    if n == 0 then 0.0 else TakenShare(n - 1, tasks, taken) + taken[n - 1] as real / tasks[n - 1].period as real
  }

  lemma NextShare(e: seq<Task>, costs: Costs, k: nat)
    requires Periodic(e) && k < |e|
    ensures EdfResponse.Utilization(e[..k + 1], costs)
         == EdfResponse.Utilization(e[..k], costs) + EdfResponse.Cost(e[k], costs) as real / e[k].period as real
  {
    assert e[..k + 1][..k] == e[..k] && e[..k + 1][k] == e[k];
  }

  lemma {:induction false} HandlersUse(n: nat, e: seq<Task>, i: nat, tasks: seq<Task>, h: nat, taken: seq<nat>, d: nat)
    requires n <= |tasks| && Entering(e, i, tasks, h, taken, d)
    ensures EdfResponse.Utilization(e[..n], FREE) == HandlersShare(n, tasks, h)
  {
    if n > 0 {
      HandlersUse(n - 1, e, i, tasks, h, taken, d);
      NextShare(e, FREE, n - 1);
    }
  }

  lemma {:induction false} TasksUse(n: nat, e: seq<Task>, i: nat, tasks: seq<Task>, h: nat, taken: seq<nat>, d: nat)
    requires n <= |tasks| <= i && Entering(e, i, tasks, h, taken, d)
    ensures EdfResponse.Utilization(e[..|tasks| + n], FREE)
         == HandlersShare(|tasks|, tasks, h) + TakenShare(n, tasks, taken)
  {
    if n == 0 {
      HandlersUse(|tasks|, e, i, tasks, h, taken, d);
    } else {
      TasksUse(n - 1, e, i, tasks, h, taken, d);
      NextShare(e, FREE, |tasks| + n - 1);
    }
  }

  lemma ShareAdds(a: nat, b: nat, p: nat)
    requires 0 < p
    ensures (a + b) as real / p as real == a as real / p as real + b as real / p as real
  {
  }

  lemma {:induction false} UseIs(n: nat, tasks: seq<Task>, costs: Costs, h: nat, taken: seq<nat>)
    requires n <= |tasks| == |taken| && Periodic(tasks) && h == costs.isw + costs.timer + costs.rsw
    requires forall j :: 0 <= j < |tasks| ==> taken[j] == tasks[j].wcet + costs.rsw
    ensures EdfResponse.Utilization(tasks[..n], costs) == HandlersShare(n, tasks, h) + TakenShare(n, tasks, taken)
  {
    if n > 0 {
      UseIs(n - 1, tasks, costs, h, taken);
      NextShare(tasks, costs, n - 1);
      ShareAdds(taken[n - 1], h, tasks[n - 1].period);
      assert EdfResponse.Cost(tasks[n - 1], costs) == taken[n - 1] + h;
    }
  }

  /** And so the load. */
  lemma LoadWithCosts(tasks: seq<Task>, costs: Costs)
    requires Periodic(tasks)
    ensures Periodic(WithCosts(|tasks|, tasks, costs))
    ensures EdfResponse.Utilization(WithCosts(|tasks|, tasks, costs), FREE) == EdfResponse.Utilization(tasks, costs)
  {
    var e, h := WithCosts(|tasks|, tasks, costs), costs.isw + costs.timer + costs.rsw;
    CostsPeriodic(|tasks|, tasks, costs);
    TasksUse(|tasks|, e, |tasks|, tasks, h, Taken(tasks, costs), 0);
    UseIs(|tasks|, tasks, costs, h, Taken(tasks, costs));
    assert e[..|tasks| + |tasks|] == e && tasks[..|tasks|] == tasks;
  }

  /** A window that covers the demand is no shorter than a busy period. */
  lemma {:induction false} BusyWithin(tasks: seq<Task>, costs: Costs, l: nat, r: nat) returns (length: nat)
    requires Periodic(tasks) && EdfResponse.Demand(tasks, costs, l) <= l && 0 < r <= l
    requires EdfResponse.SumCosts(tasks, costs) > 0 && r <= EdfResponse.Demand(tasks, costs, r)
    requires forall x: nat :: 0 < x && EdfResponse.Demand(tasks, costs, x) <= x ==> r <= x
    ensures length <= l && EdfResponse.IsBusyPeriod(tasks, costs, length)
    decreases l - r
  {
    var next := EdfResponse.Demand(tasks, costs, r);
    if next == r {
      length := r;
    } else {
      forall x: nat | 0 < x && EdfResponse.Demand(tasks, costs, x) <= x ensures next <= x {
        EdfResponse.DemandRises(tasks, costs, r, x);
      }
      EdfResponse.DemandRises(tasks, costs, r, next);
      length := BusyWithin(tasks, costs, l, next);
    }
  }

  lemma SomeBusyPeriod(tasks: seq<Task>, costs: Costs, l: nat) returns (length: nat)
    requires Periodic(tasks) && EdfResponse.Demand(tasks, costs, l) <= l && 0 < l
    ensures length <= l && EdfResponse.IsBusyPeriod(tasks, costs, length)
  {
    var sum := EdfResponse.SumCosts(tasks, costs);
    if sum == 0 {
      EdfResponse.NothingAsked(tasks, costs, 0);
      length := 0;
    } else {
      EdfResponse.DemandAtLeast(tasks, costs, sum);
      forall x: nat | 0 < x && EdfResponse.Demand(tasks, costs, x) <= x ensures sum <= x {
        EdfResponse.DemandAtLeast(tasks, costs, x);
      }
      length := BusyWithin(tasks, costs, l, sum);
    }
  }

  // The exact bound

  /** r bounds every response of task i under EDF, the costs taken. */
  ghost predicate EdfCostBounds(i: nat, tasks: seq<Task>, costs: Costs, r: nat) {
    var at := |tasks| + i;
    forall jobs, run, k: nat ::
      CostSchedule(WithCosts(i, tasks, costs), |tasks|, jobs, run) ==> InTime(jobs, run, at, k, r)
  }

  /** Responses of the task set, far enough put off, are no longer than those the analysis with
      the costs looks at. */
  lemma ResponsesWithin(i: nat, tasks: seq<Task>, costs: Costs, length: nat, d: nat, r: nat, busy: nat, b: nat, w: nat)
    requires i < |tasks| && Periodic(tasks) && EdfResponse.IsBusyPeriod(tasks, costs, length) && r <= d
    requires forall a: nat, w: nat :: EdfResponse.IsResponse(i, tasks, costs, length, a, w) ==> w - a <= r
    requires Periodic(EdfWithCosts(i, tasks, costs, d)) && busy <= length
    requires EdfResponse.IsResponse(|tasks| + i, EdfWithCosts(i, tasks, costs, d), FREE, busy, b, w)
    ensures w - b <= r
  {
    var x := ResponseAt(i, tasks, costs, length, b, r);
    AskedWithCosts(i, tasks, costs, d, b, x);
  }

  lemma CostsBounded(i: nat, tasks: seq<Task>, costs: Costs, length: nat, r: nat, jobs: seq<seq<Instance>>,
                     run: seq<Slot>, k: nat)
    requires i < |tasks| && Periodic(tasks) && EdfResponse.IsBusyPeriod(tasks, costs, length)
    requires forall a: nat, w: nat :: EdfResponse.IsResponse(i, tasks, costs, length, a, w) ==> w - a <= r
    requires CostSchedule(WithCosts(i, tasks, costs), |tasks|, jobs, run)
    ensures InTime(jobs, run, |tasks| + i, k, r)
  {
    var at, d := |tasks| + i, |run| + r;
    var e := EdfWithCosts(i, tasks, costs, d);
    EdfEntering(i, tasks, costs, d);
    CostsAreEdf(WithCosts(i, tasks, costs), |tasks|, d, jobs, run);
    if k < |jobs[at]| && jobs[at][k].release + r <= |run| {
      var busy := BusyWithCosts(i, tasks, costs, length, d);
      forall b: nat, w: nat | EdfResponse.IsResponse(at, e, FREE, busy, b, w) ensures w - b <= r {
        ResponsesWithin(i, tasks, costs, length, d, r, busy, b, w);
      }
      EdfResponseBounded(e, jobs, run, at, k, busy, r);
    }
  }

  lemma BusyWithCosts(i: nat, tasks: seq<Task>, costs: Costs, length: nat, d: nat) returns (busy: nat)
    requires i < |tasks| && Periodic(tasks) && EdfResponse.IsBusyPeriod(tasks, costs, length)
    ensures Periodic(EdfWithCosts(i, tasks, costs, d))
    ensures busy <= length && EdfResponse.IsBusyPeriod(EdfWithCosts(i, tasks, costs, d), FREE, busy)
  {
    var e := EdfWithCosts(i, tasks, costs, d);
    EdfEntering(i, tasks, costs, d);
    if length > 0 {
      DemandEntering(e, i, tasks, costs, costs.isw + costs.timer + costs.rsw, d, length);
      busy := SomeBusyPeriod(e, FREE, length);
    } else {
      DemandEntering(e, i, tasks, costs, costs.isw + costs.timer + costs.rsw, d, 1);
      EdfResponse.NothingAsked(tasks, costs, 1);
      busy := SomeBusyPeriod(e, FREE, 1);
    }
  }

  /** In the worst schedule the instance at the offset is served by the bound, and so covers its
      window. */
  lemma CostCovers(i: nat, tasks: seq<Task>, costs: Costs, a: nat, r: nat, d: nat) returns (t: nat)
    requires i < |tasks| && Periodic(tasks) && EdfCostBounds(i, tasks, costs, r) && a + r <= d
    ensures t <= a + r && EdfResponse.Asked(i, a, tasks, costs, t) <= t
  {
    var at, e := |tasks| + i, EdfWithCosts(i, tasks, costs, d);
    EdfEntering(i, tasks, costs, d);
    var count := a / e[at].period + a + r + 1;
    var run := CostServes(i, tasks, costs, a, r, d, count);
    DoneCovers(e, run, at, a, a + r, count);
    t :| t <= a + r && EdfResponse.Asked(at, a, e, FREE, t) <= t;
    AskedWithCosts(i, tasks, costs, d, a, t);
  }

  lemma CostServes(i: nat, tasks: seq<Task>, costs: Costs, a: nat, r: nat, d: nat, count: nat) returns (run: seq<Slot>)
    requires i < |tasks| && EdfCostBounds(i, tasks, costs, r) && a + r <= d
    requires Periodic(EdfWithCosts(i, tasks, costs, d))
    requires a / EdfWithCosts(i, tasks, costs, d)[|tasks| + i].period < count
    ensures |run| == a + r
    ensures var at, e := |tasks| + i, EdfWithCosts(i, tasks, costs, d);
      && Served(run, at, a + r) >= EdfResponse.OwnWork(at, a, e)
      && forall t :: 0 <= t < |run| ==> TiesAgainst(e, AtOffset(e, at, a % e[at].period, count), run, at, t)
  {
    var at, e := |tasks| + i, EdfWithCosts(i, tasks, costs, d);
    var first, k := a % e[at].period, a / e[at].period;
    run := WorstRun(e, at, first, count, a + r);
    AtItsOffset(e, at, a, count);
    CostInTime(i, tasks, costs, d, r, AtOffset(e, at, first, count), run, k);
  }

  /** No bound is below a window, at any offset. */
  lemma CostWindowReached(i: nat, tasks: seq<Task>, costs: Costs, a: nat, w: nat, r: nat)
    requires i < |tasks| && Periodic(tasks) && EdfCostBounds(i, tasks, costs, r)
    requires EdfResponse.IsWindow(i, a, tasks, costs, w)
    ensures w - a <= r
  {
    var t := CostCovers(i, tasks, costs, a, r, a + r);
    LeastWindow(i, a, tasks, costs, w, t);
  }

  lemma LeastWindow(i: nat, a: nat, tasks: seq<Task>, costs: Costs, w: nat, t: nat)
    requires i < |tasks| && Periodic(tasks)
    requires EdfResponse.IsWindow(i, a, tasks, costs, w) && EdfResponse.Asked(i, a, tasks, costs, t) <= t
    ensures w <= t
  {
  }

  lemma CostInTime(i: nat, tasks: seq<Task>, costs: Costs, d: nat, r: nat, jobs: seq<seq<Instance>>, run: seq<Slot>,
                   k: nat)
    requires EdfCostBounds(i, tasks, costs, r) && |run| <= d
    requires EdfSchedule.Schedule(EdfWithCosts(i, tasks, costs, d), jobs, run)
    ensures InTime(jobs, run, |tasks| + i, k, r)
  {
    CostsAreEdf(WithCosts(i, tasks, costs), |tasks|, d, jobs, run);
  }

  /** With a load below 1, a time bounds every response, the costs taken, if and only if it bounds
      those the analysis looks at. */
  lemma EdfCostsExactly(i: nat, tasks: seq<Task>, costs: Costs, length: nat, r: nat)
    requires i < |tasks| && Periodic(tasks) && EdfResponse.IsBusyPeriod(tasks, costs, length)
    ensures EdfCostBounds(i, tasks, costs, r)
       <==> forall a: nat, w: nat :: EdfResponse.IsResponse(i, tasks, costs, length, a, w) ==> w - a <= r
  {
    if EdfCostBounds(i, tasks, costs, r) {
      forall a: nat, w: nat | EdfResponse.IsResponse(i, tasks, costs, length, a, w) ensures w - a <= r {
        CostWindowReached(i, tasks, costs, a, w, r);
      }
    }
    if forall a: nat, w: nat :: EdfResponse.IsResponse(i, tasks, costs, length, a, w) ==> w - a <= r {
      var at := |tasks| + i;
      forall jobs, run, k: nat | CostSchedule(WithCosts(i, tasks, costs), |tasks|, jobs, run)
        ensures InTime(jobs, run, at, k, r)
      {
        CostsBounded(i, tasks, costs, length, r, jobs, run, k);
      }
    }
  }

  /** No bound is below the WCET. */
  lemma CostWcetReached(i: nat, tasks: seq<Task>, costs: Costs, length: nat, r: nat)
    requires i < |tasks| && Periodic(tasks) && EdfResponse.IsBusyPeriod(tasks, costs, length)
    requires EdfCostBounds(i, tasks, costs, r)
    ensures tasks[i].wcet <= r
  {
    if length > 0 {
      EdfResponse.WithinDemand(|tasks|, i, 0, tasks, costs, length);
      assert tasks[..|tasks|] == tasks;
      var w := WindowFrom(i, 0, tasks, costs, length, 0);
      CostWindowReached(i, tasks, costs, 0, w, r);
    } else {
      CostHolds(tasks, costs, i);
    }
  }

  lemma {:induction false} CostHolds(tasks: seq<Task>, costs: Costs, i: nat)
    requires i < |tasks|
    ensures EdfResponse.SumCosts(tasks, costs) >= tasks[i].wcet
  {
    if i < |tasks| - 1 {
      CostHolds(tasks[..|tasks| - 1], costs, i);
    }
  }

  /** edf_response_time: its answer is the longest response there can be, the costs taken; with
      none for a load below 1 a deadline can be missed. */
  method WorstEdfResponseWithCosts(i: nat, tasks: seq<Task>, costs: Costs) returns (bound: Option<nat>)
    requires i < |tasks| && Periodic(tasks)
    ensures bound.Some? ==>
      && bound.value <= tasks[i].deadline && EdfCostBounds(i, tasks, costs, bound.value)
      && forall r: nat :: EdfCostBounds(i, tasks, costs, r) ==> bound.value <= r
    ensures bound.None? && EdfResponse.Utilization(tasks, costs) < 1.0 ==>
      !EdfCostBounds(i, tasks, costs, tasks[i].deadline)
  {
    ghost var length;
    bound, length := EdfResponse.EdfResponseTime(i, tasks, costs);
    if EdfResponse.Utilization(tasks, costs) < 1.0 {
      forall r: nat | EdfCostBounds(i, tasks, costs, r)
        ensures tasks[i].wcet <= r
        ensures forall a: nat, w: nat :: EdfResponse.IsResponse(i, tasks, costs, length, a, w) ==> w - a <= r
      {
        CostWcetReached(i, tasks, costs, length, r);
        EdfCostsExactly(i, tasks, costs, length, r);
      }
      if bound.Some? {
        EdfCostsExactly(i, tasks, costs, length, bound.value);
      }
    }
  }
}
