/** What the kernel's costs mean in the fixed-priority analysis: the analysis with costs is the
    analysis without them of a task set in which each release of a task also enters a handler
    above all tasks, and each instance of the others restores a context once it ends. */
module ResponseCosts {
  import opened Arith
  import opened Common
  import opened ResponseTime
  import opened FixedPriority
  import opened ResponseExact

  // The task set with the costs in it

  /** The timer's interrupt at a release, and the return from it. */
  function Handler(t: Task, costs: Costs): Task {
    Task(costs.isw + costs.timer + costs.rsw, t.period, 0)
  }

  /** A task of which an instance ends before the one analysed: it restores a context. */
  function Restoring(t: Task, costs: Costs): Task {
    t.(wcet := t.wcet + costs.rsw)
  }

  /** The handlers, above all, then the tasks as task i sees them. */
  function WithCosts(i: nat, tasks: seq<Task>, costs: Costs): (r: seq<Task>)
    ensures |r| == 2 * |tasks|
    ensures forall j :: 0 <= j < |tasks| ==> r[j] == Handler(tasks[j], costs)
    ensures forall j :: 0 <= j < |tasks| ==>
      r[|tasks| + j] == if j == i then tasks[j] else Restoring(tasks[j], costs)
  {
    seq(|tasks|, j requires 0 <= j < |tasks| => Handler(tasks[j], costs))
    + seq(|tasks|, j requires 0 <= j < |tasks| => if j == i then tasks[j] else Restoring(tasks[j], costs))
  }

  lemma CostsPeriodic(i: nat, tasks: seq<Task>, costs: Costs)
    requires Periodic(tasks)
    ensures Periodic(WithCosts(i, tasks, costs))
  {
    var e, n := WithCosts(i, tasks, costs), |tasks|;
    forall j | 0 <= j < |e| ensures e[j].period > 0 {
      if j >= n {
        assert e[j] == e[n + (j - n)];
      }
    }
  }

  /** The task set for a handler's time h and the times the others take. */
  ghost predicate Entering(e: seq<Task>, i: nat, tasks: seq<Task>, h: nat, taken: seq<nat>) {
    && |e| == 2 * |tasks| && |taken| == |tasks| && Periodic(e) && Periodic(tasks)
    && (forall j :: 0 <= j < |tasks| ==> e[j] == Task(h, tasks[j].period, 0))
    && forall j :: 0 <= j < |tasks| ==>
         e[|tasks| + j] == if j == i then tasks[j] else tasks[j].(wcet := taken[j])
  }

  /** The work of the first n handlers in a window. */
  function Interrupts(n: nat, tasks: seq<Task>, h: nat, r: nat): nat
    requires n <= |tasks| && Periodic(tasks)
  {
    if n == 0 then 0 else Interrupts(n - 1, tasks, h, r) + Times(Ceil(r, tasks[n - 1].period), h)
  }

  /** And of the first n tasks, those of priority over i. */
  function Others(n: nat, i: nat, tasks: seq<Task>, taken: seq<nat>, r: nat): nat
    requires n <= |tasks| == |taken| && i < |tasks| && Periodic(tasks)
  {
    if n == 0 then 0
    else Others(n - 1, i, tasks, taken, r)
         + if PriorityOver(n - 1, i, tasks) then Times(Ceil(r, tasks[n - 1].period), taken[n - 1]) else 0
  }

  lemma NextIs(e: seq<Task>, at: nat, k: nat, r: nat, t: Task)
    requires k < |e| && at < |e| && Periodic(e) && e[k] == t
    ensures Load(k + 1, at, e, FREE, r)
         == Load(k, at, e, FREE, r) + if PriorityOver(k, at, e) then Times(Ceil(r, t.period), t.wcet) else 0
  {
    LoadNext(e, at, k, r);
  }

  lemma {:induction false} HandlersLoad(n: nat, e: seq<Task>, i: nat, tasks: seq<Task>, h: nat, taken: seq<nat>,
                                        r: nat)
    requires n <= |tasks| && i < |tasks| && Entering(e, i, tasks, h, taken)
    ensures Load(n, |tasks| + i, e, FREE, r) == Interrupts(n, tasks, h, r)
  {
    if n > 0 {
      HandlersLoad(n - 1, e, i, tasks, h, taken, r);
      NextIs(e, |tasks| + i, n - 1, r, Task(h, tasks[n - 1].period, 0));
    }
  }

  lemma {:induction false} TasksLoad(n: nat, e: seq<Task>, i: nat, tasks: seq<Task>, h: nat, taken: seq<nat>, r: nat)
    requires n <= |tasks| && i < |tasks| && Entering(e, i, tasks, h, taken)
    ensures Load(|tasks| + n, |tasks| + i, e, FREE, r)
         == Interrupts(|tasks|, tasks, h, r) + Others(n, i, tasks, taken, r)
  {
    if n == 0 {
      HandlersLoad(|tasks|, e, i, tasks, h, taken, r);
    } else {
      var k := n - 1;
      TasksLoad(k, e, i, tasks, h, taken, r);
      NextIs(e, |tasks| + i, |tasks| + k, r, if k == i then tasks[k] else tasks[k].(wcet := taken[k]));
    }
  }

  lemma {:induction false} LoadIs(n: nat, i: nat, tasks: seq<Task>, costs: Costs, h: nat, taken: seq<nat>, r: nat)
    requires n <= |tasks| == |taken| && i < |tasks| && Periodic(tasks)
    requires h == costs.isw + costs.timer + costs.rsw
    requires forall j :: 0 <= j < |tasks| ==> taken[j] == tasks[j].wcet + costs.rsw
    ensures Load(n, i, tasks, costs, r) == Interrupts(n, tasks, h, r) + Others(n, i, tasks, taken, r)
  {
    if n > 0 {
      LoadIs(n - 1, i, tasks, costs, h, taken, r);
    }
  }

  /** A time is enough with the costs exactly when it is without them for that task set. */
  lemma EnoughWithCosts(i: nat, tasks: seq<Task>, costs: Costs, r: nat)
    requires i < |tasks| && Periodic(tasks)
    ensures Periodic(WithCosts(i, tasks, costs))
    ensures Window(i, tasks, costs, r) == Window(|tasks| + i, WithCosts(i, tasks, costs), FREE, r)
    ensures Enough(i, tasks, costs, r) <==> Enough(|tasks| + i, WithCosts(i, tasks, costs), FREE, r)
  {
    CostsPeriodic(i, tasks, costs);
    var h := costs.isw + costs.timer + costs.rsw;
    var taken := seq(|tasks|, j requires 0 <= j < |tasks| => tasks[j].wcet + costs.rsw);
    LoadIs(|tasks|, i, tasks, costs, h, taken, r);
    TasksLoad(|tasks|, WithCosts(i, tasks, costs), i, tasks, h, taken, r);
  }

  // The schedules it bounds

  ghost predicate SameReleases(q: seq<Instance>, q': seq<Instance>) {
    |q| == |q'| && forall k :: 0 <= k < |q| ==> q[k].release == q'[k].release
  }

  /** Each release of a task enters its handler. */
  ghost predicate Entered(n: nat, jobs: seq<seq<Instance>>) {
    |jobs| == 2 * n && forall j :: 0 <= j < n ==> EnteredAt(n, jobs, j)
  }

  ghost predicate EnteredAt(n: nat, jobs: seq<seq<Instance>>, j: nat)
    requires j < n && |jobs| == 2 * n
  {
    SameReleases(jobs[j], jobs[n + j])
  }

  /** r bounds every response of task i, the costs taken. */
  ghost predicate CostBounds(i: nat, tasks: seq<Task>, costs: Costs, r: nat) {
    var at := |tasks| + i;
    forall jobs, run, k: nat ::
      Schedule(WithCosts(i, tasks, costs), jobs, run) && Entered(|tasks|, jobs) ==> InTime(jobs, run, at, k, r)
  }

  lemma WorstEnters(i: nat, tasks: seq<Task>, costs: Costs, count: nat)
    ensures Entered(|tasks|, Synchronous(WithCosts(i, tasks, costs), count))
  {
    var jobs := Synchronous(WithCosts(i, tasks, costs), count);
    forall j: nat | j < |tasks| ensures EnteredAt(|tasks|, jobs, j) {
      assert jobs[j] == Every(Handler(tasks[j], costs), 0, count);
    }
  }

  /** Exactly when: the worst releases enter the handlers with the tasks, so that it is no matter
      whether they do. */
  lemma CostsExactly(i: nat, tasks: seq<Task>, costs: Costs, r: nat)
    requires i < |tasks| && Periodic(tasks)
    ensures Periodic(WithCosts(i, tasks, costs))
    ensures CostBounds(i, tasks, costs, r) <==> Fits(|tasks| + i, WithCosts(i, tasks, costs), r)
    ensures CostBounds(i, tasks, costs, r) <==> Bounds(|tasks| + i, WithCosts(i, tasks, costs), r)
  {
    var e, at := WithCosts(i, tasks, costs), |tasks| + i;
    CostsPeriodic(i, tasks, costs);
    BoundExactly(at, e, r);
    if CostBounds(i, tasks, costs, r) {
      forall count: nat, run, k: nat | Schedule(e, Synchronous(e, count), run)
        ensures InTime(Synchronous(e, count), run, at, k, r)
      {
        WorstEnters(i, tasks, costs, count);
      }
      WorstFits(at, e, r);
    }
  }

  /** response_time: within the period its answer is the longest response there can be, the costs
      taken; with none a deadline can be missed. */
  method WorstResponseWithCosts(i: nat, tasks: seq<Task>, costs: Costs) returns (bound: Option<nat>)
    requires i < |tasks| && Periodic(tasks)
    ensures bound.Some? ==>
      bound.value <= tasks[i].deadline && forall r: nat :: CostBounds(i, tasks, costs, r) ==> bound.value <= r
    ensures bound.Some? && bound.value <= tasks[i].period ==> CostBounds(i, tasks, costs, bound.value)
    ensures bound.None? ==> !CostBounds(i, tasks, costs, tasks[i].deadline)
  {
    bound := ResponseTime.ResponseTime(i, tasks, costs);
    CostsPeriodic(i, tasks, costs);
    forall r: nat | CostBounds(i, tasks, costs, r) ensures exists x: nat :: x <= r && Enough(i, tasks, costs, x) {
      CostsExactly(i, tasks, costs, r);
      AnswerIsLeast(|tasks| + i, WithCosts(i, tasks, costs), r);
      var x: nat :| x <= r && Enough(|tasks| + i, WithCosts(i, tasks, costs), FREE, x);
      EnoughWithCosts(i, tasks, costs, x);
    }
    if bound.Some? && bound.value <= tasks[i].period {
      EnoughWithCosts(i, tasks, costs, bound.value);
      EnoughFits(|tasks| + i, WithCosts(i, tasks, costs), bound.value);
      CostsExactly(i, tasks, costs, bound.value);
    }
  }
}
