/** The response-time analysis of fixed priorities in tools/response_times.py, and the
    schedules it bounds. Times are whole ticks, the kernel's costs whole too. */
module ResponseTime {
  import opened Arith
  import opened Common

  datatype Task = Task(wcet: nat, period: nat, deadline: nat)

  /** The kernel's costs: C_isw, C_timer and C_rsw. */
  datatype Costs = Costs(isw: nat, timer: nat, rsw: nat)

  ghost predicate Periodic(tasks: seq<Task>) {
    forall i :: 0 <= i < |tasks| ==> tasks[i].period > 0
  }

  function Ceil(r: nat, p: nat): nat
    requires 0 < p
  {
    (r + p - 1) / p
  }

  lemma CeilBounds(r: nat, p: nat)
    requires 0 < p
    ensures (Ceil(r, p) - 1) * p < r <= Ceil(r, p) * p
  {
    var q := Ceil(r, p);
    assert r + p - 1 == q * p + (r + p - 1) % p;
    Distributes(q, -1, p);
  }

  lemma CeilRises(r: nat, s: nat, p: nat)
    requires 0 < p && r <= s
    ensures Ceil(r, p) <= Ceil(s, p)
  {
    CeilBounds(r, p);
    CeilBounds(s, p);
    MulCancels(Ceil(r, p) - 1, Ceil(s, p), p);
  }

  /** priority_over: the shorter deadline, ties by order. */
  predicate PriorityOver(k: nat, i: nat, tasks: seq<Task>)
    requires k < |tasks| && i < |tasks|
  {
    tasks[k].deadline < tasks[i].deadline || (tasks[k].deadline == tasks[i].deadline && k < i)
  }

  /** What the first n tasks add to a window of r: the instances of higher priority, and the
      timer's interrupts of all. */
  function Load(n: nat, i: nat, tasks: seq<Task>, costs: Costs, r: nat): nat
    requires n <= |tasks| && i < |tasks| && Periodic(tasks)
  {
    if n == 0 then 0
    else
      var releases := Ceil(r, tasks[n - 1].period);
      Load(n - 1, i, tasks, costs, r)
      + (if PriorityOver(n - 1, i, tasks) then Times(releases, tasks[n - 1].wcet + costs.rsw) else 0)
      + Times(releases, costs.isw + costs.timer + costs.rsw)
  }

  function Times(a: nat, b: nat): nat {
    MulMonotone(0, a, b);
    a * b
  }

  /** The right-hand side of equation 2.3. */
  function Window(i: nat, tasks: seq<Task>, costs: Costs, r: nat): nat
    requires i < |tasks| && Periodic(tasks)
  {
    tasks[i].wcet + Load(|tasks|, i, tasks, costs, r)
  }

  lemma TimesRises(a: nat, b: nat, n: nat)
    requires a <= b
    ensures Times(a, n) <= Times(b, n)
  {
    MulMonotone(a, b, n);
  }

  lemma {:induction false} LoadRises(n: nat, i: nat, tasks: seq<Task>, costs: Costs, r: nat, s: nat)
    requires n <= |tasks| && i < |tasks| && Periodic(tasks) && r <= s
    ensures Load(n, i, tasks, costs, r) <= Load(n, i, tasks, costs, s)
  {
    if n > 0 {
      LoadRises(n - 1, i, tasks, costs, r, s);
      var p := tasks[n - 1].period;
      CeilRises(r, s, p);
      TimesRises(Ceil(r, p), Ceil(s, p), tasks[n - 1].wcet + costs.rsw);
      TimesRises(Ceil(r, p), Ceil(s, p), costs.isw + costs.timer + costs.rsw);
    }
  }

  /** A time the analysis could return: at least the WCET, and enough for its own window. */
  predicate Enough(i: nat, tasks: seq<Task>, costs: Costs, r: nat)
    requires i < |tasks| && Periodic(tasks)
  {
    tasks[i].wcet <= r && Window(i, tasks, costs, r) <= r
  }

  /** response_time: the least time that is enough, a fixed point, or none when none is
      within the deadline. */
  method ResponseTime(i: nat, tasks: seq<Task>, costs: Costs) returns (bound: Option<nat>)
    requires i < |tasks| && Periodic(tasks)
    ensures bound.Some? ==>
      && bound.value <= tasks[i].deadline
      && Window(i, tasks, costs, bound.value) == bound.value && Enough(i, tasks, costs, bound.value)
      && forall r: nat :: Enough(i, tasks, costs, r) ==> bound.value <= r
    ensures bound.None? <==> forall r: nat :: r <= tasks[i].deadline ==> !Enough(i, tasks, costs, r)
  {
    var r := tasks[i].wcet;
    while true
      invariant tasks[i].wcet <= r <= Window(i, tasks, costs, r)
      invariant forall x: nat :: Enough(i, tasks, costs, x) ==> r <= x
      decreases tasks[i].deadline - r
    {
      var next := Window(i, tasks, costs, r);
      forall x: nat | Enough(i, tasks, costs, x) ensures next <= x {
        LoadRises(|tasks|, i, tasks, costs, r, x);
      }
      if next > tasks[i].deadline {
        return None;
      }
      if next == r {
        assert Enough(i, tasks, costs, r);
        return Some(r);
      }
      LoadRises(|tasks|, i, tasks, costs, r, next);
      r := next;
    }
  }
}
