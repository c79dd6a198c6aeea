/** The busy period and Spuri's response-time analysis of EDF in tools/response_times.py.
    The load is an exact fraction where Python has a float. */
module EdfResponse {
  import opened Arith
  import opened Common
  import opened ResponseTime

  /** What an instance costs in all: its WCET, the timer's interrupt and two restores. */
  function Cost(t: Task, costs: Costs): nat {
    t.wcet + costs.isw + costs.timer + 2 * costs.rsw
  }

  function Utilization(tasks: seq<Task>, costs: Costs): real
    requires Periodic(tasks)
  {
    if tasks == [] then 0.0
    else
      var t := tasks[|tasks| - 1];
      Utilization(tasks[..|tasks| - 1], costs) + Cost(t, costs) as real / t.period as real
  }

  function SumCosts(tasks: seq<Task>, costs: Costs): nat {
    if tasks == [] then 0
    else SumCosts(tasks[..|tasks| - 1], costs) + Cost(tasks[|tasks| - 1], costs)
  }

  /** The demand equation: what is released in a window of r, every task as often as it can. */
  function Demand(tasks: seq<Task>, costs: Costs, r: nat): nat
    requires Periodic(tasks)
  {
    if tasks == [] then 0
    else
      var t := tasks[|tasks| - 1];
      Demand(tasks[..|tasks| - 1], costs, r) + Times(Ceil(r, t.period), Cost(t, costs))
  }

  lemma {:induction false} DemandRises(tasks: seq<Task>, costs: Costs, r: nat, s: nat)
    requires Periodic(tasks) && r <= s
    ensures Demand(tasks, costs, r) <= Demand(tasks, costs, s)
  {
    if tasks != [] {
      var t := tasks[|tasks| - 1];
      DemandRises(tasks[..|tasks| - 1], costs, r, s);
      CeilRises(r, s, t.period);
      TimesRises(Ceil(r, t.period), Ceil(s, t.period), Cost(t, costs));
    }
  }

  lemma {:induction false} DemandAtLeast(tasks: seq<Task>, costs: Costs, r: nat)
    requires Periodic(tasks) && r > 0
    ensures SumCosts(tasks, costs) <= Demand(tasks, costs, r)
  {
    if tasks != [] {
      var t := tasks[|tasks| - 1];
      DemandAtLeast(tasks[..|tasks| - 1], costs, r);
      CeilBounds(r, t.period);
      MulCancels(0, Ceil(r, t.period), t.period);
      TimesRises(1, Ceil(r, t.period), Cost(t, costs));
    }
  }

  // The bound on the busy period

  /** u r, by repeated addition. */
  function Share(u: real, r: nat): real {
    if r == 0 then 0.0 else Share(u, r - 1) + u
  }

  lemma {:induction false} ShareIsProduct(u: real, r: nat)
    ensures Share(u, r) == u * r as real
  {
    if r > 0 {
      ShareIsProduct(u, r - 1);
      assert u * r as real == u * (r - 1) as real + u;
    }
  }

  lemma {:induction false} ShareRises(u: real, r: nat, s: nat)
    requires 0.0 <= u && r <= s
    ensures Share(u, r) <= Share(u, s)
  {
    if r < s {
      ShareRises(u, r, s - 1);
    }
  }

  lemma {:induction false} ShareAdds(u: real, v: real, r: nat)
    ensures Share(u + v, r) == Share(u, r) + Share(v, r)
  {
    if r > 0 {
      ShareAdds(u, v, r - 1);
    }
  }

  lemma TermBelow(r: nat, p: nat, c: nat)
    requires 0 < p
    ensures Times(Ceil(r, p), c) as real <= Share(c as real / p as real, r) + c as real
  {
    CeilBounds(r, p);
    var q := Ceil(r, p);
    MulMonotone((q - 1) * p, r, c);
    assert ((q - 1) * p) * c == (q * c - c) * p;
    RealBelow(q * c - c, p, r, c);
    ShareIsProduct(c as real / p as real, r);
  }

  lemma RealBelow(x: int, p: nat, r: nat, c: nat)
    requires 0 < p && x * p <= r * c
    ensures x as real <= (c as real / p as real) * r as real
  {
    var x', p', r', c' := x as real, p as real, r as real, c as real;
    assert x' * p' == (x * p) as real && r' * c' == (r * c) as real;
    assert (c' / p') * p' == c';
    assert ((c' / p') * r') * p' == r' * c';
    if x' > (c' / p') * r' {
      assert (x' - (c' / p') * r') * p' > 0.0;
    }
  }

  lemma {:induction false} DemandBelow(tasks: seq<Task>, costs: Costs, r: nat)
    requires Periodic(tasks)
    ensures Demand(tasks, costs, r) as real <= Share(Utilization(tasks, costs), r) + SumCosts(tasks, costs) as real
    ensures Utilization(tasks, costs) >= 0.0
  {
    if tasks != [] {
      var t := tasks[|tasks| - 1];
      var rest := tasks[..|tasks| - 1];
      DemandBelow(rest, costs, r);
      TermBelow(r, t.period, Cost(t, costs));
      ShareAdds(Utilization(rest, costs), Cost(t, costs) as real / t.period as real, r);
    } else {
      ShareIsProduct(0.0, r);
    }
  }

  /** The costs over one less the load, rounded up. */
  lemma Longest(u: real, s: nat) returns (l: nat)
    requires 0.0 <= u < 1.0
    ensures Share(u, l) + s as real <= l as real && s <= l
  {
    var v := 1.0 - u;
    var x := s as real / v;
    DivideBack(s as real, v);
    l := x.Floor + 1;
    ShareIsProduct(u, l);
    Product(l as real - x, v);
    assert (l as real - x) * v == l as real * v - x * v;
    assert l as real * v == l as real - u * l as real;
    Product(u, l as real);
  }

  lemma DivideBack(s: real, v: real)
    requires v > 0.0 && s >= 0.0
    ensures (s / v) * v == s && s / v >= 0.0
  {
  }

  lemma Product(a: real, b: real)
    requires a >= 0.0 && b >= 0.0
    ensures a * b >= 0.0
  {
  }

  /** No window the iteration meets is longer. */
  lemma StaysBelow(tasks: seq<Task>, costs: Costs, r: nat, l: nat)
    requires Periodic(tasks) && r <= l
    requires Share(Utilization(tasks, costs), l) + SumCosts(tasks, costs) as real <= l as real
    ensures Demand(tasks, costs, r) <= l
  {
    DemandBelow(tasks, costs, r);
    ShareRises(Utilization(tasks, costs), r, l);
  }

  /** The least positive solution of the demand equation; nothing to do, no period. */
  ghost predicate IsBusyPeriod(tasks: seq<Task>, costs: Costs, length: nat)
    requires Periodic(tasks)
  {
    && Demand(tasks, costs, length) == length
    && (length > 0 <==> SumCosts(tasks, costs) > 0)
    && forall r: nat :: 0 < r && Demand(tasks, costs, r) <= r ==> length <= r
  }

  /** busy_period: for a load below 1 it ends, with the least window the demand equation
      allows. */
  method BusyPeriod(tasks: seq<Task>, costs: Costs) returns (period: Option<nat>)
    requires Periodic(tasks)
    ensures period.None? <==> Utilization(tasks, costs) >= 1.0
    ensures period.Some? ==>
      IsBusyPeriod(tasks, costs, period.value)
  {
    if Utilization(tasks, costs) >= 1.0 {
      return None;
    }
    var length := SumCosts(tasks, costs);
    DemandBelow(tasks, costs, 0);
    ghost var longest := Longest(Utilization(tasks, costs), length);
    if length > 0 {
      DemandAtLeast(tasks, costs, length);
    } else {
      NothingAsked(tasks, costs, 0);
    }
    forall r: nat | 0 < r && Demand(tasks, costs, r) <= r ensures length <= r {
      DemandAtLeast(tasks, costs, r);
    }
    while true
      invariant length <= Demand(tasks, costs, length) && length <= longest
      invariant length > 0 <==> SumCosts(tasks, costs) > 0
      invariant forall r: nat :: 0 < r && Demand(tasks, costs, r) <= r ==> length <= r
      decreases longest - length
    {
      var next := Demand(tasks, costs, length);
      if next == length {
        return Some(length);
      }
      forall r: nat | 0 < r && Demand(tasks, costs, r) <= r ensures next <= r {
        DemandRises(tasks, costs, length, r);
      }
      StaysBelow(tasks, costs, length, longest);
      DemandRises(tasks, costs, length, next);
      length := next;
    }
  }

  /** Nothing costs anything, nothing is asked. */
  lemma {:induction false} NothingAsked(tasks: seq<Task>, costs: Costs, r: nat)
    requires Periodic(tasks) && SumCosts(tasks, costs) == 0
    ensures Demand(tasks, costs, r) == 0
  {
    if tasks != [] {
      NothingAsked(tasks[..|tasks| - 1], costs, r);
    }
  }

  // The response at an offset

  function Least(a: nat, b: nat): nat { if a < b then a else b }

  /** The instances of task i released by an offset a. */
  function OwnWork(i: nat, a: nat, tasks: seq<Task>): nat
    requires i < |tasks| && Periodic(tasks)
  {
    Times(1 + a / tasks[i].period, tasks[i].wcet)
  }

  /** What the first n tasks add to a window of w, when task i is released at a: of the
      others the instances of deadline no later than its own, and the timer's interrupts. */
  function Others(n: nat, i: nat, a: nat, tasks: seq<Task>, costs: Costs, w: nat): nat
    requires n <= |tasks| && i < |tasks| && Periodic(tasks)
  {
    if n == 0 then 0
    else
      var t := tasks[n - 1];
      var slack := a + tasks[i].deadline - t.deadline;
      Others(n - 1, i, a, tasks, costs, w)
      + (if n - 1 != i && slack >= 0
         then Times(Least(Ceil(w, t.period), 1 + slack / t.period), t.wcet + costs.rsw) else 0)
      + Times(Ceil(w, t.period), costs.isw + costs.timer + costs.rsw)
  }

  /** What is asked of the processor in a window of w. */
  function Asked(i: nat, a: nat, tasks: seq<Task>, costs: Costs, w: nat): nat
    requires i < |tasks| && Periodic(tasks)
  {
    OwnWork(i, a, tasks) + Others(|tasks|, i, a, tasks, costs, w)
  }

  lemma {:induction false} OthersRise(n: nat, i: nat, a: nat, tasks: seq<Task>, costs: Costs, w: nat, x: nat)
    requires n <= |tasks| && i < |tasks| && Periodic(tasks) && w <= x
    ensures Others(n, i, a, tasks, costs, w) <= Others(n, i, a, tasks, costs, x)
  {
    if n > 0 {
      OthersRise(n - 1, i, a, tasks, costs, w, x);
      var t := tasks[n - 1];
      var slack := a + tasks[i].deadline - t.deadline;
      CeilRises(w, x, t.period);
      if slack >= 0 {
        var due := 1 + slack / t.period;
        TimesRises(Least(Ceil(w, t.period), due), Least(Ceil(x, t.period), due), t.wcet + costs.rsw);
      }
      TimesRises(Ceil(w, t.period), Ceil(x, t.period), costs.isw + costs.timer + costs.rsw);
    }
  }

  lemma TimesAdds(n: nat, b: nat, c: nat)
    ensures Times(n, b) + Times(n, c) == Times(n, b + c)
  {
    Distributes(b, c, n);
  }

  lemma Begun(a: nat, l: nat, p: nat)
    requires 0 < p && a < l
    ensures 1 + a / p <= Ceil(l, p)
  {
    CeilBounds(l, p);
    MulCancels(a / p, Ceil(l, p), p);
  }

  /** What one task adds, task i itself or another. */
  lemma OwnWithin(t: Task, a: nat, costs: Costs, l: nat)
    requires t.period > 0 && a < l
    ensures Times(1 + a / t.period, t.wcet) + Times(Ceil(l, t.period), costs.isw + costs.timer + costs.rsw)
         <= Times(Ceil(l, t.period), Cost(t, costs))
  {
    var c := Ceil(l, t.period);
    Begun(a, l, t.period);
    TimesRises(1 + a / t.period, c, t.wcet);
    TimesAdds(c, t.wcet, costs.isw + costs.timer + costs.rsw);
    TimesAdds(c, t.wcet + costs.isw + costs.timer + costs.rsw, costs.rsw);
  }

  lemma OtherWithin(t: Task, slack: int, costs: Costs, l: nat)
    requires t.period > 0
    ensures (if slack >= 0 then Times(Least(Ceil(l, t.period), 1 + slack / t.period), t.wcet + costs.rsw) else 0)
            + Times(Ceil(l, t.period), costs.isw + costs.timer + costs.rsw)
         <= Times(Ceil(l, t.period), Cost(t, costs))
  {
    var c := Ceil(l, t.period);
    TimesAdds(c, t.wcet + costs.rsw, costs.isw + costs.timer + costs.rsw);
    if slack >= 0 {
      TimesRises(Least(c, 1 + slack / t.period), c, t.wcet + costs.rsw);
    }
  }

  /** Over a busy period, an offset inside it, the window asks for no more than the demand. */
  lemma {:induction false} WithinDemand(n: nat, i: nat, a: nat, tasks: seq<Task>, costs: Costs, l: nat)
    requires n <= |tasks| && i < |tasks| && Periodic(tasks) && a < l
    ensures (if i < n then OwnWork(i, a, tasks) else 0) + Others(n, i, a, tasks, costs, l)
      <= Demand(tasks[..n], costs, l)
  {
    if n > 0 {
      var t := tasks[n - 1];
      WithinDemand(n - 1, i, a, tasks, costs, l);
      assert tasks[..n][..n - 1] == tasks[..n - 1];
      if n - 1 == i {
        OwnWithin(t, a, costs, l);
      } else {
        OtherWithin(t, a + tasks[i].deadline - t.deadline, costs, l);
      }
    }
  }

  /** The least window that covers what it asks for. */
  ghost predicate IsWindow(i: nat, a: nat, tasks: seq<Task>, costs: Costs, w: nat)
    requires i < |tasks| && Periodic(tasks)
  {
    && Asked(i, a, tasks, costs, w) == w
    && forall x: nat :: Asked(i, a, tasks, costs, x) <= x ==> w <= x
  }

  /** The inner iteration of edf_response_time: it rises to its least fixed point, inside the
      busy period. */
  method EdfWindow(i: nat, a: nat, tasks: seq<Task>, costs: Costs, ghost length: nat) returns (window: nat)
    requires i < |tasks| && Periodic(tasks) && Asked(i, a, tasks, costs, length) <= length
    ensures IsWindow(i, a, tasks, costs, window) && window <= length
  {
    window := OwnWork(i, a, tasks);
    while true
      invariant window <= Asked(i, a, tasks, costs, window)
      invariant forall x: nat :: Asked(i, a, tasks, costs, x) <= x ==> window <= x
      decreases length - window
    {
      var next := Asked(i, a, tasks, costs, window);
      if next == window {
        return;
      }
      forall x: nat | Asked(i, a, tasks, costs, x) <= x ensures next <= x {
        OthersRise(|tasks|, i, a, tasks, costs, window, x);
      }
      OthersRise(|tasks|, i, a, tasks, costs, window, next);
      window := next;
    }
  }

  // The offsets, and the bound

  /** The offset at which a deadline of task i falls on the k-th of task j. */
  function Offset(i: nat, j: nat, k: nat, tasks: seq<Task>): int
    requires i < |tasks| && j < |tasks|
  {
    Times(k, tasks[j].period) + tasks[j].deadline - tasks[i].deadline
  }

  ghost predicate IsOffset(i: nat, tasks: seq<Task>, length: nat, a: nat)
    requires i < |tasks|
  {
    a < length && exists j: nat, k: nat :: j < |tasks| && Offset(i, j, k, tasks) == a
  }

  lemma OffsetRises(i: nat, j: nat, k: nat, m: nat, tasks: seq<Task>)
    requires i < |tasks| && j < |tasks| && k <= m
    ensures Offset(i, j, k, tasks) <= Offset(i, j, m, tasks)
  {
    TimesRises(k, m, tasks[j].period);
  }

  method Offsets(i: nat, tasks: seq<Task>, length: nat) returns (offsets: set<nat>)
    requires i < |tasks| && Periodic(tasks)
    ensures forall a: nat :: a in offsets <==> IsOffset(i, tasks, length, a)
  {
    offsets := {};
    for j := 0 to |tasks|
      invariant forall a: nat :: a in offsets ==> IsOffset(i, tasks, length, a)
      invariant forall j', k: nat :: 0 <= j' < j && 0 <= Offset(i, j', k, tasks) < length ==>
        Offset(i, j', k, tasks) in offsets
    {
      var k := 0;
      while Offset(i, j, k, tasks) < length
        invariant forall a: nat :: a in offsets ==> IsOffset(i, tasks, length, a)
        invariant forall j', k': nat :: 0 <= j' < j && 0 <= Offset(i, j', k', tasks) < length ==>
          Offset(i, j', k', tasks) in offsets
        invariant forall k': nat :: k' < k && 0 <= Offset(i, j, k', tasks) < length ==>
          Offset(i, j, k', tasks) in offsets
        decreases length - Offset(i, j, k, tasks)
      {
        var a := Offset(i, j, k, tasks);
        if a >= 0 {
          offsets := offsets + {a};
        }
        Distributes(k, 1, tasks[j].period);
        k := k + 1;
      }
      forall k': nat | 0 <= Offset(i, j, k', tasks) < length ensures Offset(i, j, k', tasks) in offsets {
        if k <= k' {
          OffsetRises(i, j, k, k', tasks);
        }
      }
    }
  }

  /** A response the analysis looks at. */
  ghost predicate IsResponse(i: nat, tasks: seq<Task>, costs: Costs, length: nat, a: nat, w: nat)
    requires i < |tasks| && Periodic(tasks)
  {
    IsOffset(i, tasks, length, a) && IsWindow(i, a, tasks, costs, w)
  }

  /** edf_response_time: the largest response, at least the WCET, when it is within the
      deadline. */
  method EdfResponseTime(i: nat, tasks: seq<Task>, costs: Costs) returns (bound: Option<nat>, ghost length: nat)
    requires i < |tasks| && Periodic(tasks)
    ensures Utilization(tasks, costs) >= 1.0 ==> bound.None?
    ensures Utilization(tasks, costs) < 1.0 ==> IsBusyPeriod(tasks, costs, length)
    ensures bound.Some? ==>
      && tasks[i].wcet <= bound.value <= tasks[i].deadline
      && (forall a: nat, w: nat :: IsResponse(i, tasks, costs, length, a, w) ==> w - a <= bound.value)
      && (bound.value == tasks[i].wcet ||
          exists a: nat, w: nat :: IsResponse(i, tasks, costs, length, a, w) && w - a == bound.value)
    ensures bound.None? && Utilization(tasks, costs) < 1.0 ==>
      || tasks[i].wcet > tasks[i].deadline
      || exists a: nat, w: nat :: IsResponse(i, tasks, costs, length, a, w) && w - a > tasks[i].deadline
  {
    length := 0;
    var period := BusyPeriod(tasks, costs);
    if period.None? {
      return None, 0;
    }
    length := period.value;
    var offsets := Offsets(i, tasks, period.value);
    var worst := tasks[i].wcet;
    var todo := offsets;
    while todo != {}
      invariant todo <= offsets && tasks[i].wcet <= worst
      invariant forall a: nat, w: nat :: IsResponse(i, tasks, costs, length, a, w) && a !in todo ==> w - a <= worst
      invariant worst == tasks[i].wcet ||
        exists a: nat, w: nat :: IsResponse(i, tasks, costs, length, a, w) && w - a == worst
      decreases |todo|
    {
      var a :| a in todo;
      WithinDemand(|tasks|, i, a, tasks, costs, length);
      assert tasks[..|tasks|] == tasks;
      var window := EdfWindow(i, a, tasks, costs, length);
      assert IsResponse(i, tasks, costs, length, a, window);
      if window - a > worst {
        worst := window - a;
      }
      todo := todo - {a};
    }
    bound := if worst <= tasks[i].deadline then Some(worst) else None;
  }
}
