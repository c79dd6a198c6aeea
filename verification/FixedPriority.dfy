/** Fixed-priority preemptive schedules, the kernel costing nothing, and the bound the
    response-time analysis gives on them. */
module FixedPriority {
  import opened Arith
  import opened Counting
  import opened ResponseTime

  datatype Slot = Idle | Run(task: nat)

  /** A release and the work its instance takes. */
  datatype Instance = Instance(release: nat, work: nat)

  const FREE := Costs(0, 0, 0)

  /** Releases at least a period apart, each instance within its WCET. */
  ghost predicate Sporadic(t: Task, q: seq<Instance>) {
    && (forall n :: 0 <= n < |q| ==> q[n].work <= t.wcet)
    && (forall n :: 1 <= n < |q| ==> q[n - 1].release + t.period <= q[n].release)
  }

  ghost predicate Releases(tasks: seq<Task>, jobs: seq<seq<Instance>>) {
    && Periodic(tasks) && |jobs| == |tasks|
    && forall i :: 0 <= i < |tasks| ==> Sporadic(tasks[i], jobs[i])
  }

  /** The work released before t. */
  function Arrived(q: seq<Instance>, t: nat): nat {
    if q == [] then 0
    else Arrived(q[..|q| - 1], t) + if q[|q| - 1].release < t then q[|q| - 1].work else 0
  }

  /** The work of all instances up to the last. */
  function Work(q: seq<Instance>): nat {
    if q == [] then 0 else Work(q[..|q| - 1]) + q[|q| - 1].work
  }

  function OfTask(j: nat): Slot -> bool { (s: Slot) => s == Run(j) }

  /** The ticks a task got before t. */
  function Served(run: seq<Slot>, j: nat, t: nat): nat
    requires t <= |run|
  {
    Ticks(run[..t], OfTask(j))
  }

  /** Whether a task has an instance unfinished at tick t. */
  predicate Pending(run: seq<Slot>, jobs: seq<seq<Instance>>, j: nat, t: nat)
    requires t <= |run| && j < |jobs|
  {
    Served(run, j, t) < Arrived(jobs[j], t + 1)
  }

  /** At tick t, a task runs that is pending, and none of higher priority is; the processor
      idles only when none is. */
  predicate Dispatched(tasks: seq<Task>, jobs: seq<seq<Instance>>, run: seq<Slot>, t: nat)
    requires t < |run| && |jobs| == |tasks|
  {
    match run[t]
    case Run(j) =>
      && j < |tasks| && Pending(run, jobs, j, t)
      && forall k :: 0 <= k < |tasks| && PriorityOver(k, j, tasks) ==> !Pending(run, jobs, k, t)
    case Idle => forall k :: 0 <= k < |tasks| ==> !Pending(run, jobs, k, t)
  }

  ghost predicate Schedule(tasks: seq<Task>, jobs: seq<seq<Instance>>, run: seq<Slot>) {
    Releases(tasks, jobs) && forall t :: 0 <= t < |run| ==> Dispatched(tasks, jobs, run, t)
  }

  // What arrives and what is served

  lemma {:induction false} ArrivedRises(q: seq<Instance>, t: nat, u: nat)
    requires t <= u
    ensures Arrived(q, t) <= Arrived(q, u)
  {
    if q != [] {
      ArrivedRises(q[..|q| - 1], t, u);
    }
  }

  lemma ServedStep(run: seq<Slot>, j: nat, t: nat)
    requires t < |run|
    ensures Served(run, j, t + 1) == Served(run, j, t) + if run[t] == Run(j) then 1 else 0
  {
    assert run[..t + 1][..t] == run[..t];
  }

  /** No task is served more than arrived. */
  lemma {:induction false} NeverAhead(tasks: seq<Task>, jobs: seq<seq<Instance>>, run: seq<Slot>, j: nat, t: nat)
    requires Schedule(tasks, jobs, run) && j < |tasks| && t <= |run|
    ensures Served(run, j, t) <= Arrived(jobs[j], t)
  {
    if t > 0 {
      NeverAhead(tasks, jobs, run, j, t - 1);
      ServedStep(run, j, t - 1);
      assert Dispatched(tasks, jobs, run, t - 1);
      ArrivedRises(jobs[j], t - 1, t);
    }
  }

  lemma {:induction false} Apart(t: Task, q: seq<Instance>, a: nat, b: nat)
    requires Sporadic(t, q) && a <= b < |q|
    ensures q[a].release <= q[b].release
  {
    if a < b {
      Apart(t, q, a, b - 1);
    }
  }

  /** In a window of any length, what arrives is at most a WCET for each period begun. */
  lemma {:induction false} ArrivedWindow(t: Task, q: seq<Instance>, a: nat, b: nat)
    requires Sporadic(t, q) && t.period > 0 && a <= b
    ensures Arrived(q, b) <= Arrived(q, a) + Times(Ceil(b - a, t.period), t.wcet)
  {
    if q != [] {
      var r, x := q[..|q| - 1], q[|q| - 1];
      if x.release < a || b <= x.release {
        ArrivedWindow(t, r, a, b);
      } else {
        // all others were released a period before x or earlier
        var c := if x.release + 1 <= a + t.period then a else x.release + 1 - t.period;
        BeforeLast(t, q, c, b);
        ArrivedWindow(t, r, a, c);
        OneMore(c - a, b - a, t.period, t.wcet);
      }
    }
  }

  lemma OneMore(d: nat, e: nat, p: nat, c: nat)
    requires 0 < p && (d == 0 || d + p <= e) && d < e
    ensures Times(Ceil(d, p), c) + c <= Times(Ceil(e, p), c)
  {
    CeilBounds(d, p);
    CeilBounds(e, p);
    Distributes(Ceil(d, p), 1, c);
    Distributes(Ceil(d, p) - 1, 1, p);
    if d == 0 {
      MulCancels(Ceil(0, p) - 1, 0, p);
      MulCancels(0, Ceil(e, p), p);
    } else {
      Distributes(Ceil(d, p) - 1, 1, p);
      MulCancels(Ceil(d, p), Ceil(e, p), p);
    }
    MulMonotone(Ceil(d, p) + 1, Ceil(e, p), c);
  }

  lemma {:induction false} BeforeLast(t: Task, q: seq<Instance>, c: nat, b: nat)
    requires Sporadic(t, q) && q != [] && c <= b && q[|q| - 1].release < c + t.period
    ensures Arrived(q[..|q| - 1], b) == Arrived(q[..|q| - 1], c)
  {
    var r := q[..|q| - 1];
    if r != [] {
      assert q[|q| - 2].release + t.period <= q[|q| - 1].release;
      forall n | 0 <= n < |r| ensures r[n].release < c {
        Apart(t, q, n, |q| - 2);
      }
      AllBefore(r, c, b);
    }
  }

  lemma {:induction false} AllBefore(q: seq<Instance>, c: nat, b: nat)
    requires c <= b && forall n :: 0 <= n < |q| ==> q[n].release < c
    ensures Arrived(q, b) == Arrived(q, c)
  {
    if q != [] {
      AllBefore(q[..|q| - 1], c, b);
    }
  }

  // The level-i busy interval before a release

  /** A slot of one of the first n tasks, of priority over task i. */
  function Above(tasks: seq<Task>, i: nat, n: nat): Slot -> bool
    requires n <= |tasks| && i < |tasks|
  {
    (s: Slot) => s.Run? && s.task < n && PriorityOver(s.task, i, tasks)
  }

  /** One of task i or of priority over it. */
  predicate AtLevel(tasks: seq<Task>, i: nat, s: Slot)
    requires i < |tasks|
  {
    s == Run(i) || Above(tasks, i, |tasks|)(s)
  }

  /** Of task i and those of priority over it, all that arrived before t is served. */
  ghost predicate Quiet(tasks: seq<Task>, jobs: seq<seq<Instance>>, run: seq<Slot>, i: nat, t: nat)
    requires t <= |run| && |jobs| == |tasks| && i < |tasks|
  {
    forall k :: 0 <= k < |tasks| && (k == i || PriorityOver(k, i, tasks)) ==> Served(run, k, t) == Arrived(jobs[k], t)
  }

  /** While one of them is pending, one of them runs. */
  lemma LevelRuns(tasks: seq<Task>, jobs: seq<seq<Instance>>, run: seq<Slot>, i: nat, k: nat, t: nat)
    requires Schedule(tasks, jobs, run) && i < |tasks| && k < |tasks| && t < |run|
    requires (k == i || PriorityOver(k, i, tasks)) && Pending(run, jobs, k, t)
    ensures AtLevel(tasks, i, run[t])
  {
    assert Dispatched(tasks, jobs, run, t);
  }

  /** Before t, back to a quiet time, only task i and those of priority over it run. */
  lemma {:induction false} LastQuiet(tasks: seq<Task>, jobs: seq<seq<Instance>>, run: seq<Slot>, i: nat, t: nat)
    returns (t0: nat)
    requires Schedule(tasks, jobs, run) && i < |tasks| && t <= |run|
    ensures t0 <= t && Quiet(tasks, jobs, run, i, t0)
    ensures forall u :: t0 <= u < t ==> AtLevel(tasks, i, run[u])
  {
    if t == 0 {
      forall k | 0 <= k < |tasks| ensures Served(run, k, 0) == Arrived(jobs[k], 0) {
        AllBeforeNone(jobs[k]);
      }
      t0 := 0;
    } else if Quiet(tasks, jobs, run, i, t) {
      t0 := t;
    } else {
      var k :| 0 <= k < |tasks| && (k == i || PriorityOver(k, i, tasks)) && Served(run, k, t) != Arrived(jobs[k], t);
      var u := t - 1;
      NeverAhead(tasks, jobs, run, k, t);
      ServedStep(run, k, u);
      LevelRuns(tasks, jobs, run, i, k, u);
      t0 := LastQuiet(tasks, jobs, run, i, u);
    }
  }

  lemma {:induction false} AllBeforeNone(q: seq<Instance>)
    ensures Arrived(q, 0) == 0
  {
    if q != [] {
      AllBeforeNone(q[..|q| - 1]);
    }
  }

  lemma ServedWindow(run: seq<Slot>, j: nat, a: nat, b: nat)
    requires a <= b <= |run|
    ensures Served(run, j, b) == Served(run, j, a) + Ticks(run[a..b], OfTask(j))
  {
    TicksSplit(run[..b], a, OfTask(j));
    assert run[..b][..a] == run[..a] && run[..b][a..] == run[a..b];
  }

  lemma AboveNext(tasks: seq<Task>, i: nat, k: nat, w: seq<Slot>)
    requires k < |tasks| && i < |tasks|
    ensures Ticks(w, Above(tasks, i, k + 1))
         == Ticks(w, Above(tasks, i, k)) + if PriorityOver(k, i, tasks) then Ticks(w, OfTask(k)) else 0
  {
    if PriorityOver(k, i, tasks) {
      TicksAdd(w, Above(tasks, i, k), OfTask(k), Above(tasks, i, k + 1));
    } else {
      TicksAdd(w, Above(tasks, i, k), (s: Slot) => false, Above(tasks, i, k + 1));
      TicksNone(w, (s: Slot) => false);
    }
  }

  lemma LoadNext(tasks: seq<Task>, i: nat, k: nat, r: nat)
    requires k < |tasks| && i < |tasks| && Periodic(tasks)
    ensures Load(k + 1, i, tasks, FREE, r)
         == Load(k, i, tasks, FREE, r)
            + if PriorityOver(k, i, tasks) then Times(Ceil(r, tasks[k].period), tasks[k].wcet) else 0
  {
  }

  /** From a time at which all that arrived of a task is served. */
  lemma OneTaskBound(tasks: seq<Task>, jobs: seq<seq<Instance>>, run: seq<Slot>, k: nat, t0: nat, r: nat)
    requires Schedule(tasks, jobs, run) && k < |tasks| && t0 + r <= |run|
    requires Served(run, k, t0) == Arrived(jobs[k], t0)
    ensures Ticks(run[t0..t0 + r], OfTask(k)) <= Times(Ceil(r, tasks[k].period), tasks[k].wcet)
  {
    ServedWindow(run, k, t0, t0 + r);
    NeverAhead(tasks, jobs, run, k, t0 + r);
    ArrivedWindow(tasks[k], jobs[k], t0, t0 + r);
  }

  /** From a quiet time on, the tasks of priority over i take no more than the analysis
      counts. */
  lemma {:induction false} AboveBound(tasks: seq<Task>, jobs: seq<seq<Instance>>, run: seq<Slot>, i: nat, n: nat,
                                      t0: nat, r: nat)
    requires Schedule(tasks, jobs, run) && i < |tasks| && n <= |tasks|
    requires t0 + r <= |run| && Quiet(tasks, jobs, run, i, t0)
    ensures Ticks(run[t0..t0 + r], Above(tasks, i, n)) <= Load(n, i, tasks, FREE, r)
  {
    if n == 0 {
      TicksNone(run[t0..t0 + r], Above(tasks, i, 0));
    } else {
      var k := n - 1;
      AboveBound(tasks, jobs, run, i, k, t0, r);
      AboveNext(tasks, i, k, run[t0..t0 + r]);
      LoadNext(tasks, i, k, r);
      if PriorityOver(k, i, tasks) {
        OneTaskBound(tasks, jobs, run, k, t0, r);
      }
    }
  }

  // Instances one after the other

  lemma {:induction false} ArrivedAtLeast(t: Task, q: seq<Instance>, n: nat, u: nat)
    requires Sporadic(t, q) && n < |q| && q[n].release < u
    ensures Arrived(q, u) >= Work(q[..n + 1])
  {
    var r := q[..|q| - 1];
    if n == |q| - 1 {
      assert q[..n + 1] == q;
      if n > 0 {
        ArrivedAtLeast(t, r, n - 1, u);
        assert r[..n - 1 + 1] == r;
      }
    } else {
      ArrivedAtLeast(t, r, n, u);
      assert r[..n + 1] == q[..n + 1];
    }
  }

  /** What arrived before a time is the work of the first instances, those released before. */
  lemma {:induction false} ArrivedFirst(t: Task, q: seq<Instance>, u: nat) returns (c: nat)
    requires Sporadic(t, q)
    ensures c <= |q| && Arrived(q, u) == Work(q[..c])
    ensures forall n :: 0 <= n < |q| ==> (n < c <==> q[n].release < u)
  {
    if q == [] {
      c := 0;
    } else if q[|q| - 1].release < u {
      c := |q|;
      forall n | 0 <= n < c ensures q[n].release < u {
        Apart(t, q, n, |q| - 1);
      }
      AllOfIt(q, u);
      assert q[..c] == q;
    } else {
      c := ArrivedFirst(t, q[..|q| - 1], u);
      assert q[..|q| - 1][..c] == q[..c];
    }
  }

  lemma {:induction false} AllOfIt(q: seq<Instance>, u: nat)
    requires forall n :: 0 <= n < |q| ==> q[n].release < u
    ensures Arrived(q, u) == Work(q)
  {
    if q != [] {
      AllOfIt(q[..|q| - 1], u);
    }
  }

  /** From instance m to n: releases a period apart, a WCET each at most. */
  lemma {:induction false} FromTo(t: Task, q: seq<Instance>, m: nat, n: nat)
    requires Sporadic(t, q) && m <= n < |q|
    ensures q[m].release + Times(n - m, t.period) <= q[n].release
    ensures Work(q[..n + 1]) <= Work(q[..m]) + Times(n + 1 - m, t.wcet)
  {
    assert q[..n + 1][..n] == q[..n];
    Distributes(n - m, 1, t.wcet);
    if m < n {
      FromTo(t, q, m, n - 1);
      Distributes(n - 1 - m, 1, t.period);
      assert q[n - 1].release + t.period <= q[n].release;
    }
  }

  // The bound

  /** A window that holds k + 1 instances of i, released as often as they can be, and all the
      tasks of priority over i ask for in it. */
  predicate WindowFits(i: nat, tasks: seq<Task>, k: nat, t: nat)
    requires i < |tasks| && Periodic(tasks)
  {
    Times(k + 1, tasks[i].wcet) + Load(|tasks|, i, tasks, FREE, t) <= t
  }

  /** Such a window ends within r of the release of the last of them. */
  ghost predicate FitsFor(i: nat, tasks: seq<Task>, k: nat, r: nat)
    requires i < |tasks| && Periodic(tasks)
  {
    exists t: nat :: t <= Times(k, tasks[i].period) + r && WindowFits(i, tasks, k, t)
  }

  /** However many instances of i come one after the other. */
  ghost predicate Fits(i: nat, tasks: seq<Task>, r: nat)
    requires i < |tasks| && Periodic(tasks)
  {
    forall k: nat :: FitsFor(i, tasks, k, r)
  }

  /** Instance n of task i is served within r of its release, or the schedule ends before. */
  predicate InTime(jobs: seq<seq<Instance>>, run: seq<Slot>, i: nat, n: nat, r: nat) {
    i < |jobs| && n < |jobs[i]| && jobs[i][n].release + r <= |run| ==>
      Served(run, i, jobs[i][n].release + r) >= Work(jobs[i][..n + 1])
  }

  /** r bounds every response of task i. */
  ghost predicate Bounds(i: nat, tasks: seq<Task>, r: nat) {
    forall jobs, run, n: nat :: Schedule(tasks, jobs, run) ==> InTime(jobs, run, i, n, r)
  }

  /** While an instance of i is unfinished, i runs or a task of priority over it does. */
  lemma BusyUntilDone(tasks: seq<Task>, jobs: seq<seq<Instance>>, run: seq<Slot>, i: nat, n: nat, u: nat, end: nat)
    requires Schedule(tasks, jobs, run) && i < |tasks| && n < |jobs[i]|
    requires jobs[i][n].release <= u < end <= |run| && Served(run, i, end) < Work(jobs[i][..n + 1])
    ensures AtLevel(tasks, i, run[u])
  {
    ServedWindow(run, i, u, end);
    ArrivedAtLeast(tasks[i], jobs[i], n, u + 1);
    LevelRuns(tasks, jobs, run, i, i, u);
  }

  /** A window from a quiet time with nothing but task i and those of priority over it, less
      than `own` of them of i, is shorter than what it counts. */
  lemma WindowFull(tasks: seq<Task>, jobs: seq<seq<Instance>>, run: seq<Slot>, i: nat, t0: nat, t: nat, own: nat)
    requires Schedule(tasks, jobs, run) && i < |tasks| && t0 + t <= |run| && Quiet(tasks, jobs, run, i, t0)
    requires forall u :: t0 <= u < t0 + t ==> AtLevel(tasks, i, run[u])
    requires Ticks(run[t0..t0 + t], OfTask(i)) < own
    ensures t < own + Load(|tasks|, i, tasks, FREE, t)
  {
    var w := run[t0..t0 + t];
    var all := (s: Slot) => true;
    TicksAll(w, all);
    TicksAdd(w, Above(tasks, i, |tasks|), OfTask(i), all);
    AboveBound(tasks, jobs, run, i, |tasks|, t0, t);
  }

  /** In the window from t0 the instances of i up to an unfinished one got less than their
      WCETs. */
  lemma FewOwnTicks(tasks: seq<Task>, jobs: seq<seq<Instance>>, run: seq<Slot>, i: nat, n: nat, c: nat, t0: nat,
                    t: nat, end: nat)
    requires Releases(tasks, jobs) && i < |tasks| && c <= n < |jobs[i]| && t0 + t <= end <= |run|
    requires Served(run, i, t0) == Work(jobs[i][..c]) && Served(run, i, end) < Work(jobs[i][..n + 1])
    ensures Ticks(run[t0..t0 + t], OfTask(i)) < Times(n + 1 - c, tasks[i].wcet)
  {
    FromTo(tasks[i], jobs[i], c, n);
    ServedWindow(run, i, t0, t0 + t);
    ServedWindow(run, i, t0 + t, end);
  }

  /** When the windows fit, r bounds every response. */
  lemma FitsBounds(tasks: seq<Task>, jobs: seq<seq<Instance>>, run: seq<Slot>, i: nat, n: nat, r: nat)
    requires Schedule(tasks, jobs, run) && i < |tasks| && n < |jobs[i]| && Fits(i, tasks, r)
    requires jobs[i][n].release + r <= |run|
    ensures Served(run, i, jobs[i][n].release + r) >= Work(jobs[i][..n + 1])
  {
    var release := jobs[i][n].release;
    var t0 := LastQuiet(tasks, jobs, run, i, release);
    var c := ArrivedFirst(tasks[i], jobs[i], t0);
    FromTo(tasks[i], jobs[i], c, n);
    assert FitsFor(i, tasks, n - c, r);
    var t: nat :| t <= Times(n - c, tasks[i].period) + r && WindowFits(i, tasks, n - c, t);
    if Served(run, i, release + r) < Work(jobs[i][..n + 1]) {
      forall u | t0 <= u < t0 + t ensures AtLevel(tasks, i, run[u]) {
        if release <= u {
          BusyUntilDone(tasks, jobs, run, i, n, u, release + r);
        }
      }
      FewOwnTicks(tasks, jobs, run, i, n, c, t0, t, release + r);
      WindowFull(tasks, jobs, run, i, t0, t, Times(n + 1 - c, tasks[i].wcet));
    }
  }

  // A response no longer than the period

  lemma CeilAdds(a: nat, b: nat, p: nat)
    requires 0 < p
    ensures Ceil(a + b, p) <= Ceil(a, p) + Ceil(b, p)
  {
    CeilBounds(a, p);
    CeilBounds(b, p);
    CeilBounds(a + b, p);
    Distributes(Ceil(a, p), Ceil(b, p), p);
    MulCancels(Ceil(a + b, p) - 1, Ceil(a, p) + Ceil(b, p), p);
  }

  /** Two windows ask for no less than one as long as both. */
  lemma {:induction false} LoadAdds(n: nat, i: nat, tasks: seq<Task>, a: nat, b: nat)
    requires n <= |tasks| && i < |tasks| && Periodic(tasks)
    ensures Load(n, i, tasks, FREE, a + b) <= Load(n, i, tasks, FREE, a) + Load(n, i, tasks, FREE, b)
  {
    if n > 0 {
      var k := n - 1;
      LoadAdds(k, i, tasks, a, b);
      LoadNext(tasks, i, k, a);
      LoadNext(tasks, i, k, b);
      LoadNext(tasks, i, k, a + b);
      var x, y := Ceil(a, tasks[k].period), Ceil(b, tasks[k].period);
      CeilAdds(a, b, tasks[k].period);
      TimesRises(Ceil(a + b, tasks[k].period), x + y, tasks[k].wcet);
      Distributes(x, y, tasks[k].wcet);
    }
  }

  lemma {:induction false} LoadMultiple(k: nat, i: nat, tasks: seq<Task>, r: nat)
    requires i < |tasks| && Periodic(tasks) && WindowFits(i, tasks, 0, r)
    ensures WindowFits(i, tasks, k, Times(k + 1, r))
  {
    if k > 0 {
      LoadMultiple(k - 1, i, tasks, r);
      LoadAdds(|tasks|, i, tasks, Times(k, r), r);
      Distributes(k, 1, r);
      Distributes(k, 1, tasks[i].wcet);
    }
  }

  /** What the analysis gives, no longer than the period, fits. */
  lemma EnoughFits(i: nat, tasks: seq<Task>, r: nat)
    requires i < |tasks| && Periodic(tasks) && Enough(i, tasks, FREE, r) && r <= tasks[i].period
    ensures Fits(i, tasks, r)
  {
    forall k: nat ensures FitsFor(i, tasks, k, r) {
      LoadMultiple(k, i, tasks, r);
      Distributes(k, 1, r);
      MulMonotone(r, tasks[i].period, k);
      assert r * k == k * r && tasks[i].period * k == k * tasks[i].period;
    }
  }

  /** So it bounds every response: an instance is served within it of its release, whatever the
      releases and the work of the others. */
  lemma ResponseBounded(tasks: seq<Task>, jobs: seq<seq<Instance>>, run: seq<Slot>, i: nat, n: nat, r: nat)
    requires Schedule(tasks, jobs, run) && i < |tasks| && n < |jobs[i]|
    requires Enough(i, tasks, FREE, r) && r <= tasks[i].period
    requires jobs[i][n].release + r <= |run|
    ensures Served(run, i, jobs[i][n].release + r) >= Work(jobs[i][..n + 1])
  {
    EnoughFits(i, tasks, r);
    FitsBounds(tasks, jobs, run, i, n, r);
  }
}
