/** Earliest-deadline-first schedules, the kernel costing nothing, and the bound Spuri's analysis
    gives on them (M. Spuri, INRIA RR-2772, 1996). */
module EdfSchedule {
  import opened Arith
  import opened Counting
  import opened ResponseTime
  import opened FixedPriority
  import EdfResponse

  /** Instance n of task j is the one to run of its task at tick t: those before are done, and
      it is released and not done. */
  predicate InService(jobs: seq<seq<Instance>>, run: seq<Slot>, j: nat, n: nat, t: nat)
    requires t <= |run|
  {
    && j < |jobs| && n < |jobs[j]| && jobs[j][n].release <= t
    && Work(jobs[j][..n]) <= Served(run, j, t) < Work(jobs[j][..n + 1])
  }

  function Due(tasks: seq<Task>, jobs: seq<seq<Instance>>, j: nat, n: nat): int
    requires j < |tasks| == |jobs| && n < |jobs[j]|
  {
    jobs[j][n].release + tasks[j].deadline
  }

  /** Tick t goes to a task whose instance has the earliest deadline; ties are free. */
  ghost predicate Earliest(tasks: seq<Task>, jobs: seq<seq<Instance>>, run: seq<Slot>, t: nat)
    requires t < |run| && |jobs| == |tasks|
  {
    match run[t]
    case Run(j) =>
      exists n :: InService(jobs, run, j, n, t) &&
        forall k, m :: InService(jobs, run, k, m, t) ==> Due(tasks, jobs, j, n) <= Due(tasks, jobs, k, m)
    case Idle => forall k, m :: !InService(jobs, run, k, m, t)
  }

  ghost predicate Schedule(tasks: seq<Task>, jobs: seq<seq<Instance>>, run: seq<Slot>) {
    Releases(tasks, jobs) && forall t :: 0 <= t < |run| ==> Earliest(tasks, jobs, run, t)
  }

  // The instances due by a time

  /** Those of a task released by `last`. */
  function Early(q: seq<Instance>, last: int): (r: seq<Instance>)
    ensures |r| <= |q| && r == q[..|r|]
  {
    if q == [] || q[|q| - 1].release <= last then q else Early(q[..|q| - 1], last)
  }

  lemma {:induction false} EarlyAre(t: Task, q: seq<Instance>, last: int)
    requires Sporadic(t, q)
    ensures Sporadic(t, Early(q, last))
    ensures forall n :: 0 <= n < |q| ==> (n < |Early(q, last)| <==> q[n].release <= last)
  {
    if q != [] && q[|q| - 1].release > last {
      var rest := q[..|q| - 1];
      EarlyAre(t, rest, last);
    } else if q != [] {
      forall n | 0 <= n < |q| ensures q[n].release <= last {
        Apart(t, q, n, |q| - 1);
      }
    }
  }

  lemma {:induction false} WorkRises(q: seq<Instance>, a: nat, b: nat)
    requires a <= b <= |q|
    ensures Work(q[..a]) <= Work(q[..b])
  {
    if a < b {
      WorkRises(q, a, b - 1);
      assert q[..b][..b - 1] == q[..b - 1];
    }
  }

  /** Of the first c instances, the one that is not done. */
  lemma {:induction false} FirstUndone(q: seq<Instance>, c: nat, served: nat) returns (n: nat)
    requires c <= |q| && served < Work(q[..c])
    ensures n < c && Work(q[..n]) <= served < Work(q[..n + 1])
  {
    if served < Work(q[..c - 1]) {
      n := FirstUndone(q, c - 1, served);
    } else {
      n := c - 1;
    }
  }

  /** What is served of a task was released. */
  lemma {:induction false} NeverAheadEdf(tasks: seq<Task>, jobs: seq<seq<Instance>>, run: seq<Slot>, j: nat, t: nat)
    requires Schedule(tasks, jobs, run) && j < |tasks| && t <= |run|
    ensures Served(run, j, t) <= Arrived(jobs[j], t)
  {
    if t > 0 {
      NeverAheadEdf(tasks, jobs, run, j, t - 1);
      ServedStep(run, j, t - 1);
      ArrivedRises(jobs[j], t - 1, t);
      assert Earliest(tasks, jobs, run, t - 1);
      if run[t - 1] == Run(j) {
        var n :| InService(jobs, run, j, n, t - 1);
        ArrivedAtLeast(tasks[j], jobs[j], n, t);
      }
    }
  }

  // The time busy with instances due by d

  /** The instances of task j due by d. */
  function DueBy(tasks: seq<Task>, jobs: seq<seq<Instance>>, j: nat, d: int): seq<Instance>
    requires j < |tasks| == |jobs|
  {
    Early(jobs[j], d - tasks[j].deadline)
  }

  /** All of them that arrived before t are served. */
  ghost predicate QuietBy(tasks: seq<Task>, jobs: seq<seq<Instance>>, run: seq<Slot>, d: int, t: nat)
    requires t <= |run| && |jobs| == |tasks|
  {
    forall j :: 0 <= j < |tasks| ==> Served(run, j, t) >= Arrived(DueBy(tasks, jobs, j, d), t)
  }

  /** Tick t goes to one of them. */
  ghost predicate RunsBy(tasks: seq<Task>, jobs: seq<seq<Instance>>, run: seq<Slot>, d: int, t: nat)
    requires t < |run| && |jobs| == |tasks|
  {
    && run[t].Run? && run[t].task < |tasks|
    && exists n :: InService(jobs, run, run[t].task, n, t) && Due(tasks, jobs, run[t].task, n) <= d
  }

  /** While one of them is in service, only they run. */
  lemma OnlyDue(tasks: seq<Task>, jobs: seq<seq<Instance>>, run: seq<Slot>, d: int, k: nat, m: nat, t: nat)
    requires Schedule(tasks, jobs, run) && t < |run| && k < |tasks|
    requires InService(jobs, run, k, m, t) && Due(tasks, jobs, k, m) <= d
    ensures RunsBy(tasks, jobs, run, d, t)
  {
    assert Earliest(tasks, jobs, run, t);
  }

  /** Of a task with an arrived instance due by d not done, one such is in service. */
  lemma SomeInService(t: Task, q: seq<Instance>, last: int, served: nat, u: nat) returns (m: nat)
    requires Sporadic(t, q) && served < Arrived(Early(q, last), u + 1)
    ensures m < |q| && q[m].release <= last && q[m].release <= u && Work(q[..m]) <= served < Work(q[..m + 1])
  {
    EarlyAre(t, q, last);
    var e := Early(q, last);
    var c := ArrivedFirst(t, e, u + 1);
    assert e[..c] == q[..c];
    m := FirstUndone(q, c, served);
    assert e[m] == q[m];
  }

  lemma Busy(tasks: seq<Task>, jobs: seq<seq<Instance>>, run: seq<Slot>, d: int, t: nat)
    requires Schedule(tasks, jobs, run) && t < |run| && !QuietBy(tasks, jobs, run, d, t + 1)
    ensures RunsBy(tasks, jobs, run, d, t)
  {
    var k :| 0 <= k < |tasks| && Served(run, k, t + 1) < Arrived(DueBy(tasks, jobs, k, d), t + 1);
    ServedStep(run, k, t);
    var m := SomeInService(tasks[k], jobs[k], d - tasks[k].deadline, Served(run, k, t), t);
    OnlyDue(tasks, jobs, run, d, k, m, t);
  }

  /** Before t, back to the last quiet time, only instances due by d run. */
  lemma {:induction false} LastQuietBy(tasks: seq<Task>, jobs: seq<seq<Instance>>, run: seq<Slot>, d: int, t: nat)
    returns (t0: nat)
    requires Schedule(tasks, jobs, run) && t <= |run|
    ensures t0 <= t && QuietBy(tasks, jobs, run, d, t0)
    ensures forall u :: t0 <= u < t ==> RunsBy(tasks, jobs, run, d, u)
    ensures forall u :: t0 < u <= t ==> !QuietBy(tasks, jobs, run, d, u)
  {
    if t == 0 {
      forall j | 0 <= j < |tasks| ensures Served(run, j, 0) >= Arrived(DueBy(tasks, jobs, j, d), 0) {
        AllBeforeNone(DueBy(tasks, jobs, j, d));
      }
      t0 := 0;
    } else if QuietBy(tasks, jobs, run, d, t) {
      t0 := t;
    } else {
      Busy(tasks, jobs, run, d, t - 1);
      t0 := LastQuietBy(tasks, jobs, run, d, t - 1);
    }
  }

  lemma EarlyArrived(t: Task, q: seq<Instance>, last: int, n: nat, u: nat)
    requires Sporadic(t, q) && n < |q| && q[n].release <= last && q[n].release <= u
    ensures Arrived(Early(q, last), u + 1) >= Work(q[..n + 1])
  {
    EarlyAre(t, q, last);
    var e := Early(q, last);
    ArrivedAtLeast(t, e, n, u + 1);
    assert e[..n + 1] == q[..n + 1];
  }

  /** A tick that goes to an instance due by d is of work arrived due by d. */
  lemma RunDue(tasks: seq<Task>, jobs: seq<seq<Instance>>, run: seq<Slot>, d: int, u: nat)
    requires Releases(tasks, jobs) && u < |run| && RunsBy(tasks, jobs, run, d, u)
    ensures var j := run[u].task; Served(run, j, u) < Arrived(DueBy(tasks, jobs, j, d), u + 1)
  {
    var j := run[u].task;
    var n :| InService(jobs, run, j, n, u) && Due(tasks, jobs, j, n) <= d;
    EarlyArrived(tasks[j], jobs[j], d - tasks[j].deadline, n, u);
  }

  /** Of a task, no more is served in a busy time than arrived due by d. */
  lemma {:induction false} ServedDue(tasks: seq<Task>, jobs: seq<seq<Instance>>, run: seq<Slot>, d: int, j: nat,
                                     t0: nat, t: nat)
    requires Releases(tasks, jobs) && j < |tasks| && t0 <= t <= |run|
    requires forall u :: t0 <= u < t ==> RunsBy(tasks, jobs, run, d, u)
    ensures var e := DueBy(tasks, jobs, j, d);
      Served(run, j, t) <= Served(run, j, t0) || Served(run, j, t) <= Arrived(e, t)
  {
    if t0 < t {
      var u := t - 1;
      ServedDue(tasks, jobs, run, d, j, t0, u);
      ServedStep(run, j, u);
      ArrivedRises(DueBy(tasks, jobs, j, d), u, t);
      RunDue(tasks, jobs, run, d, u);
    }
  }

  /** The ticks of a task in a busy window from a quiet time. */
  lemma TicksDue(tasks: seq<Task>, jobs: seq<seq<Instance>>, run: seq<Slot>, d: int, j: nat, t0: nat, t: nat)
    requires Schedule(tasks, jobs, run) && j < |tasks| && t0 <= t <= |run| && QuietBy(tasks, jobs, run, d, t0)
    requires forall u :: t0 <= u < t ==> RunsBy(tasks, jobs, run, d, u)
    ensures var e := DueBy(tasks, jobs, j, d);
      && Arrived(e, t0) <= Arrived(e, t)
      && Ticks(run[t0..t], OfTask(j)) <= Arrived(e, t) - Arrived(e, t0)
      && (Served(run, j, t) < Arrived(e, t) ==> Ticks(run[t0..t], OfTask(j)) < Arrived(e, t) - Arrived(e, t0))
  {
    ServedDue(tasks, jobs, run, d, j, t0, t);
    ServedWindow(run, j, t0, t);
    ArrivedRises(DueBy(tasks, jobs, j, d), t0, t);
  }

  /** A slot of one of the first n tasks. */
  function FirstTasks(n: nat): Slot -> bool { (s: Slot) => s.Run? && s.task < n }

  /** All the ticks of a busy window are some task's. */
  lemma AllTicks(tasks: seq<Task>, jobs: seq<seq<Instance>>, run: seq<Slot>, d: int, t0: nat, t: nat)
    requires |jobs| == |tasks| && t0 <= t <= |run| && forall u :: t0 <= u < t ==> RunsBy(tasks, jobs, run, d, u)
    ensures Ticks(run[t0..t], FirstTasks(|tasks|)) == t - t0
  {
    forall s | s in run[t0..t] ensures FirstTasks(|tasks|)(s) {
      var u :| t0 <= u < t && run[u] == s;
      assert RunsBy(tasks, jobs, run, d, u);
    }
    TicksAll(run[t0..t], FirstTasks(|tasks|));
  }

  lemma OneTaskMore(w: seq<Slot>, n: nat)
    ensures Ticks(w, FirstTasks(n + 1)) == Ticks(w, FirstTasks(n)) + Ticks(w, OfTask(n))
  {
    TicksAdd(w, FirstTasks(n), OfTask(n), FirstTasks(n + 1));
  }

  // A busy time from a quiet one is shorter than the busy period

  lemma DueArrives(t: Task, q: seq<Instance>, last: int, t0: nat, l: nat)
    requires Sporadic(t, q) && t.period > 0
    ensures Arrived(Early(q, last), t0 + l) <= Arrived(Early(q, last), t0) + Times(Ceil(l, t.period), t.wcet)
  {
    EarlyAre(t, q, last);
    ArrivedWindow(t, Early(q, last), t0, t0 + l);
  }

  lemma TaskTicks(tasks: seq<Task>, jobs: seq<seq<Instance>>, run: seq<Slot>, d: int, j: nat, t0: nat, l: nat)
    requires Schedule(tasks, jobs, run) && j < |tasks| && t0 + l <= |run| && QuietBy(tasks, jobs, run, d, t0)
    requires forall u :: t0 <= u < t0 + l ==> RunsBy(tasks, jobs, run, d, u)
    ensures Ticks(run[t0..t0 + l], OfTask(j))
            + (if Served(run, j, t0 + l) < Arrived(DueBy(tasks, jobs, j, d), t0 + l) then 1 else 0)
         <= Times(Ceil(l, tasks[j].period), tasks[j].wcet)
  {
    TicksDue(tasks, jobs, run, d, j, t0, t0 + l);
    DueArrives(tasks[j], jobs[j], d - tasks[j].deadline, t0, l);
  }

  lemma DemandNext(tasks: seq<Task>, j: nat, l: nat)
    requires Periodic(tasks) && j < |tasks|
    ensures EdfResponse.Demand(tasks[..j + 1], FREE, l)
         == EdfResponse.Demand(tasks[..j], FREE, l) + Times(Ceil(l, tasks[j].period), tasks[j].wcet)
  {
    assert tasks[..j + 1][..j] == tasks[..j] && tasks[..j + 1][j] == tasks[j];
  }

  /** In a window of the busy period's length, the first n tasks take no more than the demand,
      and less when one of them is left with something. */
  lemma {:induction false} DemandTicks(tasks: seq<Task>, jobs: seq<seq<Instance>>, run: seq<Slot>, d: int, n: nat,
                                       t0: nat, l: nat, k: nat)
    requires Schedule(tasks, jobs, run) && n <= |tasks| && t0 + l <= |run| && QuietBy(tasks, jobs, run, d, t0)
    requires forall u :: t0 <= u < t0 + l ==> RunsBy(tasks, jobs, run, d, u)
    requires k < |tasks| && Served(run, k, t0 + l) < Arrived(DueBy(tasks, jobs, k, d), t0 + l)
    ensures Ticks(run[t0..t0 + l], FirstTasks(n)) + (if k < n then 1 else 0) <= EdfResponse.Demand(tasks[..n], FREE, l)
  {
    var w := run[t0..t0 + l];
    if n == 0 {
      TicksNone(w, FirstTasks(0));
    } else {
      var j := n - 1;
      DemandTicks(tasks, jobs, run, d, j, t0, l, k);
      OneTaskMore(w, j);
      TaskTicks(tasks, jobs, run, d, j, t0, l);
      DemandNext(tasks, j, l);
    }
  }

  /** After a busy period's length of it, everything due by d that arrived is served. */
  lemma QuietAfter(tasks: seq<Task>, jobs: seq<seq<Instance>>, run: seq<Slot>, d: int, t0: nat, l: nat)
    requires Schedule(tasks, jobs, run) && t0 + l <= |run| && QuietBy(tasks, jobs, run, d, t0)
    requires forall u :: t0 <= u < t0 + l ==> RunsBy(tasks, jobs, run, d, u)
    requires EdfResponse.Demand(tasks, FREE, l) == l
    ensures QuietBy(tasks, jobs, run, d, t0 + l)
  {
    AllTicks(tasks, jobs, run, d, t0, t0 + l);
    assert tasks[..|tasks|] == tasks;
    forall k: nat | k < |tasks| ensures Served(run, k, t0 + l) >= Arrived(DueBy(tasks, jobs, k, d), t0 + l) {
      if Served(run, k, t0 + l) < Arrived(DueBy(tasks, jobs, k, d), t0 + l) {
        DemandTicks(tasks, jobs, run, d, |tasks|, t0, l, k);
      }
    }
  }

  // The windows of the analysis

  lemma CeilNext(s: nat, p: nat)
    requires 0 < p
    ensures Ceil(s + 1, p) == 1 + s / p
  {
    var q, r := s / p, s % p;
    assert s == q * p + r;
    Distributes(q, 1, p);
    DivModUnique(s + p, p, q + 1, r);
  }

  /** What arrives of a task due by d in a window: a WCET for each period begun, in it or up to
      the last release due. */
  lemma DueWindow(t: Task, q: seq<Instance>, last: int, t0: nat, w: nat)
    requires Sporadic(t, q) && t.period > 0
    ensures var e := Early(q, last);
      Arrived(e, t0 + w) - Arrived(e, t0)
      <= if last < t0 then 0 else Times(EdfResponse.Least(Ceil(w, t.period), 1 + (last - t0) / t.period), t.wcet)
  {
    EarlyAre(t, q, last);
    if last < t0 {
      AllBefore(Early(q, last), t0, t0 + w);
    } else {
      DueWithin(t, Early(q, last), last, t0, w);
    }
  }

  lemma DueWithin(t: Task, e: seq<Instance>, last: int, t0: nat, w: nat)
    requires Sporadic(t, e) && t.period > 0 && t0 <= last && forall n :: 0 <= n < |e| ==> e[n].release <= last
    ensures Arrived(e, t0 + w) - Arrived(e, t0)
         <= Times(EdfResponse.Least(Ceil(w, t.period), 1 + (last - t0) / t.period), t.wcet)
  {
    var upTo := last - t0;
    CeilNext(upTo, t.period);
    if upTo + 1 < w {
      AllBefore(e, last + 1, t0 + w);
      ArrivedWindow(t, e, t0, last + 1);
      CeilRises(upTo + 1, w, t.period);
    } else {
      ArrivedWindow(t, e, t0, t0 + w);
      CeilRises(w, upTo + 1, t.period);
    }
  }

  lemma OtherTicks(tasks: seq<Task>, jobs: seq<seq<Instance>>, run: seq<Slot>, d: int, j: nat, t0: nat, w: nat)
    requires Schedule(tasks, jobs, run) && j < |tasks| && t0 + w <= |run| && QuietBy(tasks, jobs, run, d, t0)
    requires forall u :: t0 <= u < t0 + w ==> RunsBy(tasks, jobs, run, d, u)
    ensures var p, slack := tasks[j].period, d - tasks[j].deadline - t0;
      Ticks(run[t0..t0 + w], OfTask(j))
      <= if slack < 0 then 0 else Times(EdfResponse.Least(Ceil(w, p), 1 + slack / p), tasks[j].wcet)
  {
    TicksDue(tasks, jobs, run, d, j, t0, t0 + w);
    DueWindow(tasks[j], jobs[j], d - tasks[j].deadline, t0, w);
  }

  /** In the window from a quiet time t0, a = release - t0 before the release of an instance of
      i due by d, the first n tasks take no more than the analysis counts. */
  lemma {:induction false} OthersTicks(tasks: seq<Task>, jobs: seq<seq<Instance>>, run: seq<Slot>, i: nat, n: nat,
                                       t0: nat, a: nat, w: nat)
    requires Schedule(tasks, jobs, run) && i < |tasks| && n <= |tasks| && t0 + w <= |run|
    requires var d := t0 + a + tasks[i].deadline;
      QuietBy(tasks, jobs, run, d, t0) && forall u :: t0 <= u < t0 + w ==> RunsBy(tasks, jobs, run, d, u)
    ensures Ticks(run[t0..t0 + w], FirstTasks(n))
         <= EdfResponse.Others(n, i, a, tasks, FREE, w) + if i < n then Ticks(run[t0..t0 + w], OfTask(i)) else 0
  {
    if n == 0 {
      TicksNone(run[t0..t0 + w], FirstTasks(0));
    } else {
      var j, d := n - 1, t0 + a + tasks[i].deadline;
      OthersTicks(tasks, jobs, run, i, j, t0, a, w);
      OneTaskMore(run[t0..t0 + w], j);
      if j != i {
        OtherTicks(tasks, jobs, run, d, j, t0, w);
      }
    }
  }

  /** The instances of i up to one released `a` after t0. */
  lemma OwnTicks(tasks: seq<Task>, jobs: seq<seq<Instance>>, run: seq<Slot>, i: nat, n: nat, t0: nat, w: nat)
    requires Releases(tasks, jobs) && i < |tasks| && n < |jobs[i]| && t0 + w <= |run|
    requires t0 <= jobs[i][n].release
    requires var d := jobs[i][n].release + tasks[i].deadline;
      Served(run, i, t0) >= Arrived(DueBy(tasks, jobs, i, d), t0)
    requires Served(run, i, t0 + w) < Work(jobs[i][..n + 1])
    ensures Ticks(run[t0..t0 + w], OfTask(i)) < EdfResponse.OwnWork(i, jobs[i][n].release - t0, tasks)
  {
    var q, release := jobs[i], jobs[i][n].release;
    var e := Early(q, release);
    EarlyAre(tasks[i], q, release);
    ArrivedAtLeast(tasks[i], e, n, release + 1);
    assert e[..n + 1] == q[..n + 1];
    ArrivedWindow(tasks[i], e, t0, release + 1);
    CeilNext(release - t0, tasks[i].period);
    ServedWindow(run, i, t0, t0 + w);
  }

  /** A window that covers what it asks for, from the last quiet time, is long enough for the
      instance. */
  lemma WindowEnds(tasks: seq<Task>, jobs: seq<seq<Instance>>, run: seq<Slot>, i: nat, n: nat, t0: nat, w: nat)
    requires Schedule(tasks, jobs, run) && i < |tasks| && n < |jobs[i]| && t0 + w <= |run|
    requires t0 <= jobs[i][n].release
    requires var d := jobs[i][n].release + tasks[i].deadline;
      QuietBy(tasks, jobs, run, d, t0) && forall u :: t0 <= u < t0 + w ==> RunsBy(tasks, jobs, run, d, u)
    requires EdfResponse.Asked(i, jobs[i][n].release - t0, tasks, FREE, w) <= w
    ensures Served(run, i, t0 + w) >= Work(jobs[i][..n + 1])
  {
    var a, d := jobs[i][n].release - t0, jobs[i][n].release + tasks[i].deadline;
    AllTicks(tasks, jobs, run, d, t0, t0 + w);
    OthersTicks(tasks, jobs, run, i, |tasks|, t0, a, w);
    if Served(run, i, t0 + w) < Work(jobs[i][..n + 1]) {
      OwnTicks(tasks, jobs, run, i, n, t0, w);
    }
  }

  // The offsets

  /** The last offset looked at up to a. */
  lemma {:induction false} LastOffset(i: nat, tasks: seq<Task>, length: nat, a: nat) returns (b: nat)
    requires i < |tasks| && a < length
    ensures b <= a && EdfResponse.IsOffset(i, tasks, length, b)
    ensures forall c: nat :: b < c <= a ==> !EdfResponse.IsOffset(i, tasks, length, c)
  {
    assert EdfResponse.Offset(i, i, 0, tasks) == 0;
    if EdfResponse.IsOffset(i, tasks, length, a) {
      b := a;
    } else {
      b := LastOffset(i, tasks, length, a - 1);
    }
  }

  /** Between two offsets the count of each task's instances due stays. */
  lemma SameCount(i: nat, j: nat, tasks: seq<Task>, length: nat, a: nat, b: nat)
    requires Periodic(tasks) && i < |tasks| && j < |tasks| && b <= a < length
    requires forall c: nat :: b < c <= a ==> !EdfResponse.IsOffset(i, tasks, length, c)
    ensures var slack, slack' := a + tasks[i].deadline - tasks[j].deadline, b + tasks[i].deadline - tasks[j].deadline;
      (slack >= 0 <==> slack' >= 0) && (slack >= 0 ==> slack / tasks[j].period == slack' / tasks[j].period)
  {
    var p := tasks[j].period;
    var slack, slack' := a + tasks[i].deadline - tasks[j].deadline, b + tasks[i].deadline - tasks[j].deadline;
    if slack >= 0 {
      var k := slack / p;
      assert slack == k * p + slack % p;
      MulMonotone(0, k, p);
      var o := EdfResponse.Offset(i, j, k, tasks);
      assert o == k * p + tasks[j].deadline - tasks[i].deadline;
      if o >= 0 {
        assert EdfResponse.IsOffset(i, tasks, length, o);
      }
      DivModUnique(slack', p, k, slack' - k * p);
    }
  }

  lemma {:induction false} SameOthers(n: nat, i: nat, tasks: seq<Task>, costs: Costs, length: nat, a: nat, b: nat,
                                      w: nat)
    requires Periodic(tasks) && i < |tasks| && n <= |tasks| && b <= a < length
    requires forall c: nat :: b < c <= a ==> !EdfResponse.IsOffset(i, tasks, length, c)
    ensures EdfResponse.Others(n, i, a, tasks, costs, w) == EdfResponse.Others(n, i, b, tasks, costs, w)
  {
    if n > 0 {
      SameOthers(n - 1, i, tasks, costs, length, a, b, w);
      SameCount(i, n - 1, tasks, length, a, b);
    }
  }

  lemma SameAsked(i: nat, tasks: seq<Task>, costs: Costs, length: nat, a: nat, b: nat, w: nat)
    requires Periodic(tasks) && i < |tasks| && b <= a < length
    requires forall c: nat :: b < c <= a ==> !EdfResponse.IsOffset(i, tasks, length, c)
    ensures EdfResponse.Asked(i, a, tasks, costs, w) == EdfResponse.Asked(i, b, tasks, costs, w)
  {
    SameOthers(|tasks|, i, tasks, costs, length, a, b, w);
    SameCount(i, i, tasks, length, a, b);
  }

  /** Each offset in the busy period has its window. */
  lemma {:induction false} WindowFrom(i: nat, a: nat, tasks: seq<Task>, costs: Costs, length: nat, w: nat)
    returns (window: nat)
    requires i < |tasks| && Periodic(tasks) && EdfResponse.Asked(i, a, tasks, costs, length) <= length
    requires w <= EdfResponse.Asked(i, a, tasks, costs, w) && w <= length
    requires forall x: nat :: EdfResponse.Asked(i, a, tasks, costs, x) <= x ==> w <= x
    ensures EdfResponse.IsWindow(i, a, tasks, costs, window)
    decreases length - w
  {
    var next := EdfResponse.Asked(i, a, tasks, costs, w);
    if next == w {
      window := w;
    } else {
      forall x: nat | EdfResponse.Asked(i, a, tasks, costs, x) <= x ensures next <= x {
        EdfResponse.OthersRise(|tasks|, i, a, tasks, costs, w, x);
      }
      EdfResponse.OthersRise(|tasks|, i, a, tasks, costs, w, next);
      window := WindowFrom(i, a, tasks, costs, length, next);
    }
  }

  // The bound

  /** An instance that is not done is in service, or one of its task before it is. */
  lemma PendingDue(tasks: seq<Task>, jobs: seq<seq<Instance>>, run: seq<Slot>, i: nat, n: nat, u: nat, end: nat)
    requires Schedule(tasks, jobs, run) && i < |tasks| && n < |jobs[i]|
    requires jobs[i][n].release <= u < end <= |run| && Served(run, i, end) < Work(jobs[i][..n + 1])
    ensures RunsBy(tasks, jobs, run, jobs[i][n].release + tasks[i].deadline, u)
  {
    ServedWindow(run, i, u, end);
    var m := FirstUndone(jobs[i], n + 1, Served(run, i, u));
    Apart(tasks[i], jobs[i], m, n);
    OnlyDue(tasks, jobs, run, jobs[i][n].release + tasks[i].deadline, i, m, u);
  }

  /** The instance's release is less than a busy period after the last quiet time. */
  lemma OffsetInside(tasks: seq<Task>, jobs: seq<seq<Instance>>, run: seq<Slot>, d: int, t0: nat, t: nat, length: nat)
    requires Schedule(tasks, jobs, run) && t0 <= t <= |run| && QuietBy(tasks, jobs, run, d, t0)
    requires forall u :: t0 <= u < t ==> RunsBy(tasks, jobs, run, d, u)
    requires forall u :: t0 < u <= t ==> !QuietBy(tasks, jobs, run, d, u)
    requires 0 < length && EdfResponse.Demand(tasks, FREE, length) == length
    ensures t - t0 < length
  {
    if t0 + length <= t {
      QuietAfter(tasks, jobs, run, d, t0, length);
    }
  }

  /** What the analysis gives bounds every response under EDF: with a load below 1, an instance
      is served within it of its release, whatever the releases and the work of the others. */
  lemma EdfResponseBounded(tasks: seq<Task>, jobs: seq<seq<Instance>>, run: seq<Slot>, i: nat, n: nat, length: nat,
                           r: nat)
    requires Schedule(tasks, jobs, run) && i < |tasks| && n < |jobs[i]|
    requires EdfResponse.IsBusyPeriod(tasks, FREE, length)
    requires forall a: nat, w: nat :: EdfResponse.IsResponse(i, tasks, FREE, length, a, w) ==> w - a <= r
    requires jobs[i][n].release + r <= |run|
    ensures Served(run, i, jobs[i][n].release + r) >= Work(jobs[i][..n + 1])
  {
    if Served(run, i, jobs[i][n].release + r) < Work(jobs[i][..n + 1]) {
      SomeCost(tasks, jobs[i], i, n);
      NotUnfinished(tasks, jobs, run, i, n, length, r);
    }
  }

  lemma {:induction false} SomeCost(tasks: seq<Task>, q: seq<Instance>, i: nat, n: nat)
    requires i < |tasks| && Sporadic(tasks[i], q) && n < |q| && Work(q[..n + 1]) > 0
    ensures EdfResponse.SumCosts(tasks, FREE) > 0
  {
    if q[n].work == 0 {
      assert q[..n + 1][..n] == q[..n];
      assert n > 0;
      SomeCost(tasks, q, i, n - 1);
    } else {
      SumHolds(tasks, i);
    }
  }

  lemma {:induction false} SumHolds(tasks: seq<Task>, i: nat)
    requires i < |tasks|
    ensures EdfResponse.SumCosts(tasks, FREE) >= tasks[i].wcet
  {
    if i < |tasks| - 1 {
      SumHolds(tasks[..|tasks| - 1], i);
    }
  }

  /** Any offset in the busy period has a window the bound covers. */
  lemma ResponseAt(i: nat, tasks: seq<Task>, costs: Costs, length: nat, a: nat, r: nat) returns (w: nat)
    requires i < |tasks| && Periodic(tasks) && EdfResponse.Demand(tasks, costs, length) == length && a < length
    requires forall b: nat, w: nat :: EdfResponse.IsResponse(i, tasks, costs, length, b, w) ==> w - b <= r
    ensures EdfResponse.Asked(i, a, tasks, costs, w) <= w <= a + r
  {
    var b := LastOffset(i, tasks, length, a);
    EdfResponse.WithinDemand(|tasks|, i, b, tasks, costs, length);
    assert tasks[..|tasks|] == tasks;
    w := WindowFrom(i, b, tasks, costs, length, 0);
    assert EdfResponse.IsResponse(i, tasks, costs, length, b, w);
    SameAsked(i, tasks, costs, length, a, b, w);
  }

  lemma NotUnfinished(tasks: seq<Task>, jobs: seq<seq<Instance>>, run: seq<Slot>, i: nat, n: nat, length: nat, r: nat)
    requires Schedule(tasks, jobs, run) && i < |tasks| && n < |jobs[i]|
    requires EdfResponse.IsBusyPeriod(tasks, FREE, length) && length > 0
    requires forall a: nat, w: nat :: EdfResponse.IsResponse(i, tasks, FREE, length, a, w) ==> w - a <= r
    requires jobs[i][n].release + r <= |run|
    ensures Served(run, i, jobs[i][n].release + r) >= Work(jobs[i][..n + 1])
  {
    var release, d := jobs[i][n].release, jobs[i][n].release + tasks[i].deadline;
    var t0 := LastQuietBy(tasks, jobs, run, d, release);
    OffsetInside(tasks, jobs, run, d, t0, release, length);
    var w := ResponseAt(i, tasks, FREE, length, release - t0, r);
    if Served(run, i, release + r) < Work(jobs[i][..n + 1]) {
      forall u | t0 <= u < t0 + w ensures RunsBy(tasks, jobs, run, d, u) {
        if release <= u {
          PendingDue(tasks, jobs, run, i, n, u, release + r);
        }
      }
      WindowEnds(tasks, jobs, run, i, n, t0, w);
      ServedWindow(run, i, t0 + w, release + r);
    }
  }
}
