/** An optional instance the admission test lets start, nothing else being ready, ends by its
    deadline, however the mandatory instances released meanwhile preempt it. */
module FirmSafety {
  import opened Arith
  import opened Counting
  import opened FirmPattern
  import opened FirmTask
  import opened Admission

  /** What the processor does in one tick: the instance admitted; the mandatory instance of a
      task released `n` periods after its next mandatory release, if mandatory itself; or
      anything else, idling included. */
  datatype Choice = Own | Instance(task: nat, n: nat) | Other

  function Is(c: Choice): Choice -> bool { (d: Choice) => d == c }
  function OfTask(i: nat): Choice -> bool { (d: Choice) => d.Instance? && d.task == i }
  function TasksBelow(i: nat): Choice -> bool { (d: Choice) => d.Instance? && d.task < i }
  function Earlier(i: nat, n: nat): Choice -> bool { (d: Choice) => d.Instance? && d.task == i && d.n < n }

  function ReleaseTime(t: Task, n: nat): int {
    t.mandatory.Value() + n * t.period.Value()
  }

  /** What may run at tick x after `now`: the mandatory instances already released, and
      something else only once the instance admitted has had the ticks it needs. */
  predicate Allowed(queue: seq<Task>, now: int, need: nat, run: seq<Choice>, x: nat)
    requires x < |run|
  {
    match run[x]
    case Own => true
    case Instance(i, n) =>
      && i < |queue| && Mandatory(queue[i].next + n, queue[i].m, queue[i].k)
      && ReleaseTime(queue[i], n) <= now + x
    case Other => Ticks(run[..x], Is(Own)) >= need
  }

  /** A schedule from `now` on: the instance admitted runs unless a mandatory instance does,
      by earliest deadline or in any other way, and none takes more than its WCET. */
  ghost predicate Schedule(queue: seq<Task>, now: int, need: nat, run: seq<Choice>) {
    && (forall x :: 0 <= x < |run| ==> Allowed(queue, now, need, run, x))
    && (forall i: nat, n: nat :: i < |queue| ==> Ticks(run, Is(Instance(i, n))) <= queue[i].wcet)
  }

  // The ticks of one task

  /** The instances of whole periods take their WCET each at most. */
  lemma {:induction false} EarlierBound(queue: seq<Task>, now: int, need: nat, run: seq<Choice>, i: nat, n: nat)
    requires Schedule(queue, now, need, run) && i < |queue| && queue[i].wcet >= 0
    ensures var t := queue[i];
      Ticks(run, Earlier(i, n)) <= Count(t.next, t.next + n, t.m, t.k) * t.wcet
  {
    var t := queue[i];
    if n == 0 {
      TicksNone(run, Earlier(i, 0));
    } else {
      EarlierBound(queue, now, need, run, i, n - 1);
      TicksAdd(run, Earlier(i, n - 1), Is(Instance(i, n - 1)), Earlier(i, n));
      assert t.next + n - 1 == t.next + (n - 1);
      Distributes(Count(t.next, t.next + n - 1, t.m, t.k), 1, t.wcet);
      if !Mandatory(t.next + n - 1, t.m, t.k) {
        OptionalNone(queue, now, need, run, i, n - 1);
      }
    }
  }

  lemma OptionalNone(queue: seq<Task>, now: int, need: nat, run: seq<Choice>, i: nat, n: nat)
    requires Schedule(queue, now, need, run) && i < |queue|
    requires !Mandatory(queue[i].next + n, queue[i].m, queue[i].k)
    ensures Ticks(run, Is(Instance(i, n))) == 0
  {
    forall c | c in run ensures !Is(Instance(i, n))(c) {
      var x :| 0 <= x < |run| && run[x] == c;
      assert Allowed(queue, now, need, run, x);
    }
    TicksNone(run, Is(Instance(i, n)));
  }

  /** The last instance takes no more than the time from its release. */
  lemma LastBound(queue: seq<Task>, now: int, need: nat, run: seq<Choice>, i: nat, n: nat)
    requires Schedule(queue, now, need, run) && i < |queue| && queue[i].wcet >= 0
    requires now <= ReleaseTime(queue[i], n) <= now + |run|
    ensures Ticks(run, Is(Instance(i, n))) <= Last(queue[i], n, now + |run| - ReleaseTime(queue[i], n))
  {
    if Mandatory(queue[i].next + n, queue[i].m, queue[i].k) {
      forall x | 0 <= x < |run| && run[x] == Instance(i, n) ensures ReleaseTime(queue[i], n) - now <= x {
        assert Allowed(queue, now, need, run, x);
      }
      TicksFrom(run, Is(Instance(i, n)), ReleaseTime(queue[i], n) - now);
    } else {
      OptionalNone(queue, now, need, run, i, n);
    }
  }

  /** Its instances are released no later than they run. */
  lemma ReleasedBefore(queue: seq<Task>, now: int, need: nat, run: seq<Choice>, i: nat, c: Choice)
    requires Schedule(queue, now, need, run) && i < |queue| && c in run && OfTask(i)(c)
    ensures ReleaseTime(queue[i], c.n) < now + |run|
    ensures var span := now + |run| - queue[i].mandatory.Value();
      0 < span && c.n <= span / queue[i].period.Value()
  {
    var x :| 0 <= x < |run| && run[x] == c;
    assert Allowed(queue, now, need, run, x);
    var p := queue[i].period.Value();
    var span := now + |run| - queue[i].mandatory.Value();
    MulMonotone(0, c.n, p);
    var whole := span / p;
    assert span == whole * p + span % p;
    Distributes(whole, 1, p);
    MulCancels(c.n, whole + 1, p);
  }

  lemma SomeReleased(queue: seq<Task>, now: int, need: nat, run: seq<Choice>, i: nat, whole: nat)
    requires Schedule(queue, now, need, run) && i < |queue| && queue[i].Valid(now)
    requires var span := now + |run| - queue[i].mandatory.Value();
      0 < span && whole == span / queue[i].period.Value()
    ensures Ticks(run, OfTask(i))
      <= Full(queue[i], whole) + Last(queue[i], whole, now + |run| - ReleaseTime(queue[i], whole))
  {
    var t := queue[i];
    forall c | c in run && OfTask(i)(c) ensures c.n <= whole {
      ReleasedBefore(queue, now, need, run, i, c);
    }
    TicksAdd(run, Earlier(i, whole), Is(Instance(i, whole)), OfTask(i));
    EarlierBound(queue, now, need, run, i, whole);
    WholeSpan(t, now + |run| - t.mandatory.Value());
    LastBound(queue, now, need, run, i, whole);
    NeverUndercounts(t.next, whole, t.m, t.k);
    MulMonotone(Count(t.next, t.next + whole, t.m, t.k), Quota(whole, t.m, t.k), t.wcet);
  }

  /** A task takes no more than what the test counts for it. */
  lemma TaskBound(queue: seq<Task>, now: int, need: nat, run: seq<Choice>, i: nat)
    requires Schedule(queue, now, need, run) && i < |queue| && queue[i].Valid(now)
    ensures Ticks(run, OfTask(i)) <= Interference(queue[i], now + |run| - queue[i].mandatory.Value())
  {
    var span := now + |run| - queue[i].mandatory.Value();
    if span <= 0 {
      if c :| c in run && OfTask(i)(c) {
        ReleasedBefore(queue, now, need, run, i, c);
      }
      TicksNone(run, OfTask(i));
    } else {
      WholeSpan(queue[i], span);
      SomeReleased(queue, now, need, run, i, span / queue[i].period.Value());
    }
  }

  /** All tasks together take no more than the demand. */
  lemma {:induction false} TasksBound(queue: seq<Task>, now: int, need: nat, run: seq<Choice>, r: nat)
    requires Schedule(queue, now, need, run) && r <= |queue| && forall i :: 0 <= i < |queue| ==> queue[i].Valid(now)
    ensures Ticks(run, TasksBelow(r)) <= Demand(queue[..r], now + |run|)
  {
    if r == 0 {
      TicksNone(run, TasksBelow(0));
    } else {
      TasksBound(queue, now, need, run, r - 1);
      TicksAdd(run, TasksBelow(r - 1), OfTask(r - 1), TasksBelow(r));
      TaskBound(queue, now, need, run, r - 1);
      assert queue[..r][..r - 1] == queue[..r - 1];
    }
  }

  /** While the instance admitted needs more, every tick is its own or counted. */
  lemma AllCounted(queue: seq<Task>, now: int, need: nat, run: seq<Choice>)
    requires forall i :: 0 <= i < |queue| ==> queue[i].Valid(now)
    requires Schedule(queue, now, need, run) && Ticks(run, Is(Own)) < need
    ensures |run| <= Ticks(run, Is(Own)) + Demand(queue, now + |run|)
  {
    var all, tasks := (c: Choice) => true, TasksBelow(|queue|);
    forall c | c in run ensures c.Own? || tasks(c) {
      var x :| 0 <= x < |run| && run[x] == c;
      assert Allowed(queue, now, need, run, x);
      TicksSplit(run, x, Is(Own));
    }
    TicksAll(run, all);
    TicksAdd(run, Is(Own), tasks, all);
    TasksBound(queue, now, need, run, |queue|);
    assert queue[..|queue|] == queue;
  }

  /** Admission is sound: in every schedule up to its deadline the instance admitted gets
      all the ticks it needs, up to its WCET. */
  lemma AdmittedEnds(queue: seq<Task>, wcet: nat, deadline: int, now: int, need: nat, run: seq<Choice>)
    requires forall i :: 0 <= i < |queue| ==> queue[i].Valid(now)
    requires Fits(queue, wcet, deadline, now) && need <= wcet
    requires now + |run| == deadline && Schedule(queue, now, need, run)
    ensures Ticks(run, Is(Own)) >= need
  {
    assert Demand(queue, now + |run|) == Demand(queue, deadline);
    if Ticks(run, Is(Own)) < need {
      AllCounted(queue, now, need, run);
    }
  }

  // By earliest deadline

  /** What each mandatory instance takes, and its deadline. */
  datatype Demands = Demands(work: (nat, nat) -> nat, due: (nat, nat) -> int)

  predicate Pending(queue: seq<Task>, now: int, d: Demands, run: seq<Choice>, x: nat, i: nat, n: nat)
    requires x <= |run|
  {
    && i < |queue| && Mandatory(queue[i].next + n, queue[i].m, queue[i].k)
    && ReleaseTime(queue[i], n) <= now + x
    && Ticks(run[..x], Is(Instance(i, n))) < d.work(i, n)
  }

  /** Tick x goes to an instance of the earliest deadline of all that are pending, the one
      admitted among them; to anything else only when none is. */
  ghost predicate EarliestFirst(queue: seq<Task>, now: int, need: nat, deadline: int, d: Demands, run: seq<Choice>,
                                x: nat)
    requires x < |run|
  {
    var own := Ticks(run[..x], Is(Own)) < need;
    match run[x]
    case Own => own && forall j, m :: Pending(queue, now, d, run, x, j, m) ==> deadline <= d.due(j, m)
    case Instance(i, n) =>
      && Pending(queue, now, d, run, x, i, n)
      && (own ==> d.due(i, n) <= deadline)
      && forall j, m :: Pending(queue, now, d, run, x, j, m) ==> d.due(i, n) <= d.due(j, m)
    case Other => !own && forall j, m :: !Pending(queue, now, d, run, x, j, m)
  }

  ghost predicate EdfRun(queue: seq<Task>, now: int, need: nat, deadline: int, d: Demands, run: seq<Choice>) {
    && (forall i: nat, n: nat :: i < |queue| ==> d.work(i, n) <= queue[i].wcet)
    && forall x :: 0 <= x < |run| ==> EarliestFirst(queue, now, need, deadline, d, run, x)
  }

  lemma {:induction false} WorkKept(queue: seq<Task>, now: int, need: nat, deadline: int, d: Demands,
                                    run: seq<Choice>, i: nat, n: nat, x: nat)
    requires EdfRun(queue, now, need, deadline, d, run) && i < |queue| && x <= |run|
    ensures Ticks(run[..x], Is(Instance(i, n))) <= d.work(i, n)
  {
    if x > 0 {
      WorkKept(queue, now, need, deadline, d, run, i, n, x - 1);
      assert run[..x][..x - 1] == run[..x - 1];
      assert EarliestFirst(queue, now, need, deadline, d, run, x - 1);
    }
  }

  /** Under EDF too, whatever each instance takes up to its WCET, the one admitted ends by
      its deadline. */
  lemma AdmittedEndsUnderEdf(queue: seq<Task>, wcet: nat, deadline: int, now: int, need: nat, d: Demands,
                             run: seq<Choice>)
    requires forall i :: 0 <= i < |queue| ==> queue[i].Valid(now)
    requires Fits(queue, wcet, deadline, now) && need <= wcet
    requires now + |run| == deadline && EdfRun(queue, now, need, deadline, d, run)
    ensures Ticks(run, Is(Own)) >= need
  {
    forall x | 0 <= x < |run| ensures Allowed(queue, now, need, run, x) {
      assert EarliestFirst(queue, now, need, deadline, d, run, x);
    }
    forall i: nat, n: nat | i < |queue| ensures Ticks(run, Is(Instance(i, n))) <= queue[i].wcet {
      WorkKept(queue, now, need, deadline, d, run, i, n, |run|);
      assert run[..|run|] == run;
    }
    AdmittedEnds(queue, wcet, deadline, now, need, run);
  }
}
