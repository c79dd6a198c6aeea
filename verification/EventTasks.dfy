/** Where the event-driven tasks are: each operation on an event's queue taken whole, as
    AnnouncedFifo shows it can be, and the other lists with it. */
module EventTasks {
  import opened AbstractQueue

  type Tasks = seq<int>

  /** Each event's queue, then the tasks that signalers hold, signalled but not yet listed;
      RescheduleSynchronousTaskList; the event-driven tasks of the arrival queue; those of the
      ready queue. `event` is the event of each task; the rest counts signals. */
  datatype Kernel = Kernel(
    event: seq<nat>, queues: seq<Queue>, held: Tasks, listed: Tasks, waiting: Tasks, ready: Tasks,
    signals: seq<nat>, woken: seq<nat>, coalesced: seq<nat>)

  /** The tasks of an event, which its queue has room for (QueueLength). */
  function TasksOf(event: seq<nat>, e: nat): (r: Tasks)
    ensures |r| <= |event|
  {
    if event == [] then []
    else
      var last := |event| - 1;
      TasksOf(event[..last], e) + if event[last] == e then [last] else []
  }

  function Length(k: Kernel, e: nat): nat { |TasksOf(k.event, e)| }

  /** A list without its i-th entry. */
  function Without(s: Tasks, i: nat): (r: Tasks)
    requires i < |s|
    ensures multiset(s) == multiset(r) + multiset{s[i]}
  {
    assert s == s[..i] + [s[i]] + s[i + 1..];
    s[..i] + s[i + 1..]
  }

  datatype Step =
    | Suspend(i: nat)               // the i-th ready task suspends itself
    | SignalEvent(e: nat)                // OSScheduleSuspendedTask takes a task, or leaves a SIGNAL
    | Push(i: nat)                  // and lists the task taken
    | Handle(waits: bool)           // the handler takes a task from the list
    | Release(i: nat)               // and later from the arrival queue

  predicate Possible(k: Kernel, s: Step) {
    match s
    case Suspend(i) => i < |k.ready| && 0 <= k.ready[i] < |k.event| && k.event[k.ready[i]] < |k.queues|
    case SignalEvent(e) => e < |k.queues|
    case Push(i) => i < |k.held|
    case Handle(_) => k.listed != []
    case Release(i) => i < |k.waiting|
  }

  predicate Sized(k: Kernel) {
    |k.signals| == |k.woken| == |k.coalesced| == |k.queues|
  }

  function Next(k: Kernel, s: Step): Kernel
    requires Possible(k, s) && Sized(k)
  {
    match s
    case Suspend(i) =>
      var t := k.ready[i];
      var e := k.event[t];
      var q := k.queues[e];
      var found := Found(q, Length(k, e), Enqueue(t));
      var k1 := k.(queues := k.queues[e := Apply(q, Length(k, e), Signal, Enqueue(t))], ready := Without(k.ready, i));
      if found == Signal then k1.(listed := [t] + k.listed, woken := k.woken[e := k.woken[e] + 1]) else k1
    case SignalEvent(e) =>
      var q := k.queues[e];
      var found := Found(q, Length(k, e), Dequeue);
      var k1 := k.(queues := k.queues[e := Apply(q, Length(k, e), Signal, Dequeue)],
                   signals := k.signals[e := k.signals[e] + 1]);
      if found.Item? then k1.(held := [found.id] + k.held, woken := k.woken[e := k.woken[e] + 1])
      else if found == Signal then k1.(coalesced := k.coalesced[e := k.coalesced[e] + 1])
      else k1
    case Push(i) => k.(held := Without(k.held, i), listed := [k.held[i]] + k.listed)
    case Handle(waits) =>
      if waits then k.(listed := k.listed[1..], waiting := [k.listed[0]] + k.waiting)
      else k.(listed := k.listed[1..], ready := [k.listed[0]] + k.ready)
    case Release(i) => k.(waiting := Without(k.waiting, i), ready := [k.waiting[i]] + k.ready)
  }

  // Every task in one place

  function Times(s: Tasks, t: int): nat {
    multiset(s)[t]
  }

  function Queued(queues: seq<Queue>, t: int): nat {
    if queues == [] then 0
    else Queued(queues[..|queues| - 1], t) + Times(queues[|queues| - 1].items, t)
  }

  /** How often a task is in the lists and queues. */
  function Places(k: Kernel, t: int): nat {
    Queued(k.queues, t) + Times(k.held, t) + Times(k.listed, t) + Times(k.waiting, t) + Times(k.ready, t)
  }

  ghost predicate Inv(k: Kernel) {
    && Sized(k)
    && (forall t :: Places(k, t) == if 0 <= t < |k.event| then 1 else 0)
    && (forall t :: 0 <= t < |k.event| ==> k.event[t] < |k.queues|)
    && QueuesOk(k)
  }

  /** An event has tasks waiting or one signal, never both; each of its signals woke a task,
      found one pending or is pending. */
  predicate Counted(k: Kernel, e: nat)
    requires Sized(k) && e < |k.queues|
  {
    && (k.queues[e].signalled ==> k.queues[e].items == [])
    && k.signals[e] == k.woken[e] + k.coalesced[e] + if k.queues[e].signalled then 1 else 0
  }

  lemma {:induction false} QueuedUpdate(queues: seq<Queue>, e: nat, q: Queue, t: int)
    requires e < |queues|
    ensures Queued(queues[e := q], t) + Times(queues[e].items, t) == Queued(queues, t) + Times(q.items, t)
  {
    var last := |queues| - 1;
    var queues' := queues[e := q];
    if e < last {
      QueuedUpdate(queues[..last], e, q, t);
      assert queues'[..last] == queues[..last][e := q] && queues'[last] == queues[last];
    } else {
      assert queues'[..last] == queues[..last];
    }
  }

  lemma {:induction false} QueuedHolds(queues: seq<Queue>, e: nat, t: int)
    requires e < |queues|
    ensures Times(queues[e].items, t) <= Queued(queues, t)
  {
    if e < |queues| - 1 {
      QueuedHolds(queues[..|queues| - 1], e, t);
    }
  }

  lemma {:induction false} TasksOfOnce(event: seq<nat>, e: nat, t: int)
    ensures multiset(TasksOf(event, e))[t] == if 0 <= t < |event| && event[t] == e then 1 else 0
  {
    if event != [] {
      TasksOfOnce(event[..|event| - 1], e, t);
    }
  }

  lemma SmallerMultiset(a: multiset<int>, b: multiset<int>)
    requires a <= b
    ensures |a| <= |b|
  {
    assert b == a + (b - a);
  }

  /** A task that suspends itself finds room in its event's queue. */
  lemma RoomToSuspend(k: Kernel, i: nat)
    requires Inv(k) && Possible(k, Suspend(i))
    ensures var e := k.event[k.ready[i]]; |k.queues[e].items| < Length(k, e)
  {
    var t := k.ready[i];
    var e := k.event[t];
    var items, room := k.queues[e].items, TasksOf(k.event, e);
    assert OwnTasks(k, e);
    forall x ensures multiset(items + [t])[x] <= multiset(room)[x] {
      TasksOfOnce(k.event, e, x);
      QueuedHolds(k.queues, e, x);
      assert multiset(items + [t])[x] == Times(items, x) + if x == t then 1 else 0;
      assert t in k.ready && (x == t ==> Times(k.ready, x) >= 1);
      assert Places(k, x) <= 1;
      if x in items {
        var j :| 0 <= j < |items| && items[j] == x;
      }
    }
    SmallerMultiset(multiset(items + [t]), multiset(room));
  }

  /** Nothing but its place changes. */
  ghost predicate SameTasks(k: Kernel, k': Kernel) {
    && Sized(k') && |k'.queues| == |k.queues| && k'.event == k.event
    && forall t :: Places(k', t) == Places(k, t)
  }

  lemma SuspendMoves(k: Kernel, i: nat)
    requires Inv(k) && Possible(k, Suspend(i))
    ensures SameTasks(k, Next(k, Suspend(i)))
  {
    var k' := Next(k, Suspend(i));
    var e := k.event[k.ready[i]];
    RoomToSuspend(k, i);
    assert k'.queues == k.queues[e := k'.queues[e]];
    forall t ensures Places(k', t) == Places(k, t) {
      QueuedUpdate(k.queues, e, k'.queues[e], t);
    }
  }

  lemma Front(x: int, s: Tasks, t: int)
    ensures Times([x] + s, t) == Times(s, t) + if x == t then 1 else 0
  {
  }

  /** The first task of a queue to the front of a list. */
  lemma Popped(from: Tasks, to: Tasks, t: int)
    requires from != []
    ensures Times(from[1..], t) + Times([from[0]] + to, t) == Times(from, t) + Times(to, t)
  {
    assert from == [from[0]] + from[1..];
    Front(from[0], from[1..], t);
    Front(from[0], to, t);
  }

  lemma SignalMoves(k: Kernel, e: nat)
    requires Inv(k) && Possible(k, SignalEvent(e))
    ensures SameTasks(k, Next(k, SignalEvent(e)))
  {
    var k' := Next(k, SignalEvent(e));
    var items := k.queues[e].items;
    assert Counted(k, e);
    assert k'.queues == k.queues[e := k'.queues[e]];
    forall t ensures Places(k', t) == Places(k, t) {
      QueuedUpdate(k.queues, e, k'.queues[e], t);
      if items != [] {
        Popped(items, k.held, t);
      }
    }
  }

  /** One task from a list to the front of another. */
  lemma Moved(from: Tasks, i: nat, to: Tasks, t: int)
    requires i < |from|
    ensures Times(Without(from, i), t) + Times([from[i]] + to, t) == Times(from, t) + Times(to, t)
  {
    Front(from[i], to, t);
  }

  lemma PushMoves(k: Kernel, i: nat)
    requires Inv(k) && Possible(k, Push(i))
    ensures SameTasks(k, Next(k, Push(i)))
  {
    forall t ensures Places(Next(k, Push(i)), t) == Places(k, t) {
      Moved(k.held, i, k.listed, t);
    }
  }

  lemma HandleMoves(k: Kernel, waits: bool)
    requires Inv(k) && Possible(k, Handle(waits))
    ensures SameTasks(k, Next(k, Handle(waits)))
  {
    assert Without(k.listed, 0) == k.listed[1..];
    forall t ensures Places(Next(k, Handle(waits)), t) == Places(k, t) {
      Moved(k.listed, 0, if waits then k.waiting else k.ready, t);
    }
  }

  lemma ReleaseMoves(k: Kernel, i: nat)
    requires Inv(k) && Possible(k, Release(i))
    ensures SameTasks(k, Next(k, Release(i)))
  {
    forall t ensures Places(Next(k, Release(i)), t) == Places(k, t) {
      Moved(k.waiting, i, k.ready, t);
    }
  }

  lemma OtherMoves(k: Kernel, s: Step)
    requires Inv(k) && Possible(k, s) && !s.Suspend? && !s.SignalEvent?
    ensures SameTasks(k, Next(k, s))
  {
    match s
    case Push(i) => PushMoves(k, i);
    case Handle(waits) => HandleMoves(k, waits);
    case Release(i) => ReleaseMoves(k, i);
  }

  /** The queues of the events hold only their own tasks, and count their signals. */
  ghost predicate QueuesOk(k: Kernel) {
    && Sized(k)
    && forall e :: 0 <= e < |k.queues| ==> Counted(k, e) && OwnTasks(k, e)
  }

  ghost predicate OwnTasks(k: Kernel, e: nat)
    requires e < |k.queues|
  {
    forall i :: 0 <= i < |k.queues[e].items| ==>
      0 <= k.queues[e].items[i] < |k.event| && k.event[k.queues[e].items[i]] == e
  }

  lemma SuspendKeepsQueue(k: Kernel, i: nat, e: nat)
    requires Inv(k) && Possible(k, Suspend(i)) && e < |k.queues|
    ensures Counted(Next(k, Suspend(i)), e) && OwnTasks(Next(k, Suspend(i)), e)
  {
    RoomToSuspend(k, i);
    assert Counted(k, e) && OwnTasks(k, e);
  }

  lemma SignalKeepsQueue(k: Kernel, e: nat, other: nat)
    requires Inv(k) && Possible(k, SignalEvent(e)) && other < |k.queues|
    ensures Counted(Next(k, SignalEvent(e)), other) && OwnTasks(Next(k, SignalEvent(e)), other)
  {
    assert Counted(k, other) && OwnTasks(k, other);
  }

  lemma NextKeepsQueues(k: Kernel, s: Step)
    requires Inv(k) && Possible(k, s)
    ensures QueuesOk(Next(k, s))
  {
    forall e | 0 <= e < |k.queues| ensures Counted(Next(k, s), e) && OwnTasks(Next(k, s), e) {
      match s
      case Suspend(i) => SuspendKeepsQueue(k, i, e);
      case SignalEvent(e') => SignalKeepsQueue(k, e', e);
      case _ => assert Counted(k, e) && OwnTasks(k, e);
    }
  }

  lemma NextKeepsInv(k: Kernel, s: Step)
    requires Inv(k) && Possible(k, s)
    ensures Inv(Next(k, s))
  {
    match s {
      case Suspend(i) => SuspendMoves(k, i);
      case SignalEvent(e) => SignalMoves(k, e);
      case _ => OtherMoves(k, s);
    }
    NextKeepsQueues(k, s);
  }

  // Over whole runs

  /** OSStartMultitasking: every task waits in its event's queue. */
  ghost predicate Initial(k: Kernel) {
    && Sized(k) && k.held == [] && k.listed == [] && k.waiting == [] && k.ready == []
    && (forall t :: 0 <= t < |k.event| ==> k.event[t] < |k.queues|)
    && forall e :: 0 <= e < |k.queues| ==>
         k.queues[e] == Queue(TasksOf(k.event, e), false) && k.signals[e] == k.woken[e] == k.coalesced[e] == 0
  }

  ghost predicate Run(run: seq<Kernel>, steps: seq<Step>) {
    && |run| == |steps| + 1 && Initial(run[0])
    && forall n :: 0 <= n < |steps| ==>
         Sized(run[n]) && Possible(run[n], steps[n]) && run[n + 1] == Next(run[n], steps[n])
  }

  lemma {:induction false} InitialQueued(event: seq<nat>, queues: seq<Queue>, t: int)
    requires forall e :: 0 <= e < |queues| ==> queues[e].items == TasksOf(event, e)
    ensures Queued(queues, t) == if 0 <= t < |event| && event[t] < |queues| then 1 else 0
  {
    if queues != [] {
      InitialQueued(event, queues[..|queues| - 1], t);
      TasksOfOnce(event, |queues| - 1, t);
    }
  }

  lemma InitialInv(k: Kernel)
    requires Initial(k)
    ensures Inv(k)
  {
    forall t ensures Places(k, t) == if 0 <= t < |k.event| then 1 else 0 {
      InitialQueued(k.event, k.queues, t);
    }
    forall e | 0 <= e < |k.queues| ensures OwnTasks(k, e) {
      var items := k.queues[e].items;
      forall i | 0 <= i < |items| ensures 0 <= items[i] < |k.event| && k.event[items[i]] == e {
        TasksOfOnce(k.event, e, items[i]);
        assert multiset(items)[items[i]] > 0;
      }
    }
  }

  /** In every run each event-driven task is in one place, and no signal is lost. */
  lemma {:induction false} RunKeepsInv(run: seq<Kernel>, steps: seq<Step>, n: nat)
    requires Run(run, steps) && n <= |steps|
    ensures Inv(run[n])
  {
    if n == 0 {
      InitialInv(run[0]);
    } else {
      RunKeepsInv(run, steps, n - 1);
      NextKeepsInv(run[n - 1], steps[n - 1]);
    }
  }
}
