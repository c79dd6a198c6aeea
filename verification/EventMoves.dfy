/** Which event-driven task each step moves, from where to where: a signal takes the task that has
    waited longest, a task that suspends itself waits behind the others or, a signal pending, is
    listed again at once; all others stay where they are. */
module EventMoves {
  import opened AbstractQueue
  import opened EventTasks

  datatype Place = InQueue(e: nat) | Held | Listed | Waiting | Ready

  ghost predicate At(k: Kernel, p: Place, t: int) {
    match p
    case InQueue(e) => e < |k.queues| && t in k.queues[e].items
    case Held => t in k.held
    case Listed => t in k.listed
    case Waiting => t in k.waiting
    case Ready => t in k.ready
  }

  datatype Move = Stays | Goes(task: int, to: Place)

  /** What each step does, the queue of an event seen as the tasks waiting, oldest first, or a
      pending signal. */
  function MoveOf(k: Kernel, s: Step): Move
    requires Possible(k, s)
  {
    match s
    case Suspend(i) =>
      var e := k.event[k.ready[i]];
      Goes(k.ready[i], if k.queues[e].signalled then Listed else InQueue(e))
    case SignalEvent(e) => if k.queues[e].items != [] then Goes(k.queues[e].items[0], Held) else Stays
    case Push(i) => Goes(k.held[i], Listed)
    case Handle(waits) => Goes(k.listed[0], if waits then Waiting else Ready)
    case Release(i) => Goes(k.waiting[i], Ready)
  }

  /** Where a task is once a move is made. */
  ghost predicate Lands(k: Kernel, m: Move, p: Place, t: int) {
    if m.Goes? && t == m.task then p == m.to else At(k, p, t)
  }

  lemma {:induction false} QueuedOnce(queues: seq<Queue>, e: nat, f: nat, t: int)
    requires e < f < |queues|
    ensures Times(queues[e].items, t) + Times(queues[f].items, t) <= Queued(queues, t)
  {
    var last := |queues| - 1;
    if f < last {
      QueuedOnce(queues[..last], e, f, t);
    } else {
      QueuedHolds(queues[..last], e, t);
    }
  }

  /** In one place at most. */
  lemma OnePlace(k: Kernel, t: int, p: Place, q: Place)
    requires Inv(k) && At(k, p, t) && At(k, q, t)
    ensures p == q
  {
    assert Places(k, t) <= 1;
    if p.InQueue? {
      QueuedHolds(k.queues, p.e, t);
    }
    if q.InQueue? {
      QueuedHolds(k.queues, q.e, t);
    }
    if p.InQueue? && q.InQueue? {
      if p.e < q.e {
        QueuedOnce(k.queues, p.e, q.e, t);
      } else if q.e < p.e {
        QueuedOnce(k.queues, q.e, p.e, t);
      }
    }
  }

  /** A list without its i-th entry holds what it held but that, if once. */
  lemma WithoutIn(s: Tasks, i: nat, t: int)
    requires i < |s| && Times(s, s[i]) <= 1
    ensures t in Without(s, i) <==> t in s && t != s[i]
  {
    assert Times(s, t) == Times(Without(s, i), t) + if t == s[i] then 1 else 0;
  }

  lemma ListsOnce(k: Kernel, t: int)
    requires Inv(k)
    ensures Times(k.held, t) <= 1 && Times(k.listed, t) <= 1 && Times(k.waiting, t) <= 1 && Times(k.ready, t) <= 1
  {
    assert Places(k, t) <= 1;
  }

  lemma QueueOnce(k: Kernel, e: nat, t: int)
    requires Inv(k) && e < |k.queues|
    ensures Times(k.queues[e].items, t) <= 1
  {
    assert Places(k, t) <= 1;
    QueuedHolds(k.queues, e, t);
  }

  /** The queue of an event after a suspension or a signal. */
  lemma QueueAfter(k: Kernel, s: Step, e: nat)
    requires Inv(k) && Possible(k, s) && e < |k.queues|
    ensures e < |Next(k, s).queues|
    ensures var q, q' := k.queues[e], Next(k, s).queues[e];
      if s.Suspend? && k.event[k.ready[s.i]] == e then
        if q.signalled then q' == Queue([], false) else q' == Queue(q.items + [k.ready[s.i]], false)
      else if s == SignalEvent(e) then
        if q.items != [] then q' == Queue(q.items[1..], false) else q' == Queue([], true)
      else q' == q
  {
    assert Counted(k, e);
    if s.Suspend? {
      RoomToSuspend(k, s.i);
    }
  }

  lemma FirstOut(items: seq<int>, t: int)
    requires items != [] && Times(items, items[0]) <= 1
    ensures t in items[1..] <==> t in items && t != items[0]
  {
    assert items == [items[0]] + items[1..];
    assert Times(items, t) == Times(items[1..], t) + if t == items[0] then 1 else 0;
  }

  /** One task at most changes its place, from the one it is in to the one it goes to. */
  lemma StepMoves(k: Kernel, s: Step, t: int, p: Place)
    requires Inv(k) && Possible(k, s)
    ensures At(Next(k, s), p, t) <==> Lands(k, MoveOf(k, s), p, t)
  {
    match s
    case Suspend(i) => SuspendPlaces(k, i, t, p);
    case SignalEvent(e) => SignalPlaces(k, e, t, p);
    case Push(i) =>
      ListsOnce(k, k.held[i]);
      WithoutIn(k.held, i, t);
      FromPlace(k, k.held[i], Held, p);
    case Handle(waits) =>
      ListsOnce(k, k.listed[0]);
      FirstOut(k.listed, t);
      FromPlace(k, k.listed[0], Listed, p);
    case Release(i) =>
      ListsOnce(k, k.waiting[i]);
      WithoutIn(k.waiting, i, t);
      FromPlace(k, k.waiting[i], Waiting, p);
  }

  /** A task is nowhere else. */
  lemma FromPlace(k: Kernel, x: int, from: Place, p: Place)
    requires Inv(k) && At(k, from, x)
    ensures At(k, p, x) <==> p == from
  {
    if At(k, p, x) {
      OnePlace(k, x, p, from);
    }
  }

  lemma SuspendPlaces(k: Kernel, i: nat, t: int, p: Place)
    requires Inv(k) && Possible(k, Suspend(i))
    ensures At(Next(k, Suspend(i)), p, t) <==>
      var x, e := k.ready[i], k.event[k.ready[i]];
      if t == x then p == if k.queues[e].signalled then Listed else InQueue(e) else At(k, p, t)
  {
    var x := k.ready[i];
    ListsOnce(k, x);
    WithoutIn(k.ready, i, t);
    FromPlace(k, x, Ready, p);
    QueueAfter(k, Suspend(i), k.event[x]);
    if p.InQueue? && p.e < |k.queues| {
      QueueAfter(k, Suspend(i), p.e);
    }
  }

  lemma SignalPlaces(k: Kernel, e: nat, t: int, p: Place)
    requires Inv(k) && Possible(k, SignalEvent(e))
    ensures At(Next(k, SignalEvent(e)), p, t) <==>
      var items := k.queues[e].items;
      if items != [] && t == items[0] then p == Held else At(k, p, t)
  {
    var items := k.queues[e].items;
    QueueAfter(k, SignalEvent(e), e);
    if items != [] {
      QueueOnce(k, e, items[0]);
      FirstOut(items, t);
      FromPlace(k, items[0], InQueue(e), p);
    }
    if p.InQueue? && p.e < |k.queues| {
      QueueAfter(k, SignalEvent(e), p.e);
    }
  }

  /** A signal is absorbed only by one already pending; the others wake a task or stay pending. */
  lemma SignalCounts(k: Kernel, e: nat)
    requires Inv(k) && Possible(k, SignalEvent(e))
    ensures var k', q := Next(k, SignalEvent(e)), k.queues[e];
      && k'.signals == k.signals[e := k.signals[e] + 1]
      && k'.woken == (if q.items != [] then k.woken[e := k.woken[e] + 1] else k.woken)
      && k'.coalesced == if q.signalled then k.coalesced[e := k.coalesced[e] + 1] else k.coalesced
  {
    assert Counted(k, e);
  }
}
