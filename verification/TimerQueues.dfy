/** The arrival and ready queues of the hard kernel under EDF, with their times split at 2^30:
    what its timer handler, its wraparounds and the ends of tasks do to them. */
module TimerQueues {
  import opened Common
  import Server

  /** A periodic TCB, or an event-driven one (`blocking`); a zombie has no instance under
      way. `length` is the relative deadline of the one, the workload of the other. */
  datatype Tcb = Tcb(
    blocking: bool, zombie: bool, periodHigh: int, periodLow: int, length: int,
    high: int, low: int,      // NextArrivalTimeHigh and Low
    deadline: int)            // NextDeadline
  {
    function Period(): int { periodHigh * WRAP + periodLow }

    /** The next arrival, in the current turn of the clock; an event-driven task keeps one
        time. */
    function Time(): int { if blocking then low else high * WRAP + low }

    /** ValidTiming, for a periodic task. */
    predicate Timing() {
      blocking || (0 <= periodHigh < 0xFFFF && 0 <= periodLow < WRAP && Period() > 0 && 0 < length < WRAP)
    }

    /** The parts of the next arrival in order: a late time is in the turn it is served in. */
    predicate Normal() {
      if blocking then low < 2 * WRAP else low < WRAP && high >= 0 && (high > 0 ==> low >= 0)
    }

    /** A period of a turn or more: late by no more than its remainder below 2^30. */
    predicate InTime() {
      !blocking && periodHigh > 0 && high == 0 ==> low + periodLow >= 0
    }

    predicate Due(now: int) {
      low <= now && (blocking || high == 0)
    }

    /** NextPeriodicArrival. */
    function Next(): Tcb {
      var sum := low + periodLow;
      if sum > 0x3FFF_FFFF then this.(high := periodHigh + 1, low := sum % WRAP)
      else this.(high := periodHigh, low := sum)
    }

    /** A wraparound, the TCB in one queue, the other, both or none. */
    function Shift(arrival: bool, ready: bool): Tcb {
      if blocking then
        this.(low := if arrival then low - WRAP else low, deadline := Server.SubOrZero(deadline, WRAP))
      else
        var t := if ready then this.(deadline := deadline - WRAP) else this;
        if !arrival then t else if high > 0 then t.(high := high - 1) else t.(low := low - WRAP)
    }
  }

  /** ArrivalQueueInsertTestKey compares times, those of event-driven tasks beyond the
      wraparound included. */
  predicate InsertBefore(a: Tcb, b: Tcb): (r: bool)
    ensures a.Normal() && b.Normal() ==> (r <==> a.Time() <= b.Time())
  {
    var aHigh, aLow := if !a.blocking then a.high else if a.low >= WRAP then 1 else 0,
                       if a.blocking && a.low >= WRAP then a.low - WRAP else a.low;
    var bHigh, bLow := if !b.blocking then b.high else if b.low >= WRAP then 1 else 0,
                       if b.blocking && b.low >= WRAP then b.low - WRAP else b.low;
    aHigh < bHigh || (aHigh == bHigh && aLow <= bLow)
  }

  /** NextPeriodicArrival adds one period, and keeps the parts in order exactly when the task
      is no later than the remainder of a period of a turn or more. */
  lemma NextAddsPeriod(t: Tcb)
    requires t.Timing() && !t.blocking && t.high == 0 && t.low < WRAP
    ensures t.Next().Time() == t.Time() + t.Period()
    ensures t.Next().Normal() <==> t.InTime()
    ensures t.InTime() ==> t.Next().InTime()
    ensures -WRAP <= t.low ==> -WRAP <= t.low + t.periodLow < 2 * WRAP && -WRAP <= t.Next().low
  {
  }

  /** Later than that, the queue is no longer in order of time. Two wraparounds after a first
      release of both at 0, a task of a period of one turn and 1 tick has its second release,
      due at the start of the last turn, still to be served: its third, due 2 ticks after the
      wraparound, is put after the second one of the other, due 2 ticks later. */
  lemma TooLate()
    ensures var t, b := Tcb(false, true, 1, 1, 1, 0, 1 - WRAP, 0), Tcb(false, true, 2, 4, 1, 0, 4, 0);
      var a := t.Next();
      && t.Timing() && b.Timing() && 2 * WRAP + t.Time() == t.Period() && 2 * WRAP + b.Time() == b.Period()
      && !t.InTime() && b.Normal() && b.InTime()
      && a.Time() < b.Time() && !InsertBefore(a, b) && InsertBefore(b, a)
  {
  }

  // Queues of TCBs, named by their numbers

  type Queue = seq<nat>

  /** The queues and TCBs; `epoch` counts the wraparounds, `served` each task's releases,
      and `started` tells the one its last instance came with. */
  datatype View = View(
    tcbs: seq<Tcb>, arrivals: Queue, ready: Queue, server: int, epoch: nat, served: seq<nat>, started: seq<nat>)

  function Times(tcbs: seq<Tcb>): (r: seq<int>)
    ensures |r| == |tcbs| && forall i :: 0 <= i < |r| ==> r[i] == tcbs[i].Time()
  {
    seq(|tcbs|, i requires 0 <= i < |tcbs| => tcbs[i].Time())
  }

  function Deadlines(tcbs: seq<Tcb>): (r: seq<int>)
    ensures |r| == |tcbs| && forall i :: 0 <= i < |r| ==> r[i] == tcbs[i].deadline
  {
    seq(|tcbs|, i requires 0 <= i < |tcbs| => tcbs[i].deadline)
  }

  ghost predicate Among(q: Queue, n: nat) {
    forall i :: 0 <= i < |q| ==> q[i] < n
  }

  ghost predicate Sorted(q: Queue, keys: seq<int>)
    requires Among(q, |keys|)
  {
    forall i, j :: 0 <= i < j < |q| ==> keys[q[i]] <= keys[q[j]]
  }

  /** InsertQueue: before the first entry of a key no lower. */
  function Insert(q: Queue, x: nat, keys: seq<int>): (r: Queue)
    requires Among(q, |keys|) && x < |keys|
    ensures multiset(r) == multiset(q) + multiset{x}
  {
    if q == [] || keys[x] <= keys[q[0]] then [x] + q
    else
      assert q == [q[0]] + q[1..];
      [q[0]] + Insert(q[1..], x, keys)
  }

  lemma InsertIn(q: Queue, x: nat, keys: seq<int>)
    requires Among(q, |keys|) && x < |keys|
    ensures forall y :: y in Insert(q, x, keys) <==> y in q || y == x
    ensures Once(q) && x !in q ==> Once(Insert(q, x, keys))
  {
    var r := Insert(q, x, keys);
    assert forall y :: y in r <==> multiset(r)[y] > 0;
    assert forall y :: y in q <==> multiset(q)[y] > 0;
  }

  lemma SortedBefore(x: nat, q: Queue, keys: seq<int>)
    requires Among(q, |keys|) && x < |keys| && Sorted(q, keys) && forall i :: 0 <= i < |q| ==> keys[x] <= keys[q[i]]
    ensures Among([x] + q, |keys|) && Sorted([x] + q, keys)
  {
  }

  lemma {:induction false} InsertSorted(q: Queue, x: nat, keys: seq<int>)
    requires Among(q, |keys|) && x < |keys| && Sorted(q, keys)
    ensures Among(Insert(q, x, keys), |keys|) && Sorted(Insert(q, x, keys), keys)
  {
    if q != [] && keys[x] > keys[q[0]] {
      var r := Insert(q[1..], x, keys);
      InsertSorted(q[1..], x, keys);
      InsertIn(q[1..], x, keys);
      forall i | 0 <= i < |r| ensures keys[q[0]] <= keys[r[i]] {
        assert r[i] in r;
      }
      SortedBefore(q[0], r, keys);
    } else if q != [] {
      SortedBefore(x, q, keys);
    }
  }

  /** The keys of others do not matter. */
  lemma SortedAlike(q: Queue, keys: seq<int>, keys': seq<int>)
    requires Among(q, |keys|) && |keys'| == |keys| && Sorted(q, keys)
    requires forall i :: 0 <= i < |q| ==> keys'[q[i]] == keys[q[i]]
    ensures Sorted(q, keys')
  {
  }

  /** Every TCB is in the ready queue once or, a zombie, out of it; the queue goes by
      deadline. */
  ghost predicate ReadyOk(tcbs: seq<Tcb>, ready: Queue) {
    && Among(ready, |tcbs|) && Once(ready)
    && (forall x :: 0 <= x < |tcbs| ==> (tcbs[x].zombie <==> x !in ready))
    && Sorted(ready, Deadlines(tcbs))
  }

  /** Every periodic TCB is in the arrival queue once, and event-driven ones that are not
      ready may be; the queue goes by time. */
  ghost predicate ArrivalsOk(tcbs: seq<Tcb>, arrivals: Queue) {
    && Among(arrivals, |tcbs|) && Once(arrivals)
    && (forall x :: 0 <= x < |tcbs| && !tcbs[x].blocking ==> x in arrivals)
    && (forall x :: 0 <= x < |tcbs| && x in arrivals ==> Waits(tcbs[x]))
    && Sorted(arrivals, Times(tcbs))
  }

  /** A TCB fit for the arrival queue. */
  predicate Waits(t: Tcb) {
    (t.blocking ==> t.zombie) && t.Timing() && t.Normal() && t.InTime()
  }

  /** Each periodic task's next arrival, in absolute time, is as many periods from the start
      as it had releases. */
  ghost predicate OnGrid(tcbs: seq<Tcb>, served: seq<nat>, epoch: nat) {
    && |served| == |tcbs|
    && forall x :: 0 <= x < |tcbs| && !tcbs[x].blocking ==>
         epoch * WRAP + tcbs[x].Time() == Product(served[x], tcbs[x].Period())
  }

  /** The deadline of an instance under way, in absolute time, is that of its own release,
      whatever releases were skipped since. */
  ghost predicate DueOnGrid(tcbs: seq<Tcb>, served: seq<nat>, started: seq<nat>, epoch: nat) {
    && |served| == |started| == |tcbs|
    && forall x :: 0 <= x < |tcbs| && !tcbs[x].blocking && !tcbs[x].zombie ==>
         && started[x] < served[x]
         && epoch * WRAP + tcbs[x].deadline == Product(started[x], tcbs[x].Period()) + tcbs[x].length
  }

  /** n p, by repeated addition. */
  function Product(n: nat, p: int): int {
    if n == 0 then 0 else Product(n - 1, p) + p
  }

  lemma {:induction false} ProductIs(n: nat, p: int)
    ensures Product(n, p) == n * p
  {
    if n > 0 {
      ProductIs(n - 1, p);
    }
  }

  ghost predicate Valid(v: View) {
    ReadyOk(v.tcbs, v.ready) && ArrivalsOk(v.tcbs, v.arrivals) && OnGrid(v.tcbs, v.served, v.epoch)
    && DueOnGrid(v.tcbs, v.served, v.started, v.epoch)
  }

  // One TCB changed, the rest as they were

  lemma ReadyInsert(tcbs: seq<Tcb>, ready: Queue, x: nat, t: Tcb)
    requires ReadyOk(tcbs, ready) && x < |tcbs| && tcbs[x].zombie && !t.zombie
    ensures ReadyOk(tcbs[x := t], Insert(ready, x, Deadlines(tcbs[x := t])))
  {
    var keys := Deadlines(tcbs[x := t]);
    SortedAlike(ready, Deadlines(tcbs), keys);
    InsertIn(ready, x, keys);
    InsertSorted(ready, x, keys);
  }

  lemma ReadySame(tcbs: seq<Tcb>, ready: Queue, x: nat, t: Tcb)
    requires ReadyOk(tcbs, ready) && x < |tcbs| && tcbs[x].zombie == t.zombie
    requires tcbs[x].zombie || tcbs[x].deadline == t.deadline
    ensures ReadyOk(tcbs[x := t], ready)
  {
    SortedAlike(ready, Deadlines(tcbs), Deadlines(tcbs[x := t]));
  }

  lemma ArrivalInsert(tcbs: seq<Tcb>, arrivals: Queue, x: nat, t: Tcb)
    requires Among(arrivals, |tcbs|) && Once(arrivals) && Sorted(arrivals, Times(tcbs))
    requires forall y :: 0 <= y < |tcbs| && y != x && !tcbs[y].blocking ==> y in arrivals
    requires forall y :: 0 <= y < |tcbs| && y in arrivals ==> Waits(tcbs[y])
    requires x < |tcbs| && x !in arrivals && Waits(t)
    ensures ArrivalsOk(tcbs[x := t], Insert(arrivals, x, Times(tcbs[x := t])))
  {
    var keys := Times(tcbs[x := t]);
    SortedAlike(arrivals, Times(tcbs), keys);
    InsertIn(arrivals, x, keys);
    InsertSorted(arrivals, x, keys);
  }

  lemma ArrivalPop(tcbs: seq<Tcb>, arrivals: Queue)
    requires ArrivalsOk(tcbs, arrivals) && arrivals != []
    ensures var x, rest := arrivals[0], arrivals[1..];
      && Among(rest, |tcbs|) && Once(rest) && Sorted(rest, Times(tcbs)) && x !in rest
      && (forall y :: 0 <= y < |tcbs| && y != x && !tcbs[y].blocking ==> y in rest)
      && (forall y :: 0 <= y < |tcbs| && y in rest ==> Waits(tcbs[y]))
      && Waits(tcbs[x])
  {
    OnceTail(arrivals);
    assert arrivals[0] in arrivals;
  }

  lemma ArrivalGone(tcbs: seq<Tcb>, arrivals: Queue, t: Tcb)
    requires ArrivalsOk(tcbs, arrivals) && arrivals != [] && t.blocking
    ensures ArrivalsOk(tcbs[arrivals[0] := t], arrivals[1..])
  {
    ArrivalPop(tcbs, arrivals);
    SortedAlike(arrivals[1..], Times(tcbs), Times(tcbs[arrivals[0] := t]));
  }

  // The release of the head of the arrival queue

  /** A TCB released: an instance under way goes on as it is. */
  function Released(t: Tcb, server: int): Tcb {
    if !t.zombie then t.Next()
    else if t.blocking then t.(zombie := false, deadline := server)
    else t.(zombie := false, deadline := t.low + t.length).Next()
  }

  function ServerAfter(t: Tcb, server: int, now: int): int {
    if t.blocking && t.zombie then Server.NextDeadline(server, now, if t.length < 0 then 0 else t.length) else server
  }

  /** An event-driven task leaves the arrival queue; a periodic one is put back. */
  function NewArrivals(tcbs: seq<Tcb>, arrivals: Queue, t: Tcb): Queue
    requires arrivals != [] && Among(arrivals, |tcbs|)
  {
    if t.blocking then arrivals[1..]
    else Insert(arrivals[1..], arrivals[0], Times(tcbs[arrivals[0] := t]))
  }

  function NewReady(tcbs: seq<Tcb>, ready: Queue, x: nat, t: Tcb): Queue
    requires x < |tcbs| && Among(ready, |tcbs|)
  {
    if tcbs[x].zombie then Insert(ready, x, Deadlines(tcbs[x := t])) else ready
  }

  /** The queues name TCBs. */
  ghost predicate Numbered(v: View) {
    Among(v.arrivals, |v.tcbs|) && Among(v.ready, |v.tcbs|) && |v.served| == |v.started| == |v.tcbs|
  }

  /** The queues once the first arrival has become t. */
  function Replaced(v: View, t: Tcb, server: int): View
    requires Numbered(v) && v.arrivals != []
  {
    var x := v.arrivals[0];
    View(v.tcbs[x := t], NewArrivals(v.tcbs, v.arrivals, t), NewReady(v.tcbs, v.ready, x, t), server,
         v.epoch, v.served[x := v.served[x] + 1], NewStarted(v.tcbs[x], v.served, v.started, x))
  }

  function NewStarted(t: Tcb, served: seq<nat>, started: seq<nat>, x: nat): seq<nat>
    requires |served| == |started| && x < |served|
  {
    if t.zombie then started[x := served[x]] else started
  }

  /** The release of the first arrival, skipped when it overruns. */
  function Release(v: View, now: int): View
    requires Numbered(v) && v.arrivals != []
  {
    var t := v.tcbs[v.arrivals[0]];
    var server := ServerAfter(t, v.server, now);
    Replaced(v, Released(t, server), server)
  }

  /** A release, part by part. */
  lemma ReleaseParts(v: View, now: int, t: Tcb, r: View)
    requires Numbered(v) && v.arrivals != [] && r.epoch == v.epoch
    requires r.server == ServerAfter(v.tcbs[v.arrivals[0]], v.server, now)
    requires t == Released(v.tcbs[v.arrivals[0]], r.server)
    requires var x := v.arrivals[0];
      && r.tcbs == v.tcbs[x := t] && r.arrivals == NewArrivals(v.tcbs, v.arrivals, t)
      && r.ready == NewReady(v.tcbs, v.ready, x, t)
      && r.served == v.served[x := v.served[x] + 1] && r.started == NewStarted(v.tcbs[x], v.served, v.started, x)
    ensures r == Release(v, now)
  {
  }

  /** What serving the first arrival relies on. */
  ghost predicate Servable(v: View) {
    && Numbered(v) && Once(v.arrivals)
    && (forall i :: 0 <= i < |v.arrivals| ==> v.tcbs[v.arrivals[i]].Normal())
    && (v.arrivals != [] ==> Waits(v.tcbs[v.arrivals[0]]))
  }

  lemma ValidIsServable(v: View)
    requires Valid(v)
    ensures Servable(v)
  {
    assert forall i :: 0 <= i < |v.arrivals| ==> v.arrivals[i] in v.arrivals;
  }

  lemma ReleasedIs(t: Tcb, server: int, now: int)
    requires Waits(t) && t.Due(now)
    ensures After(t, Released(t, server))
  {
    if !t.blocking {
      NextAddsPeriod(t);
    }
  }

  lemma ReleaseKeepsGrid(v: View, x: nat, t: Tcb)
    requires OnGrid(v.tcbs, v.served, v.epoch) && x < |v.tcbs| && t.blocking == v.tcbs[x].blocking
    requires !t.blocking ==> t.Time() == v.tcbs[x].Time() + t.Period() && t.Period() == v.tcbs[x].Period()
    ensures OnGrid(v.tcbs[x := t], v.served[x := v.served[x] + 1], v.epoch)
  {
  }

  lemma ReleaseKeepsDue(v: View, x: nat, t: Tcb)
    requires OnGrid(v.tcbs, v.served, v.epoch) && DueOnGrid(v.tcbs, v.served, v.started, v.epoch) && x < |v.tcbs|
    requires After(v.tcbs[x], t)
    ensures DueOnGrid(v.tcbs[x := t], v.served[x := v.served[x] + 1],
                      NewStarted(v.tcbs[x], v.served, v.started, x), v.epoch)
  {
  }

  lemma NewArrivalsOk(tcbs: seq<Tcb>, arrivals: Queue, t: Tcb)
    requires ArrivalsOk(tcbs, arrivals) && arrivals != [] && (!t.blocking ==> Waits(t))
    ensures ArrivalsOk(tcbs[arrivals[0] := t], NewArrivals(tcbs, arrivals, t))
  {
    if t.blocking {
      ArrivalGone(tcbs, arrivals, t);
    } else {
      ArrivalPop(tcbs, arrivals);
      ArrivalInsert(tcbs, arrivals[1..], arrivals[0], t);
    }
  }

  lemma NewReadyOk(tcbs: seq<Tcb>, ready: Queue, x: nat, t: Tcb)
    requires ReadyOk(tcbs, ready) && x < |tcbs| && !t.zombie && (!tcbs[x].zombie ==> t.deadline == tcbs[x].deadline)
    ensures ReadyOk(tcbs[x := t], NewReady(tcbs, ready, x, t))
  {
    if tcbs[x].zombie {
      ReadyInsert(tcbs, ready, x, t);
    } else {
      ReadySame(tcbs, ready, x, t);
    }
  }

  /** What a release may make of a TCB. */
  predicate After(t: Tcb, t': Tcb) {
    && !t'.zombie && t'.blocking == t.blocking && t'.Period() == t.Period() && t'.length == t.length
    && (!t.zombie ==> t'.deadline == t.deadline)
    && (t.zombie && !t.blocking ==> t'.deadline == t.Time() + t.length)
    && (!t.blocking ==> Waits(t') && t'.Time() == t.Time() + t.Period())
  }

  lemma ReplacedQueues(v: View, t: Tcb, server: int)
    requires Valid(v) && v.arrivals != [] && After(v.tcbs[v.arrivals[0]], t)
    ensures var r := Replaced(v, t, server); ReadyOk(r.tcbs, r.ready) && ArrivalsOk(r.tcbs, r.arrivals)
  {
    NewReadyOk(v.tcbs, v.ready, v.arrivals[0], t);
    NewArrivalsOk(v.tcbs, v.arrivals, t);
  }

  lemma ReplacedGrid(v: View, t: Tcb, server: int)
    requires Numbered(v) && v.arrivals != [] && After(v.tcbs[v.arrivals[0]], t)
    requires OnGrid(v.tcbs, v.served, v.epoch) && DueOnGrid(v.tcbs, v.served, v.started, v.epoch)
    ensures var r := Replaced(v, t, server);
      OnGrid(r.tcbs, r.served, r.epoch) && DueOnGrid(r.tcbs, r.served, r.started, r.epoch)
  {
    ReleaseKeepsGrid(v, v.arrivals[0], t);
    ReleaseKeepsDue(v, v.arrivals[0], t);
  }

  lemma ReplacedValid(v: View, t: Tcb, server: int)
    requires Valid(v) && v.arrivals != [] && After(v.tcbs[v.arrivals[0]], t)
    ensures Valid(Replaced(v, t, server))
  {
    ReplacedQueues(v, t, server);
    ReplacedGrid(v, t, server);
  }

  lemma ReleaseKeeps(v: View, now: int)
    requires Valid(v) && v.arrivals != [] && v.tcbs[v.arrivals[0]].Due(now)
    ensures Valid(Release(v, now))
  {
    var t := v.tcbs[v.arrivals[0]];
    assert v.arrivals[0] in v.arrivals;
    var server := ServerAfter(t, v.server, now);
    ReleasedIs(t, server, now);
    ReplacedValid(v, Released(t, server), server);
  }

  // A pass of the handler over the arrivals due

  /** How far in all the arrivals are behind a time. */
  function Behind(q: Queue, keys: seq<int>, now: int): nat
    requires Among(q, |keys|)
  {
    if q == [] then 0 else Max0(now + 1 - keys[q[0]]) + Behind(q[1..], keys, now)
  }

  lemma {:induction false} InsertBehind(q: Queue, x: nat, keys: seq<int>, now: int)
    requires Among(q, |keys|) && x < |keys|
    ensures Among(Insert(q, x, keys), |keys|)
    ensures Behind(Insert(q, x, keys), keys, now) == Behind(q, keys, now) + Max0(now + 1 - keys[x])
  {
    if q != [] && keys[x] > keys[q[0]] {
      InsertBehind(q[1..], x, keys, now);
    }
  }

  lemma {:induction false} BehindAlike(q: Queue, keys: seq<int>, keys': seq<int>, now: int)
    requires Among(q, |keys|) && |keys'| == |keys|
    requires forall i :: 0 <= i < |q| ==> keys'[q[i]] == keys[q[i]]
    ensures Behind(q, keys', now) == Behind(q, keys, now)
  {
    if q != [] {
      forall i | 0 <= i < |q[1..]| ensures keys'[q[1..][i]] == keys[q[1..][i]] {
        assert q[1..][i] == q[i + 1];
      }
      BehindAlike(q[1..], keys, keys', now);
    }
  }

  function Lag(v: View, now: int): nat
    requires Valid(v)
  {
    Behind(v.arrivals, Times(v.tcbs), now)
  }

  /** Serving the first arrival due brings the arrivals forward. */
  lemma ReplacedAhead(v: View, t: Tcb, server: int, now: int)
    requires Valid(v) && v.arrivals != [] && v.tcbs[v.arrivals[0]].Due(now)
    requires After(v.tcbs[v.arrivals[0]], t) && Waits(v.tcbs[v.arrivals[0]]) && Valid(Replaced(v, t, server))
    ensures Lag(Replaced(v, t, server), now) < Lag(v, now)
  {
    ArrivalsAhead(v.tcbs, v.arrivals, t, now);
  }

  lemma ArrivalsAhead(tcbs: seq<Tcb>, arrivals: Queue, t: Tcb, now: int)
    requires ArrivalsOk(tcbs, arrivals) && arrivals != [] && tcbs[arrivals[0]].Due(now)
    requires After(tcbs[arrivals[0]], t) && Waits(tcbs[arrivals[0]])
    ensures var keys := Times(tcbs[arrivals[0] := t]);
      Among(NewArrivals(tcbs, arrivals, t), |keys|)
      && Behind(NewArrivals(tcbs, arrivals, t), keys, now) < Behind(arrivals, Times(tcbs), now)
  {
    var x, rest := arrivals[0], arrivals[1..];
    var keys := Times(tcbs[x := t]);
    OnceTail(arrivals);
    BehindAlike(rest, Times(tcbs), keys, now);
    assert tcbs[x].Time() <= now;
    if !t.blocking {
      InsertBehind(rest, x, keys, now);
    }
  }

  lemma ReleaseAhead(v: View, now: int)
    requires Valid(v) && v.arrivals != [] && v.tcbs[v.arrivals[0]].Due(now)
    ensures Valid(Release(v, now)) && Lag(Release(v, now), now) < Lag(v, now)
  {
    ReleaseKeeps(v, now);
    var t := v.tcbs[v.arrivals[0]];
    assert v.arrivals[0] in v.arrivals;
    var server := ServerAfter(t, v.server, now);
    ReleasedIs(t, server, now);
    ReplacedAhead(v, Released(t, server), server, now);
  }

  /** The pass ends, the queues in order. */
  function Serve(v: View, now: int): (r: View)
    requires Valid(v)
    ensures Valid(r)
    decreases Lag(v, now)
  {
    if v.arrivals == [] || !v.tcbs[v.arrivals[0]].Due(now) then v
    else
      ReleaseAhead(v, now);
      Serve(Release(v, now), now)
  }

  /** When the first arrival is not due, none is. */
  lemma FirstNotDue(tcbs: seq<Tcb>, arrivals: Queue, now: int)
    requires ArrivalsOk(tcbs, arrivals) && 0 <= now < WRAP
    requires arrivals != [] ==> Waits(tcbs[arrivals[0]]) && !tcbs[arrivals[0]].Due(now)
    ensures forall i :: 0 <= i < |arrivals| ==> tcbs[arrivals[i]].Time() > now
  {
    var keys := Times(tcbs);
    forall i | 0 <= i < |arrivals| ensures tcbs[arrivals[i]].Time() > now {
      assert keys[arrivals[0]] <= keys[arrivals[i]];
    }
  }

  /** After a pass no arrival is due. */
  lemma {:induction false} ServedAll(v: View, now: int)
    requires Valid(v) && 0 <= now < WRAP
    ensures NoneDue(Serve(v, now), now)
    decreases Lag(v, now)
  {
    if v.arrivals == [] || !v.tcbs[v.arrivals[0]].Due(now) {
      assert v.arrivals != [] ==> v.arrivals[0] in v.arrivals;
      FirstNotDue(v.tcbs, v.arrivals, now);
    } else {
      ReleaseAhead(v, now);
      ServedAll(Release(v, now), now);
    }
  }

  /** An instance under way, and its deadline, are as they were. */
  predicate GoesOn(t: Tcb, t': Tcb) {
    !t.zombie ==> !t'.zombie && t'.deadline == t.deadline
  }

  /** A release changes no instance under way. */
  lemma ReleaseGoesOn(v: View, now: int, x: nat)
    requires Valid(v) && v.arrivals != [] && v.tcbs[v.arrivals[0]].Due(now) && x < |v.tcbs|
    ensures var r := Release(v, now);
      |r.tcbs| == |v.tcbs| && r.epoch == v.epoch && GoesOn(v.tcbs[x], r.tcbs[x])
  {
    var t := v.tcbs[v.arrivals[0]];
    assert v.arrivals[0] in v.arrivals;
    ReleasedIs(t, ServerAfter(t, v.server, now), now);
  }

  /** Nor does a whole pass: a release that finds its instance unfinished is skipped. */
  lemma {:induction false} ServeGoesOn(v: View, now: int, x: nat)
    requires Valid(v) && x < |v.tcbs|
    ensures var r := Serve(v, now);
      |r.tcbs| == |v.tcbs| && r.epoch == v.epoch && GoesOn(v.tcbs[x], r.tcbs[x])
    decreases Lag(v, now)
  {
    if v.arrivals != [] && v.tcbs[v.arrivals[0]].Due(now) {
      ReleaseAhead(v, now);
      ReleaseGoesOn(v, now, x);
      ServeGoesOn(Release(v, now), now, x);
    }
  }

  /** No arrival is due. */
  ghost predicate NoneDue(v: View, now: int)
    requires Valid(v)
  {
    forall i :: 0 <= i < |v.arrivals| ==> v.tcbs[v.arrivals[i]].Time() > now
  }

  /** A pass leaves alone the tasks not in the arrival queue. */
  lemma {:induction false} ServeOthers(v: View, now: int, x: nat)
    requires Valid(v) && x < |v.tcbs| && x !in v.arrivals
    ensures var r := Serve(v, now);
      |r.tcbs| == |v.tcbs| && r.tcbs[x] == v.tcbs[x] && x !in r.arrivals
    decreases Lag(v, now)
  {
    if v.arrivals != [] && v.tcbs[v.arrivals[0]].Due(now) {
      ReleaseAhead(v, now);
      var t := v.tcbs[v.arrivals[0]];
      var server := ServerAfter(t, v.server, now);
      OnceTail(v.arrivals);
      InsertIn(v.arrivals[1..], v.arrivals[0], Times(v.tcbs[v.arrivals[0] := Released(t, server)]));
      ServeOthers(Release(v, now), now, x);
    }
  }

  // A wraparound of the clock

  function Wrapped(v: View): View {
    View(seq(|v.tcbs|, x requires 0 <= x < |v.tcbs| => v.tcbs[x].Shift(x in v.arrivals, x in v.ready)),
         v.arrivals, v.ready, Server.SubOrZero(v.server, WRAP), v.epoch + 1, v.served, v.started)
  }

  /** An event-driven instance past its deadline comes before a periodic one past its own: the
      clamp puts the one behind the other. */
  ghost predicate LateEventFirst(v: View)
    requires Among(v.ready, |v.tcbs|)
  {
    exists i, j :: 0 <= i < j < |v.ready| && Late(v.tcbs[v.ready[i]], true) && Late(v.tcbs[v.ready[j]], false)
  }

  predicate Late(t: Tcb, blocking: bool) {
    t.blocking == blocking && t.deadline < WRAP
  }

  /** A task of a period of a turn or more is no later than its remainder. */
  predicate WrapsInTime(t: Tcb) {
    !t.blocking && t.periodHigh > 0 && t.high == 0 ==> t.low + t.periodLow >= WRAP
  }

  /** What a wraparound needs to keep the queues, no more and no less. */
  ghost predicate CanWrap(v: View) {
    && (forall x :: 0 <= x < |v.tcbs| ==> WrapsInTime(v.tcbs[x]))
    && Among(v.ready, |v.tcbs|) && !LateEventFirst(v)
  }

  /** The ready queue keeps its order exactly when no late event-driven instance is before a
      late periodic one. */
  lemma WrappedOrder(v: View)
    requires ReadyOk(v.tcbs, v.ready)
    ensures |Wrapped(v).tcbs| == |v.tcbs|
    ensures Sorted(v.ready, Deadlines(Wrapped(v).tcbs)) <==> !LateEventFirst(v)
  {
    var tcbs := Wrapped(v).tcbs;
    forall i | 0 <= i < |v.ready| ensures Clamped(v.tcbs[v.ready[i]], tcbs[v.ready[i]].deadline) {
      assert v.ready[i] in v.ready;
    }
    ClampedOrder(v.ready, v.tcbs, Deadlines(tcbs));
  }

  predicate Clamped(t: Tcb, deadline: int) {
    deadline == if t.blocking then Server.SubOrZero(t.deadline, WRAP) else t.deadline - WRAP
  }

  lemma ClampedOrder(q: Queue, tcbs: seq<Tcb>, keys: seq<int>)
    requires Among(q, |tcbs|) && |keys| == |tcbs| && Sorted(q, Deadlines(tcbs))
    requires forall i :: 0 <= i < |q| ==> Clamped(tcbs[q[i]], keys[q[i]])
    ensures Sorted(q, keys) <==>
      !exists i, j :: 0 <= i < j < |q| && Late(tcbs[q[i]], true) && Late(tcbs[q[j]], false)
  {
    var was := Deadlines(tcbs);
    if i, j :| 0 <= i < j < |q| && Late(tcbs[q[i]], true) && Late(tcbs[q[j]], false) {
      assert keys[q[i]] > keys[q[j]];
    } else {
      forall i, j | 0 <= i < j < |q| ensures keys[q[i]] <= keys[q[j]] {
        assert was[q[i]] <= was[q[j]];
        assert !(Late(tcbs[q[i]], true) && Late(tcbs[q[j]], false));
      }
    }
  }

  /** The shift of one TCB moves its times by one turn. */
  lemma ShiftMoves(t: Tcb, ready: bool)
    requires Waits(t)
    ensures Waits(t.Shift(true, ready)) <==> WrapsInTime(t)
    ensures t.Shift(true, ready).Time() == t.Time() - WRAP
  {
  }

  lemma ShiftArrivals(tcbs: seq<Tcb>, tcbs': seq<Tcb>, arrivals: Queue)
    requires ArrivalsOk(tcbs, arrivals) && |tcbs'| == |tcbs|
    requires forall x :: 0 <= x < |tcbs| ==> tcbs'[x].blocking == tcbs[x].blocking
    requires forall x :: 0 <= x < |tcbs| && x in arrivals ==>
               Waits(tcbs'[x]) && tcbs'[x].Time() == tcbs[x].Time() - WRAP
    ensures ArrivalsOk(tcbs', arrivals)
  {
    SortedShifted(arrivals, Times(tcbs), Times(tcbs'));
  }

  lemma ShiftGrid(tcbs: seq<Tcb>, tcbs': seq<Tcb>, served: seq<nat>, epoch: nat)
    requires OnGrid(tcbs, served, epoch) && |tcbs'| == |tcbs|
    requires forall x :: 0 <= x < |tcbs| ==>
      tcbs'[x].blocking == tcbs[x].blocking && tcbs'[x].Period() == tcbs[x].Period()
    requires forall x :: 0 <= x < |tcbs| && !tcbs[x].blocking ==> tcbs'[x].Time() == tcbs[x].Time() - WRAP
    ensures OnGrid(tcbs', served, epoch + 1)
  {
  }

  lemma ShiftDue(tcbs: seq<Tcb>, tcbs': seq<Tcb>, served: seq<nat>, started: seq<nat>, epoch: nat)
    requires DueOnGrid(tcbs, served, started, epoch) && |tcbs'| == |tcbs|
    requires forall x :: 0 <= x < |tcbs| ==>
      && tcbs'[x].blocking == tcbs[x].blocking && tcbs'[x].Period() == tcbs[x].Period()
      && tcbs'[x].length == tcbs[x].length && tcbs'[x].zombie == tcbs[x].zombie
      && (!tcbs[x].zombie && !tcbs[x].blocking ==> tcbs'[x].deadline == tcbs[x].deadline - WRAP)
    ensures DueOnGrid(tcbs', served, started, epoch + 1)
  {
  }

  lemma WrappedTimes(v: View, x: nat)
    requires Valid(v) && x < |v.tcbs| && x in v.arrivals
    ensures var t := Wrapped(v).tcbs[x];
      (Waits(t) <==> WrapsInTime(v.tcbs[x])) && t.Time() == v.tcbs[x].Time() - WRAP
  {
    ShiftMoves(v.tcbs[x], x in v.ready);
  }

  /** What a wraparound makes of a TCB. */
  predicate Shifted(t: Tcb, t': Tcb, ready: bool) {
    && t'.zombie == t.zombie && t'.blocking == t.blocking && t'.Period() == t.Period() && t'.length == t.length
    && (ready ==> t'.deadline == if t.blocking then Server.SubOrZero(t.deadline, WRAP) else t.deadline - WRAP)
  }

  lemma WrappedFields(v: View, x: nat)
    requires x < |v.tcbs|
    ensures Shifted(v.tcbs[x], Wrapped(v).tcbs[x], x in v.ready)
  {
  }

  lemma WrapMoves(v: View)
    requires Valid(v)
    ensures forall x :: 0 <= x < |v.tcbs| && x in v.arrivals ==>
      && (Waits(Wrapped(v).tcbs[x]) <==> WrapsInTime(v.tcbs[x]))
      && Wrapped(v).tcbs[x].Time() == v.tcbs[x].Time() - WRAP
    ensures forall x :: 0 <= x < |v.tcbs| ==> Shifted(v.tcbs[x], Wrapped(v).tcbs[x], x in v.ready)
  {
    forall x | 0 <= x < |v.tcbs| && x in v.arrivals
      ensures Waits(Wrapped(v).tcbs[x]) <==> WrapsInTime(v.tcbs[x])
      ensures Wrapped(v).tcbs[x].Time() == v.tcbs[x].Time() - WRAP
    {
      WrappedTimes(v, x);
    }
    forall x | 0 <= x < |v.tcbs| ensures Shifted(v.tcbs[x], Wrapped(v).tcbs[x], x in v.ready) {
      WrappedFields(v, x);
    }
  }

  lemma WrapValid(v: View)
    requires Valid(v) && CanWrap(v)
    ensures Valid(Wrapped(v))
  {
    var tcbs := Wrapped(v).tcbs;
    WrapMoves(v);
    WrappedOrder(v);
    ShiftArrivals(v.tcbs, tcbs, v.arrivals);
    ShiftGrid(v.tcbs, tcbs, v.served, v.epoch);
    ShiftDue(v.tcbs, tcbs, v.served, v.started, v.epoch);
  }

  lemma WrapInvalid(v: View)
    requires Valid(v) && Valid(Wrapped(v))
    ensures CanWrap(v)
  {
    WrapMoves(v);
    WrappedOrder(v);
    forall x | 0 <= x < |v.tcbs| ensures WrapsInTime(v.tcbs[x]) {
      assert !v.tcbs[x].blocking ==> x in v.arrivals && Waits(Wrapped(v).tcbs[x]);
    }
  }

  /** A wraparound keeps the queues exactly under its condition; it changes no absolute time
      of an arrival, nor the deadline of an instance but to clamp one that is late. */
  lemma WrapKeeps(v: View)
    requires Valid(v)
    ensures Valid(Wrapped(v)) <==> CanWrap(v)
    ensures forall x :: 0 <= x < |v.tcbs| && x in v.arrivals ==>
      Wrapped(v).tcbs[x].Time() == v.tcbs[x].Time() - WRAP
    ensures forall x :: 0 <= x < |v.tcbs| ==> Shifted(v.tcbs[x], Wrapped(v).tcbs[x], x in v.ready)
  {
    WrapMoves(v);
    if CanWrap(v) {
      WrapValid(v);
    } else if Valid(Wrapped(v)) {
      WrapInvalid(v);
    }
  }

  lemma SortedShifted(q: Queue, keys: seq<int>, keys': seq<int>)
    requires Among(q, |keys|) && |keys'| == |keys| && Sorted(q, keys)
    requires forall i :: 0 <= i < |q| ==> keys'[q[i]] == keys[q[i]] - WRAP
    ensures Sorted(q, keys')
  {
  }

  // Ends and signals

  /** The task at the head of the ready queue ends, or suspends itself. */
  function Ended(v: View): View
    requires v.ready != [] && Among(v.ready, |v.tcbs|)
  {
    v.(tcbs := v.tcbs[v.ready[0] := v.tcbs[v.ready[0]].(zombie := true)], ready := v.ready[1..])
  }

  lemma EndReady(tcbs: seq<Tcb>, ready: Queue, t: Tcb)
    requires ReadyOk(tcbs, ready) && ready != [] && t.zombie
    ensures ReadyOk(tcbs[ready[0] := t], ready[1..])
  {
    OnceTail(ready);
    SortedAlike(ready[1..], Deadlines(tcbs), Deadlines(tcbs[ready[0] := t]));
  }

  lemma EndArrivals(tcbs: seq<Tcb>, arrivals: Queue, x: nat)
    requires ArrivalsOk(tcbs, arrivals) && x < |tcbs|
    ensures ArrivalsOk(tcbs[x := tcbs[x].(zombie := true)], arrivals)
  {
    SortedAlike(arrivals, Times(tcbs), Times(tcbs[x := tcbs[x].(zombie := true)]));
  }

  lemma EndGrid(tcbs: seq<Tcb>, served: seq<nat>, started: seq<nat>, epoch: nat, x: nat)
    requires OnGrid(tcbs, served, epoch) && DueOnGrid(tcbs, served, started, epoch) && x < |tcbs|
    ensures var tcbs' := tcbs[x := tcbs[x].(zombie := true)];
      OnGrid(tcbs', served, epoch) && DueOnGrid(tcbs', served, started, epoch)
  {
  }

  lemma EndKeeps(v: View)
    requires Valid(v) && v.ready != []
    ensures Valid(Ended(v))
  {
    EndReady(v.tcbs, v.ready, v.tcbs[v.ready[0]].(zombie := true));
    EndArrivals(v.tcbs, v.arrivals, v.ready[0]);
    EndGrid(v.tcbs, v.served, v.started, v.epoch, v.ready[0]);
  }

  /** EmptyRescheduleSynchronousTaskList, for one task: it waits for its previous deadline in
      the arrival queue, or is released at once. */
  function Signalled(v: View, x: nat, now: int): View
    requires Valid(v) && x < |v.tcbs|
  {
    var t := v.tcbs[x];
    if now < t.deadline then
      var tcbs := v.tcbs[x := t.(low := t.deadline)];
      v.(tcbs := tcbs, arrivals := Insert(v.arrivals, x, Times(tcbs)))
    else
      var server := Server.NextDeadline(v.server, now, Max0(t.length));
      var tcbs := v.tcbs[x := t.(zombie := false, deadline := server)];
      v.(tcbs := tcbs, ready := Insert(v.ready, x, Deadlines(tcbs)), server := server)
  }

  /** An event-driven task with no instance, neither waiting; its deadline fits 32 bits. */
  predicate CanSignal(v: View, x: nat) {
    && x < |v.tcbs| && v.tcbs[x].blocking && v.tcbs[x].zombie && x !in v.arrivals
    && v.tcbs[x].deadline < 2 * WRAP
  }

  lemma SignalKeeps(v: View, x: nat, now: int)
    requires Valid(v) && CanSignal(v, x)
    ensures Valid(Signalled(v, x, now))
  {
    var t := v.tcbs[x];
    if now < t.deadline {
      ArrivalInsert(v.tcbs, v.arrivals, x, t.(low := t.deadline));
      ReadySame(v.tcbs, v.ready, x, t.(low := t.deadline));
    } else {
      var t' := t.(zombie := false, deadline := Server.NextDeadline(v.server, now, Max0(t.length)));
      ReadyInsert(v.tcbs, v.ready, x, t');
      SortedAlike(v.arrivals, Times(v.tcbs), Times(v.tcbs[x := t']));
    }
  }

  /** A list of tasks to signal, each once. */
  ghost predicate CanSignalAll(v: View, list: seq<nat>) {
    && (forall i :: 0 <= i < |list| ==> CanSignal(v, list[i]))
    && (forall i, j :: 0 <= i < j < |list| ==> list[i] != list[j])
  }

  /** A TCB in no queue of later times changes. */
  lemma OthersLater(tcbs: seq<Tcb>, q: Queue, x: nat, t: Tcb, now: int)
    requires Among(q, |tcbs|) && x < |tcbs| && x !in q
    requires forall i :: 0 <= i < |q| ==> tcbs[q[i]].Time() > now
    ensures forall i :: 0 <= i < |q| ==> tcbs[x := t][q[i]].Time() > now
  {
  }

  lemma InsertLater(tcbs: seq<Tcb>, q: Queue, x: nat, t: Tcb, now: int)
    requires Among(q, |tcbs|) && x < |tcbs| && x !in q && t.Time() > now
    requires forall i :: 0 <= i < |q| ==> tcbs[q[i]].Time() > now
    ensures var r := Insert(q, x, Times(tcbs[x := t]));
      Among(r, |tcbs|) && forall i :: 0 <= i < |r| ==> tcbs[x := t][r[i]].Time() > now
  {
    var r := Insert(q, x, Times(tcbs[x := t]));
    InsertIn(q, x, Times(tcbs[x := t]));
    OthersLater(tcbs, q, x, t, now);
    forall i | 0 <= i < |r| ensures r[i] < |tcbs| && tcbs[x := t][r[i]].Time() > now {
      assert r[i] in r;
    }
  }

  lemma SignalKeepsNoneDue(v: View, x: nat, now: int)
    requires Valid(v) && CanSignal(v, x) && NoneDue(v, now)
    ensures Valid(Signalled(v, x, now)) && NoneDue(Signalled(v, x, now), now)
  {
    SignalKeeps(v, x, now);
    var t := v.tcbs[x];
    if now < t.deadline {
      InsertLater(v.tcbs, v.arrivals, x, t.(low := t.deadline), now);
    } else {
      OthersLater(v.tcbs, v.arrivals, x, Signalled(v, x, now).tcbs[x], now);
    }
  }

  lemma SignalOthers(v: View, list: seq<nat>, now: int)
    requires Valid(v) && list != [] && CanSignalAll(v, list)
    ensures CanSignalAll(Signalled(v, list[0], now), list[1..])
  {
    var x := list[0];
    if now < v.tcbs[x].deadline {
      InsertIn(v.arrivals, x, Times(Signalled(v, x, now).tcbs));
    }
  }

  /** EmptyRescheduleSynchronousTaskList: the tasks of the list, one after the other. */
  ghost function SignalledAll(v: View, list: seq<nat>, now: int): (r: View)
    requires Valid(v) && CanSignalAll(v, list)
    ensures Valid(r)
    decreases |list|
  {
    if list == [] then v
    else
      SignalKeeps(v, list[0], now);
      SignalOthers(v, list, now);
      SignalledAll(Signalled(v, list[0], now), list[1..], now)
  }

  lemma {:induction false} SignalledAllNoneDue(v: View, list: seq<nat>, now: int)
    requires Valid(v) && CanSignalAll(v, list) && NoneDue(v, now)
    ensures NoneDue(SignalledAll(v, list, now), now)
    decreases |list|
  {
    if list != [] {
      SignalKeepsNoneDue(v, list[0], now);
      SignalOthers(v, list, now);
      SignalledAllNoneDue(Signalled(v, list[0], now), list[1..], now);
    }
  }

  lemma WrapCanSignal(v: View, list: seq<nat>)
    requires Valid(v) && CanWrap(v) && CanSignalAll(v, list)
    ensures Valid(Wrapped(v)) && CanSignalAll(Wrapped(v), list)
  {
    WrapKeeps(v);
    forall i | 0 <= i < |list| ensures CanSignal(Wrapped(v), list[i]) {
      assert CanSignal(v, list[i]);
    }
  }

  lemma ServeCanSignal(v: View, list: seq<nat>, now: int)
    requires Valid(v) && CanSignalAll(v, list)
    ensures CanSignalAll(Serve(v, now), list)
  {
    forall i | 0 <= i < |list| ensures CanSignal(Serve(v, now), list[i]) {
      assert CanSignal(v, list[i]);
      ServeOthers(v, now, list[i]);
    }
  }

  /** The timer handler at a time: the shift when the clock has wrapped, the arrivals due, the
      tasks signalled. */
  ghost function Handled(v: View, overflow: bool, now: int, list: seq<nat>): (r: View)
    requires Valid(v) && (overflow ==> CanWrap(v)) && CanSignalAll(v, list)
    ensures Valid(r)
  {
    if overflow then
      WrapCanSignal(v, list);
      ServeCanSignal(Wrapped(v), list, now);
      SignalledAll(Serve(Wrapped(v), now), list, now)
    else
      ServeCanSignal(v, list, now);
      SignalledAll(Serve(v, now), list, now)
  }

  // Over whole runs

  datatype Event = Timer(now: int) | EndTask | Signal(task: nat, now: int) | Wrap

  /** As OSCreateTask and OSCreateSynchronousTask leave the TCBs: the first releases at 0. */
  ghost predicate Initial(v: View) {
    && v.ready == [] && v.epoch == 0 && v.server == 0 && |v.served| == |v.started| == |v.tcbs|
    && Among(v.arrivals, |v.tcbs|) && Once(v.arrivals)
    && (forall x :: 0 <= x < |v.tcbs| ==>
          && v.tcbs[x].zombie && v.tcbs[x].Timing() && v.served[x] == 0
          && (x in v.arrivals <==> !v.tcbs[x].blocking)
          && (v.tcbs[x].blocking ==> v.tcbs[x].deadline == 0)
          && (!v.tcbs[x].blocking ==> v.tcbs[x].high == 0 && v.tcbs[x].low == 0))
  }

  ghost predicate Possible(v: View, e: Event) {
    match e
    case Timer(now) => 0 <= now < WRAP
    case EndTask => v.ready != []
    case Signal(x, now) => CanSignal(v, x) && 0 <= now < WRAP
    case Wrap => CanWrap(v)
  }

  ghost function Step(v: View, e: Event): View
    requires Valid(v) && Possible(v, e)
  {
    match e
    case Timer(now) => Serve(v, now)
    case EndTask => Ended(v)
    case Signal(x, now) => Signalled(v, x, now)
    case Wrap => Wrapped(v)
  }

  ghost predicate Run(run: seq<View>, events: seq<Event>) {
    && |run| == |events| + 1 && Initial(run[0])
    && forall k :: 0 <= k < |events| ==>
         (Valid(run[k]) ==> Possible(run[k], events[k]) && run[k + 1] == Step(run[k], events[k]))
  }

  /** Every run of releases, overruns, ends, signals and wraparounds keeps the queues: each TCB
      once in the ready queue or a zombie out of it, the head of the earliest deadline, each
      periodic task once in the arrival queue, on its grid of releases. */
  lemma {:induction false} RunKeepsValid(run: seq<View>, events: seq<Event>, k: nat)
    requires Run(run, events) && k <= |events|
    ensures Valid(run[k])
  {
    if k > 0 {
      RunKeepsValid(run, events, k - 1);
      var v := run[k - 1];
      match events[k - 1]
      case Timer(now) =>
      case EndTask => EndKeeps(v);
      case Signal(x, now) => SignalKeeps(v, x, now);
      case Wrap => WrapKeeps(v);
    }
  }

  // Within 32 bits

  /** No arrival is further back than a time. */
  ghost predicate From(v: View, low: int) {
    forall x :: 0 <= x < |v.tcbs| && x in v.arrivals ==> v.tcbs[x].low >= low
  }

  /** The sums of a release: the deadline, and the next arrival before its carry. */
  predicate SumsFit(t: Tcb) {
    !t.blocking ==>
      && -2 * WRAP <= t.low + t.periodLow < 2 * WRAP
      && -2 * WRAP <= t.low + t.length < 2 * WRAP
  }

  /** In every release of a pass. */
  ghost predicate PassFits(v: View, now: int)
    requires Valid(v)
    decreases Lag(v, now)
  {
    v.arrivals != [] && v.tcbs[v.arrivals[0]].Due(now) ==>
      && SumsFit(v.tcbs[v.arrivals[0]])
      && (ReleaseAhead(v, now); PassFits(Release(v, now), now))
  }

  lemma ReleasedLow(t: Tcb, server: int, now: int, low: int)
    requires Waits(t) && t.Due(now) && t.low >= low && low <= 0
    ensures Released(t, server).low >= low
  {
  }

  lemma ReleaseFrom(v: View, now: int, low: int)
    requires Valid(v) && v.arrivals != [] && v.tcbs[v.arrivals[0]].Due(now) && From(v, low) && low <= 0
    ensures From(Release(v, now), low)
  {
    var x := v.arrivals[0];
    assert x in v.arrivals;
    var server := ServerAfter(v.tcbs[x], v.server, now);
    ReleasedLow(v.tcbs[x], server, now, low);
    ReplacedFrom(v, Released(v.tcbs[x], server), server, low);
  }

  lemma ReplacedFrom(v: View, t: Tcb, server: int, low: int)
    requires Valid(v) && v.arrivals != [] && From(v, low) && t.low >= low
    ensures From(Replaced(v, t, server), low)
  {
    var x := v.arrivals[0];
    OnceTail(v.arrivals);
    InsertIn(v.arrivals[1..], x, Times(v.tcbs[x := t]));
  }

  lemma {:induction false} FromFits(v: View, now: int)
    requires Valid(v) && From(v, -WRAP)
    ensures PassFits(v, now)
    decreases Lag(v, now)
  {
    if v.arrivals != [] && v.tcbs[v.arrivals[0]].Due(now) {
      assert v.arrivals[0] in v.arrivals && Waits(v.tcbs[v.arrivals[0]]);
      ReleaseAhead(v, now);
      ReleaseFrom(v, now, -WRAP);
      FromFits(Release(v, now), now);
    }
  }

  /** Whether a pass was made since the last wraparound, or the start. */
  predicate Passed(events: seq<Event>) {
    events == [] ||
    var last := |events| - 1;
    !events[last].Wrap? && (events[last].Timer? || Passed(events[..last]))
  }

  /** A pass at least is made in each turn of the clock. */
  ghost predicate OncePerTurn(events: seq<Event>) {
    forall k :: 0 <= k < |events| && events[k].Wrap? ==> Passed(events[..k])
  }

  lemma ServeFrom(v: View, now: int)
    requires Valid(v) && 0 <= now < WRAP
    ensures From(Serve(v, now), 0)
  {
    ServedAll(v, now);
    var r := Serve(v, now);
    forall x | 0 <= x < |r.tcbs| && x in r.arrivals ensures r.tcbs[x].low >= 0 {
      var i :| 0 <= i < |r.arrivals| && r.arrivals[i] == x;
      assert r.tcbs[r.arrivals[i]].Time() > now && Waits(r.tcbs[x]);
    }
  }

  lemma SignalFrom(v: View, x: nat, now: int, low: int)
    requires Valid(v) && CanSignal(v, x) && 0 <= now && From(v, low) && low <= 0
    ensures From(Signalled(v, x, now), low)
  {
    if now < v.tcbs[x].deadline {
      InsertIn(v.arrivals, x, Times(Signalled(v, x, now).tcbs));
    }
  }

  lemma WrapFrom(v: View)
    requires Valid(v) && From(v, 0)
    ensures From(Wrapped(v), -WRAP)
  {
    forall x | 0 <= x < |v.tcbs| && x in v.arrivals ensures Wrapped(v).tcbs[x].low >= -WRAP {
      assert v.tcbs[x].low >= 0;
    }
  }

  lemma StepFrom(v: View, e: Event, passed: bool)
    requires Valid(v) && Possible(v, e) && From(v, if passed then 0 else -WRAP) && (e.Wrap? ==> passed)
    ensures From(Step(v, e), if e.Timer? || (passed && !e.Wrap?) then 0 else -WRAP)
  {
    match e
    case Timer(now) => ServeFrom(v, now);
    case EndTask =>
    case Signal(x, now) => SignalFrom(v, x, now, if passed then 0 else -WRAP);
    case Wrap => WrapFrom(v);
  }

  lemma {:induction false} RunFrom(run: seq<View>, events: seq<Event>, k: nat)
    requires Run(run, events) && OncePerTurn(events) && k <= |events|
    ensures Valid(run[k]) && From(run[k], if Passed(events[..k]) then 0 else -WRAP)
  {
    if k > 0 {
      RunFrom(run, events, k - 1);
      RunKeepsValid(run, events, k);
      assert events[..k][..k - 1] == events[..k - 1];
      assert Possible(run[k - 1], events[k - 1]);
      StepFrom(run[k - 1], events[k - 1], Passed(events[..k - 1]));
    } else {
      RunKeepsValid(run, events, 0);
    }
  }

  /** In every run with a pass each turn, the sums of every release fit in 32 bits. */
  lemma RunFits(run: seq<View>, events: seq<Event>, k: nat, now: int)
    requires Run(run, events) && OncePerTurn(events) && k < |events| && events[k] == Timer(now)
    ensures Valid(run[k]) && PassFits(run[k], now)
  {
    RunFrom(run, events, k);
    FromFits(run[k], now);
  }
}
