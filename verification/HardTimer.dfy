/** The hard kernel's timer handler as it works, its TCBs and queues updated in place, each
    procedure proved to do what TimerQueues specifies. */
module HardTimer {
  import opened Common
  import Server
  import opened TimerQueues

  lemma {:induction false} InsertAfter(left: Queue, right: Queue, x: nat, keys: seq<int>)
    requires Among(left, |keys|) && Among(right, |keys|) && x < |keys|
    requires forall i :: 0 <= i < |left| ==> keys[left[i]] < keys[x]
    ensures Among(left + right, |keys|)
    ensures Insert(left + right, x, keys) == left + Insert(right, x, keys)
  {
    if left == [] {
      assert left + right == right;
    } else {
      assert (left + right)[1..] == left[1..] + right;
      InsertAfter(left[1..], right, x, keys);
    }
  }

  /** Behind those of lower keys, before one of no lower key. */
  lemma InsertAt(q: Queue, i: nat, x: nat, keys: seq<int>)
    requires Among(q, |keys|) && x < |keys| && i <= |q|
    requires forall k :: 0 <= k < i ==> keys[q[k]] < keys[x]
    requires i < |q| ==> keys[x] <= keys[q[i]]
    ensures Insert(q, x, keys) == q[..i] + [x] + q[i..]
  {
    assert q == q[..i] + q[i..];
    InsertAfter(q[..i], q[i..], x, keys);
  }

  lemma ReleasedPeriodic(t: Tcb, server: int, deadline: int)
    requires t.zombie && !t.blocking && deadline == t.low + t.length
    ensures Released(t, server) == t.(zombie := false, deadline := deadline).Next()
    ensures !Released(t, server).blocking
    ensures t.Next().Normal() ==> t.(zombie := false, deadline := deadline).Next().Normal()
  {
  }

  class HardKernel {
    var tcbs: seq<Tcb>
    var arrivals: Queue
    var ready: Queue
    var server: int            // SynchronousTaskDeadlines
    ghost var epoch: nat
    ghost var served: seq<nat>
    ghost var started: seq<nat>

    ghost function Now(): View
      reads this
    {
      View(tcbs, arrivals, ready, server, epoch, served, started)
    }

    /** InsertQueue with ArrivalQueueInsertTestKey. */
    method ArrivalQueueInsert(x: nat)
      requires Among(arrivals, |tcbs|) && x < |tcbs| && tcbs[x].Normal()
      requires forall i :: 0 <= i < |arrivals| ==> tcbs[arrivals[i]].Normal()
      modifies this`arrivals
      ensures arrivals == Insert(old(arrivals), x, Times(tcbs))
    {
      var i, q := 0, arrivals;
      while i < |q| && !InsertBefore(tcbs[x], tcbs[q[i]])
        invariant 0 <= i <= |q|
        invariant forall k :: 0 <= k < i ==> tcbs[q[k]].Time() < tcbs[x].Time()
      {
        i := i + 1;
      }
      InsertAt(q, i, x, Times(tcbs));
      arrivals := q[..i] + [x] + q[i..];
    }

    /** InsertQueue with ReadyQueueInsertTestKey. */
    method ReadyQueueInsert(x: nat)
      requires Among(ready, |tcbs|) && x < |tcbs|
      modifies this`ready
      ensures ready == Insert(old(ready), x, Deadlines(tcbs))
    {
      var i, q := 0, ready;
      while i < |q| && !(tcbs[x].deadline <= tcbs[q[i]].deadline)
        invariant 0 <= i <= |q|
        invariant forall k :: 0 <= k < i ==> tcbs[q[k]].deadline < tcbs[x].deadline
      {
        i := i + 1;
      }
      InsertAt(q, i, x, Deadlines(tcbs));
      ready := q[..i] + [x] + q[i..];
    }

    /** GetSuspendedSchedulingDeadline. */
    method GetSuspendedSchedulingDeadline(workload: nat, now: int) returns (deadline: int)
      modifies this`server
      ensures deadline == server == Server.NextDeadline(old(server), now, workload)
    {
      if server > now {
        server := server + workload;
      } else {
        server := now + workload;
      }
      deadline := server;
    }

    /** NextPeriodicArrival, the task out of the arrival queue. */
    method NextPeriodicArrival(x: nat)
      requires Among(arrivals, |tcbs|) && x < |tcbs| && x !in arrivals && tcbs[x].Next().Normal()
      requires forall i :: 0 <= i < |arrivals| ==> tcbs[arrivals[i]].Normal()
      modifies this`tcbs, this`arrivals
      ensures tcbs == old(tcbs)[x := old(tcbs)[x].Next()]
      ensures arrivals == Insert(old(arrivals), x, Times(tcbs))
    {
      var t := tcbs[x];
      var low := t.low + t.periodLow;
      t := t.(high := t.periodHigh, low := low);
      if low > 0x3FFF_FFFF {
        t := t.(high := t.high + 1, low := low % WRAP);
      }
      tcbs := tcbs[x := t];
      ArrivalQueueInsert(x);
    }

    /** The first arrival, a periodic task, goes back into the queue. */
    method PutBack(x: nat)
      requires arrivals != [] && x == arrivals[0] && Among(arrivals, |tcbs|) && Once(arrivals)
      requires !tcbs[x].blocking && tcbs[x].Next().Normal()
      requires forall i :: 0 <= i < |arrivals| ==> tcbs[arrivals[i]].Normal()
      modifies this`tcbs, this`arrivals
      ensures tcbs == old(tcbs)[x := old(tcbs)[x].Next()]
      ensures arrivals == NewArrivals(old(tcbs), old(arrivals), tcbs[x])
    {
      OnceTail(arrivals);
      arrivals := arrivals[1..];
      NextPeriodicArrival(x);
    }

    /** A task starts an instance. */
    method Start(x: nat, deadline: int)
      requires x < |tcbs| && Among(ready, |tcbs|)
      modifies this`tcbs, this`ready
      ensures tcbs == old(tcbs)[x := old(tcbs)[x].(zombie := false, deadline := deadline)]
      ensures ready == Insert(old(ready), x, Deadlines(tcbs))
    {
      tcbs := tcbs[x := tcbs[x].(zombie := false, deadline := deadline)];
      ReadyQueueInsert(x);
    }

    /** An event-driven task leaves the arrival queue for the ready queue. */
    method StartEvent(x: nat, now: int)
      requires Among(arrivals, |tcbs|) && Among(ready, |tcbs|) && arrivals != [] && x == arrivals[0]
      requires tcbs[x].blocking && tcbs[x].zombie
      modifies this`tcbs, this`arrivals, this`ready, this`server
      ensures server == ServerAfter(old(tcbs)[x], old(server), now)
      ensures tcbs == old(tcbs)[x := Released(old(tcbs)[x], server)]
      ensures arrivals == NewArrivals(old(tcbs), old(arrivals), Released(old(tcbs)[x], server))
      ensures ready == NewReady(old(tcbs), old(ready), x, Released(old(tcbs)[x], server))
    {
      arrivals := arrivals[1..];
      var deadline := GetSuspendedSchedulingDeadline(if tcbs[x].length < 0 then 0 else tcbs[x].length, now);
      Start(x, deadline);
    }

    /** A periodic task starts an instance and goes back into the arrival queue. */
    method StartInstance(x: nat)
      requires Among(arrivals, |tcbs|) && Once(arrivals) && Among(ready, |tcbs|) && arrivals != [] && x == arrivals[0]
      requires !tcbs[x].blocking && tcbs[x].zombie && tcbs[x].Next().Normal()
      requires forall i :: 0 <= i < |arrivals| ==> tcbs[arrivals[i]].Normal()
      modifies this`tcbs, this`arrivals, this`ready
      ensures tcbs == old(tcbs)[x := Released(old(tcbs)[x], server)]
      ensures arrivals == NewArrivals(old(tcbs), old(arrivals), Released(old(tcbs)[x], server))
      ensures ready == NewReady(old(tcbs), old(ready), x, Released(old(tcbs)[x], server))
    {
      var deadline := tcbs[x].low + tcbs[x].length;
      StartThenNext(tcbs, arrivals, ready, deadline);
      ReleasedPeriodic(tcbs[x], server, deadline);
      Start(x, deadline);
      PutBack(x);
    }

    /** The first arrival is released, or its release skipped. */
    method ReleaseTask(x: nat, now: int)
      requires Servable(Now()) && arrivals != [] && x == arrivals[0] && tcbs[x].Due(now)
      modifies this`tcbs, this`arrivals, this`ready, this`server
      ensures server == ServerAfter(old(tcbs)[x], old(server), now)
      ensures tcbs == old(tcbs)[x := Released(old(tcbs)[x], server)]
      ensures arrivals == NewArrivals(old(tcbs), old(arrivals), Released(old(tcbs)[x], server))
      ensures ready == NewReady(old(tcbs), old(ready), x, Released(old(tcbs)[x], server))
    {
      if tcbs[x].zombie && tcbs[x].blocking {
        StartEvent(x, now);
      } else {
        NextAddsPeriod(tcbs[x]);
        if tcbs[x].zombie {
          StartInstance(x);
        } else {
          PutBack(x);
        }
      }
    }

    /** One turn of the handler's loop over the arrivals due. */
    method ReleaseFirst(now: int)
      requires Valid(Now()) && arrivals != [] && tcbs[arrivals[0]].Due(now)
      modifies this
      ensures Now() == Release(old(Now()), now)
    {
      ghost var v := Now();
      ValidIsServable(v);
      var x := arrivals[0];
      ReleaseTask(x, now);
      started := NewStarted(v.tcbs[x], served, started, x);
      served := served[x := served[x] + 1];
      ReleaseParts(v, now, Released(v.tcbs[x], server), Now());
    }

    /** The arrivals due, until none is. */
    method ServeArrivals(now: int)
      requires Valid(Now())
      modifies this
      ensures Now() == Serve(old(Now()), now)
    {
      while arrivals != [] && tcbs[arrivals[0]].Due(now)
        invariant Valid(Now()) && Serve(Now(), now) == Serve(old(Now()), now)
        decreases Lag(Now(), now)
      {
        ReleaseAhead(Now(), now);
        ReleaseFirst(now);
      }
    }

    /** The deadlines of the periodic tasks in the ready queue. */
    method ShiftReady()
      requires Among(ready, |tcbs|) && Once(ready)
      modifies this`tcbs
      ensures |tcbs| == |old(tcbs)|
      ensures forall x :: 0 <= x < |tcbs| ==> tcbs[x] == ShiftDeadline(old(tcbs)[x], x in ready)
    {
      var q := ready;
      for i := 0 to |q|
        invariant |tcbs| == |old(tcbs)|
        invariant forall x :: 0 <= x < |tcbs| ==> tcbs[x] == ShiftDeadline(old(tcbs)[x], x in q[..i])
      {
        OnceAt(q, i);
        var t := tcbs[q[i]];
        if !t.blocking {
          tcbs := tcbs[q[i] := t.(deadline := t.deadline - WRAP)];
        }
      }
      assert q[..|q|] == q;
    }

    /** The times of the tasks in the arrival queue. */
    method ShiftArrivals()
      requires Among(arrivals, |tcbs|) && Once(arrivals)
      modifies this`tcbs
      ensures |tcbs| == |old(tcbs)|
      ensures forall x :: 0 <= x < |tcbs| ==> tcbs[x] == ShiftArrival(old(tcbs)[x], x in arrivals)
    {
      var q := arrivals;
      for i := 0 to |q|
        invariant |tcbs| == |old(tcbs)|
        invariant forall x :: 0 <= x < |tcbs| ==> tcbs[x] == ShiftArrival(old(tcbs)[x], x in q[..i])
      {
        OnceAt(q, i);
        var t := tcbs[q[i]];
        if !t.blocking && t.high > 0 {
          tcbs := tcbs[q[i] := t.(high := t.high - 1)];
        } else {
          tcbs := tcbs[q[i] := t.(low := t.low - WRAP)];
        }
      }
      assert q[..|q|] == q;
    }

    /** The deadlines of the event-driven tasks. */
    method ShiftEvents()
      modifies this`tcbs
      ensures |tcbs| == |old(tcbs)|
      ensures forall x :: 0 <= x < |tcbs| ==> tcbs[x] == ShiftEvent(old(tcbs)[x])
    {
      var n := |tcbs|;
      for x := 0 to n
        invariant |tcbs| == n
        invariant forall y :: x <= y < n ==> tcbs[y] == old(tcbs)[y]
        invariant forall y :: 0 <= y < x ==> tcbs[y] == ShiftEvent(old(tcbs)[y])
      {
        if tcbs[x].blocking {
          tcbs := tcbs[x := tcbs[x].(deadline := Server.SubOrZero(tcbs[x].deadline, WRAP))];
        }
      }
    }

    /** The shift of every time at a wraparound. */
    method Shift()
      requires Among(arrivals, |tcbs|) && Once(arrivals) && Among(ready, |tcbs|) && Once(ready)
      modifies this`tcbs, this`server, this`epoch
      ensures Now() == Wrapped(old(Now()))
    {
      ShiftReady();
      ShiftArrivals();
      ShiftEvents();
      server := Server.SubOrZero(server, WRAP);
      epoch := epoch + 1;
      forall x | 0 <= x < |tcbs| ensures tcbs[x] == Wrapped(old(Now())).tcbs[x] {
        ShiftParts(old(tcbs)[x], x in arrivals, x in ready);
      }
    }

    /** OSEndTask and OSSuspendSynchronousTask: the head leaves the ready queue, a zombie. */
    method EndTask()
      requires ready != [] && Among(ready, |tcbs|)
      modifies this`tcbs, this`ready
      ensures Now() == Ended(old(Now()))
    {
      tcbs := tcbs[ready[0] := tcbs[ready[0]].(zombie := true)];
      ready := ready[1..];
    }

    /** A task signalled before its previous deadline waits for it. */
    method Defer(x: nat)
      requires Among(arrivals, |tcbs|) && x < |tcbs| && tcbs[x].blocking && tcbs[x].deadline < 2 * WRAP
      requires forall i :: 0 <= i < |arrivals| ==> arrivals[i] != x && tcbs[arrivals[i]].Normal()
      modifies this`tcbs, this`arrivals
      ensures tcbs == old(tcbs)[x := old(tcbs)[x].(low := old(tcbs)[x].deadline)]
      ensures arrivals == Insert(old(arrivals), x, Times(tcbs))
    {
      tcbs := tcbs[x := tcbs[x].(low := tcbs[x].deadline)];
      ArrivalQueueInsert(x);
    }

    /** One task taken from the reschedule list. */
    method Reschedule(x: nat, now: int)
      requires Valid(Now()) && CanSignal(Now(), x)
      modifies this
      ensures Now() == Signalled(old(Now()), x, now)
    {
      if now < tcbs[x].deadline {
        AllNormal(tcbs, arrivals);
        assert forall i :: 0 <= i < |arrivals| ==> arrivals[i] in arrivals;
        Defer(x);
      } else {
        var deadline := GetSuspendedSchedulingDeadline(Max0(tcbs[x].length), now);
        Start(x, deadline);
      }
    }

    /** EmptyRescheduleSynchronousTaskList. */
    method EmptyReschedule(list: seq<nat>, now: int)
      requires Valid(Now()) && CanSignalAll(Now(), list)
      modifies this
      ensures Now() == SignalledAll(old(Now()), list, now)
    {
      var rest := list;
      while rest != []
        invariant Valid(Now()) && CanSignalAll(Now(), rest)
        invariant SignalledAll(Now(), rest, now) == SignalledAll(old(Now()), list, now)
        decreases |rest|
      {
        SignalKeeps(Now(), rest[0], now);
        SignalOthers(Now(), rest, now);
        Reschedule(rest[0], now);
        rest := rest[1..];
      }
    }

    /** The timer handler: the shift when the clock has wrapped, the arrivals due, the tasks
        signalled. It leaves the queues in order and nothing due. */
    method TimerInterrupt(overflow: bool, now: int, list: seq<nat>)
      requires Valid(Now()) && (overflow ==> CanWrap(Now())) && 0 <= now < WRAP && CanSignalAll(Now(), list)
      modifies this
      ensures Now() == Handled(old(Now()), overflow, now, list)
      ensures NoneDue(Now(), now)
    {
      if overflow {
        WrapCanSignal(Now(), list);
        Shift();
      }
      ServedAll(Now(), now);
      ServeCanSignal(Now(), list, now);
      SignalledAllNoneDue(Serve(Now(), now), list, now);
      ServeArrivals(now);
      EmptyReschedule(list, now);
    }
  }

  lemma AllNormal(tcbs: seq<Tcb>, arrivals: Queue)
    requires ArrivalsOk(tcbs, arrivals)
    ensures forall i :: 0 <= i < |arrivals| ==> tcbs[arrivals[i]].Normal()
  {
    assert forall i :: 0 <= i < |arrivals| ==> arrivals[i] in arrivals;
  }

  /** Starting an instance, then putting the task back, is one replacement. */
  lemma StartThenNext(tcbs: seq<Tcb>, arrivals: Queue, ready: Queue, deadline: int)
    requires arrivals != [] && Among(arrivals, |tcbs|) && Among(ready, |tcbs|) && tcbs[arrivals[0]].zombie
    ensures var x := arrivals[0];
      var t := tcbs[x].(zombie := false, deadline := deadline);
      && tcbs[x := t][x := t.Next()] == tcbs[x := t.Next()]
      && Insert(ready, x, Deadlines(tcbs[x := t])) == NewReady(tcbs, ready, x, t.Next())
      && NewArrivals(tcbs[x := t], arrivals, t.Next()) == NewArrivals(tcbs, arrivals, t.Next())
  {
    var x := arrivals[0];
    var t := tcbs[x].(zombie := false, deadline := deadline);
    assert Deadlines(tcbs[x := t]) == Deadlines(tcbs[x := t.Next()]);
  }

  function ShiftDeadline(t: Tcb, ready: bool): Tcb {
    if ready && !t.blocking then t.(deadline := t.deadline - WRAP) else t
  }

  function ShiftArrival(t: Tcb, arrival: bool): Tcb {
    if !arrival then t
    else if !t.blocking && t.high > 0 then t.(high := t.high - 1)
    else t.(low := t.low - WRAP)
  }

  function ShiftEvent(t: Tcb): Tcb {
    if t.blocking then t.(deadline := Server.SubOrZero(t.deadline, WRAP)) else t
  }

  lemma ShiftParts(t: Tcb, arrival: bool, ready: bool)
    ensures ShiftEvent(ShiftArrival(ShiftDeadline(t, ready), arrival)) == t.Shift(arrival, ready)
  {
  }
}
