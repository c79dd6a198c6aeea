/** The power-aware kernel's procedures as it has them, its variables updated in place, each
    proved to do what its specification in DraKernel says. */
module PowerAware {
  import opened EdfStar
  import opened Speed
  import opened DraKernel

  // The scan that inserts in a queue, step by step

  lemma {:induction false} PlaceAfter(left: Queue, right: Queue, x: Entry)
    requires forall k :: 0 <= k < |left| ==> !Before(x.job, left[k].job)
    requires right != [] ==> Before(x.job, right[0].job)
    ensures Place(left + right, x) == left + ([x] + right)
  {
    if left == [] {
      assert left + right == right;
    } else {
      assert (left + right)[1..] == left[1..] + right;
      PlaceAfter(left[1..], right, x);
      assert [left[0]] + (left[1..] + ([x] + right)) == left + ([x] + right);
    }
  }

  lemma PlaceAt(q: Queue, i: nat, x: Entry)
    requires i <= |q| && forall k :: 0 <= k < i ==> !Before(x.job, q[k].job)
    requires i < |q| ==> Before(x.job, q[i].job)
    ensures Place(q, x) == q[..i] + [x] + q[i..]
  {
    PlaceAfter(q[..i], q[i..], x);
    Parts(q, i, x);
  }

  lemma Parts(q: Queue, i: nat, x: Entry)
    requires i <= |q|
    ensures q[..i] + q[i..] == q && q[..i] + ([x] + q[i..]) == q[..i] + [x] + q[i..]
  {
  }

  lemma {:induction false} UnlinkParts(left: Queue, right: Queue, t: nat)
    ensures Unlink(left + right, t) == Unlink(left, t) + Unlink(right, t)
  {
    if left == [] {
      assert left + right == right;
    } else {
      assert (left + right)[1..] == left[1..] + right;
      UnlinkParts(left[1..], right, t);
    }
  }

  lemma {:induction false} UnlinkNone(q: Queue, t: nat)
    requires forall y :: y in q ==> y.job.task != t
    ensures Unlink(q, t) == q
  {
    if q != [] {
      UnlinkNone(q[1..], t);
    }
  }

  /** InsertQueue: past every node the new one does not precede. */
  method InsertQueue(q: Queue, x: Entry) returns (r: Queue)
    ensures r == Place(q, x)
  {
    var i := 0;
    while i < |q| && !Before(x.job, q[i].job)
      invariant 0 <= i <= |q|
      invariant forall k :: 0 <= k < i ==> !Before(x.job, q[k].job)
    {
      i := i + 1;
    }
    PlaceAt(q, i, x);
    r := q[..i] + [x] + q[i..];
  }

  lemma UnlinkOne(q: Queue, i: nat, t: nat)
    requires i < |q| && q[i].job.task == t
    ensures Unlink(q[..i] + q[i + 1..], t) == Unlink(q, t)
  {
    assert q == q[..i] + q[i..];
    UnlinkParts(q[..i], q[i..], t);
    UnlinkParts(q[..i], q[i + 1..], t);
    assert q[i..][1..] == q[i + 1..];
  }

  /** Where the scan stops is where the new entry goes. */
  lemma NoneAfter(q: Queue, i: nat, j: Job)
    requires Sorted(q) && Older(q, j) && i < |q| && q[i].job.task != j.task && Before(j, q[i].job)
    ensures forall k :: i <= k < |q| ==> q[k].job.task != j.task
  {
    forall k | i <= k < |q| ensures q[k].job.task != j.task {
      assert i < k ==> Before(q[i].job, q[k].job);
      assert q[k] in q;
    }
  }

  lemma NotThere(q: Queue, i: nat, x: Entry)
    requires Sorted(q) && Older(q, x.job) && i <= |q|
    requires forall y :: y in q[..i] ==> y.job.task != x.job.task
    requires i < |q| ==> q[i].job.task != x.job.task && Before(x.job, q[i].job)
    ensures forall y :: y in q ==> y.job.task != x.job.task
  {
    if i < |q| {
      NoneAfter(q, i, x.job);
    }
    forall y | y in q ensures y.job.task != x.job.task {
      var k :| 0 <= k < |q| && q[k] == y;
      assert k < i ==> q[..i][k] in q[..i];
    }
  }

  lemma InsertionPoint(q: Queue, i: nat, x: Entry)
    requires Sorted(q) && Older(q, x.job) && i <= |q|
    requires forall y :: y in q[..i] ==> y.job.task != x.job.task && !Before(x.job, y.job)
    requires i < |q| ==> q[i].job.task != x.job.task && Before(x.job, q[i].job)
    ensures q[..i] + [x] + q[i..] == SimInsert(q, x)
  {
    NotThere(q, i, x);
    UnlinkNone(q, x.job.task);
    forall k | 0 <= k < i ensures !Before(x.job, q[k].job) {
      assert q[..i][k] in q[..i];
    }
    PlaceAt(q, i, x);
  }

  lemma {:induction false} SlackLasts(q: Queue, t: nat)
    requires Lasting(q)
    ensures Slack(q, t) >= 0
  {
    if HasTask(q, t) && q[0].job.task != t {
      var i :| 0 <= i < |q| && q[i].job.task == t;
      assert q[1..][i - 1].job.task == t;
      SlackLasts(q[1..], t);
    }
  }

  lemma DrainOlder(q: Queue, elapsed: int, j: Job)
    requires Lasting(q) && Older(q, j)
    ensures Older(Drain(q, elapsed), j)
  {
    DrainKeeps(q, elapsed);
    var r := Drain(q, elapsed);
    forall y | y in r && y.job.task == j.task ensures Before(y.job, j) {
      var i :| 0 <= i < |r| && r[i] == y;
      assert q[|q| - |r| + i] in q;
    }
  }

  lemma SimInsertSorted(q: Queue, x: Entry)
    requires Sorted(q) && Lasting(q) && x.time >= 0
    ensures Sorted(SimInsert(q, x)) && Lasting(SimInsert(q, x))
  {
    UnlinkSorted(q, x.job.task);
    UnlinkIn(q, x.job.task);
    var rest := Unlink(q, x.job.task);
    PlaceSorted(rest, x);
    PlaceIn(rest, x);
    var r := Place(rest, x);
    forall i | 0 <= i < |r| ensures r[i].time >= 0 {
      assert r[i] in r;
    }
  }

  lemma InsertKeepsOlder(sim: Queue, x: Entry, j: Job)
    requires Older(sim, j) && j.task != x.job.task
    ensures Older(SimInsert(sim, x), j)
  {
    UnlinkIn(sim, x.job.task);
    PlaceIn(Unlink(sim, x.job.task), x);
  }

  lemma ArriveKeepsOlder(s: Pass, a: Arrival, now: int, active: Active, due: seq<Arrival>)
    requires Sorted(s.k.sim) && Lasting(s.k.sim)
    requires forall b :: b in due ==> HasTask(s.k.ready, b.job.task) || Older(s.k.sim, b.job)
    ensures var k := Release(s, a, now, active).k;
      forall b :: b in due ==> HasTask(k.ready, b.job.task) || Older(k.sim, b.job)
  {
    if !HasTask(s.k.ready, a.job.task) {
      var x := Entry(a.job, a.wcet);
      var k := Release(s, a, now, active).k;
      PlaceIn(s.k.ready, x);
      forall b | b in due ensures HasTask(k.ready, b.job.task) || Older(k.sim, b.job) {
        if HasTask(s.k.ready, b.job.task) || b.job.task == a.job.task {
          var y :| y in k.ready && y.job.task == b.job.task;
        } else {
          var elapsed := if s.late && Head(k.ready) != active then now - s.k.simTime else 0;
          DrainOlder(s.k.sim, elapsed, b.job);
          InsertKeepsOlder(Drain(s.k.sim, elapsed), x, b.job);
        }
      }
    }
  }

  lemma WithoutOne(q: Queue, i: nat, j: Job)
    requires Sorted(q) && Older(q, j) && i < |q|
    ensures var r := q[..i] + q[i + 1..]; Sorted(r) && Older(r, j) && r[..i] == q[..i]
  {
    var r := q[..i] + q[i + 1..];
    assert forall y :: y in r ==> y in q;
  }

  /** The simulated queue linked again with a new instance: the old one of its TCB is taken
      out on the way. */
  method Relink(sim: Queue, x: Entry) returns (r: Queue)
    requires Sorted(sim) && Older(sim, x.job)
    ensures r == SimInsert(sim, x)
  {
    var i, t := 0, x.job.task;
    r := sim;
    while i < |r| && (r[i].job.task == t || !Before(x.job, r[i].job))
      invariant 0 <= i <= |r| && Sorted(r) && Older(r, x.job)
      invariant forall y :: y in r[..i] ==> y.job.task != t && !Before(x.job, y.job)
      invariant Unlink(r, t) == Unlink(sim, t)
      decreases |r| - i
    {
      if r[i].job.task == t {
        UnlinkOne(r, i, t);
        WithoutOne(r, i, x.job);
        r := r[..i] + r[i + 1..];
      } else {
        i := i + 1;
      }
    }
    InsertionPoint(r, i, x);
    r := r[..i] + [x] + r[i..];
  }

  class PowerKernel {
    const points: Points
    var simTime: int
    var sim: Queue
    var ready: Queue
    var updated: int
    var speed: nat
    var minimal: nat

    ghost predicate Valid()
      reads this
    {
      points.Valid() && minimal <= points.Fastest() && Sorted(sim) && Lasting(sim)
    }

    function View(): Kernel
      reads this
    {
      Kernel(simTime, sim, ready, updated, speed, minimal)
    }

    /** DRASimUpdateElapseTime: the head's time goes down, and the simulation's clock up, one
        entry at a time. */
    method UpdateSimulation(now: int)
      modifies this`simTime, this`sim
      ensures View() == SimTo(old(View()), now)
    {
      var completed := now - simTime;
      while completed > 0
        invariant simTime + completed == now
        invariant old(simTime) < now ==> completed >= 0
        invariant completed >= 0 ==> Drain(sim, completed) == Drain(old(sim), now - old(simTime))
        invariant completed < 0 ==> simTime == old(simTime)
        invariant completed <= 0 ==> sim == Drain(old(sim), now - old(simTime))
        decreases |sim|, completed
      {
        if sim == [] {
          simTime := now;
          break;
        }
        if sim[0].time > completed {
          simTime, sim := now, [sim[0].(time := sim[0].time - completed)] + sim[1..];
          break;
        }
        simTime, completed, sim := simTime + sim[0].time, completed - sim[0].time, sim[1..];
      }
    }

    /** DRASimQueueInsert. */
    method InsertSimulated(x: Entry)
      requires Sorted(sim) && Older(sim, x.job)
      modifies this`sim
      ensures sim == SimInsert(old(sim), x)
    {
      sim := Relink(sim, x);
    }

    /** GetDRASlackTime. */
    method SlackTime(t: nat) returns (time: int)
      ensures time == Slack(sim, t)
      ensures forall i :: 0 <= i < |sim| && sim[i].job.task == t && (forall k :: 0 <= k < i ==> sim[k].job.task != t)
                ==> time == Total(sim[..i + 1])
      ensures (forall x :: x in sim ==> x.job.task != t) ==> time == 0
    {
      forall i: nat | i < |sim| && sim[i].job.task == t && forall k :: 0 <= k < i ==> sim[k].job.task != t
        ensures Slack(sim, t) == Total(sim[..i + 1])
      {
        SlackIsSum(sim, i);
      }
      time := 0;
      var i := 0;
      while i < |sim|
        invariant 0 <= i <= |sim|
        invariant forall k :: 0 <= k < i ==> sim[k].job.task != t
        invariant HasTask(sim, t) ==> HasTask(sim[i..], t) && time + UpTo(sim[i..], t) == UpTo(sim, t)
      {
        time := time + sim[i].time;
        if sim[i].job.task == t {
          return;
        }
        i := i + 1;
      }
      time := 0;
    }

    /** GetProcessorSpeed, for a periodic task at the head of the ready queue. */
    method ChooseSpeed()
      requires Valid() && ready != []
      modifies this`speed
      ensures View() == Choose(points, old(View()))
    {
      var time := SlackTime(ready[0].job.task);
      SlackLasts(sim, ready[0].job.task);
      speed := ScanSpeeds(points, minimal, ready[0].time, time);
    }

    /** UpdateRemainingWork. */
    method UpdateWork(t: nat, now: int)
      requires points.Valid()
      modifies this`ready, this`updated
      ensures View() == Account(points, old(View()), now, Running(t))
    {
      var completed := now - updated;
      if speed < points.Fastest() {
        completed := Scale(completed, points.ratios[speed]);
      }
      ready := WorkOff(ready, t, completed);
      updated := now;
    }

    /** OSEndTask. */
    method EndTask(now: int)
      requires Valid() && ready != []
      modifies this
      ensures View() == End(points, old(View()), now)
    {
      UpdateSimulation(now);
      DrainSorted(old(sim), now - old(simTime));
      ready := ready[1..];
      if ready != [] {
        updated := simTime;
        ChooseSpeed();
      }
    }

    /** The simulation is brought up to date when the head of the ready queue has changed. */
    method CatchUp(now: int, active: Active, late: bool, ghost j: Job) returns (late': bool)
      requires Valid() && Older(sim, j)
      modifies this`sim, this`simTime
      ensures var change := late && Head(ready) != active;
        View() == (if change then SimTo(old(View()), now) else old(View())) && late' == (late && !change)
      ensures Valid() && Older(sim, j)
    {
      late' := late;
      if late && Head(ready) != active {
        DrainSorted(sim, now - simTime);
        DrainOlder(sim, now - simTime, j);
        UpdateSimulation(now);
        late' := false;
      }
    }

    /** One arrival of the timer handler. */
    method Arrive(a: Arrival, now: int, active: Active, late: bool) returns (late': bool)
      requires Valid() && (HasTask(ready, a.job.task) || Older(sim, a.job))
      modifies this`ready, this`sim, this`simTime
      ensures Pass(View(), late') == Release(Pass(old(View()), late), a, now, active)
      ensures Valid()
    {
      if HasTask(ready, a.job.task) {
        return late;
      }
      ready := InsertQueue(ready, Entry(a.job, a.wcet));
      late' := CatchUp(now, active, late, a.job);
      SimInsertSorted(sim, Entry(a.job, a.wcet));
      InsertSimulated(Entry(a.job, a.wcet));
    }

    /** The end of the handler: the work of the task interrupted, and the speed. */
    method Conclude(now: int, active: Active, late: bool)
      requires Valid()
      modifies this
      ensures View() == Finish(points, Pass(old(View()), late), now, active)
    {
      if active.Running? {
        UpdateWork(active.task, now);
      }
      DrainSorted(sim, now - simTime);
      if ready == [] {
        UpdateSimulation(now);
        updated := now;
      } else {
        if late {
          UpdateSimulation(now);
        }
        updated := now;
        ChooseSpeed();
      }
    }

    /** The arrivals due, in order. */
    method ServeArrivals(now: int, due: seq<Arrival>, active: Active) returns (late: bool)
      requires Valid() && forall a :: a in due ==> Older(sim, a.job)
      modifies this`ready, this`sim, this`simTime
      ensures Valid() && Pass(View(), late) == Serve(Pass(old(View()), true), due, now, active)
    {
      late := true;
      ghost var start := Pass(View(), true);
      for i := 0 to |due|
        invariant Valid() && Pass(View(), late) == Serve(start, due[..i], now, active)
        invariant forall a :: a in due ==> HasTask(ready, a.job.task) || Older(sim, a.job)
      {
        ArriveKeepsOlder(Pass(View(), late), due[i], now, active, due);
        late := Arrive(due[i], now, active, late);
        assert due[..i + 1][..i] == due[..i];
      }
      assert due[..|due|] == due;
    }

    /** The timer handler. */
    method TimerInterrupt(now: int, due: seq<Arrival>)
      requires Valid() && forall a :: a in due ==> Older(sim, a.job)
      modifies this
      ensures View() == Interrupt(points, old(View()), now, due)
    {
      var active := Head(ready);
      var late := ServeArrivals(now, due, active);
      Conclude(now, active, late);
    }
  }
}
