/** Which instances the power-aware kernel has ready: one enters with the release that finds its
    task without one, and leaves when it runs and its work is done, not before. */
module DraReady {
  import opened EdfStar
  import opened Speed
  import opened DraKernel
  import opened DraSafety

  ghost predicate Ready(q: Queue, j: Job) {
    exists x :: x in q && x.job == j
  }

  /** The instances of a pass that find their task without one. */
  ghost predicate Enters(q: Queue, due: seq<Demand>, j: Job) {
    due != [] &&
    var last := |due| - 1;
    || Enters(q, due[..last], j)
    || (due[last].arrival.job == j && !HasTask(q, j.task) && !Due(due[..last], j.task))
  }

  ghost predicate Due(due: seq<Demand>, t: nat) {
    exists n :: 0 <= n < |due| && due[n].arrival.job.task == t
  }

  lemma PlaceReady(q: Queue, x: Entry, j: Job)
    ensures Ready(Place(q, x), j) <==> Ready(q, j) || j == x.job
    ensures HasTask(Place(q, x), j.task) <==> HasTask(q, j.task) || j.task == x.job.task
  {
    PlaceIn(q, x);
    TaskReady(q, j.task);
    TaskReady(Place(q, x), j.task);
    assert x in Place(q, x);
  }

  lemma TaskReady(q: Queue, t: nat)
    ensures HasTask(q, t) <==> exists x :: x in q && x.job.task == t
  {
    if HasTask(q, t) {
      var i :| 0 <= i < |q| && q[i].job.task == t;
      assert q[i] in q;
    }
  }

  lemma ReleaseReady(s: Pass, a: Arrival, now: int, active: Active, j: Job)
    ensures Ready(Release(s, a, now, active).k.ready, j)
       <==> Ready(s.k.ready, j) || (a.job == j && !HasTask(s.k.ready, j.task))
    ensures HasTask(Release(s, a, now, active).k.ready, j.task) <==> HasTask(s.k.ready, j.task) || a.job.task == j.task
  {
    if !HasTask(s.k.ready, a.job.task) {
      PlaceReady(s.k.ready, Entry(a.job, a.wcet), j);
    }
  }

  lemma DueNext(due: seq<Demand>, t: nat)
    requires due != []
    ensures Due(due, t) <==> Due(due[..|due| - 1], t) || due[|due| - 1].arrival.job.task == t
  {
    if Due(due[..|due| - 1], t) {
      var n :| 0 <= n < |due| - 1 && due[..|due| - 1][n].arrival.job.task == t;
      assert due[n].arrival.job.task == t;
    }
    if Due(due, t) && due[|due| - 1].arrival.job.task != t {
      var n :| 0 <= n < |due| && due[n].arrival.job.task == t;
      assert due[..|due| - 1][n].arrival.job.task == t;
    }
  }

  lemma {:induction false} ServeReady(s: Pass, due: seq<Demand>, now: int, active: Active, j: Job)
    ensures var r := Serve(s, Arrivals(due), now, active).k.ready;
      && (Ready(r, j) <==> Ready(s.k.ready, j) || Enters(s.k.ready, due, j))
      && (HasTask(r, j.task) <==> HasTask(s.k.ready, j.task) || Due(due, j.task))
  {
    if due != [] {
      var before := due[..|due| - 1];
      ServeReady(s, before, now, active, j);
      ServeLast(s, due, now, active);
      DueNext(due, j.task);
      ReleaseReady(Serve(s, Arrivals(before), now, active), due[|due| - 1].arrival, now, active, j);
    }
  }

  lemma WorkOffReady(q: Queue, t: nat, done: int, j: Job)
    ensures Ready(WorkOff(q, t, done), j) <==> Ready(q, j)
  {
    var r := WorkOff(q, t, done);
    if Ready(q, j) {
      var x :| x in q && x.job == j;
      var i :| 0 <= i < |q| && q[i] == x;
      assert r[i] in r;
    }
    if Ready(r, j) {
      var x :| x in r && x.job == j;
      WorkOffIn(q, t, done, x);
    }
  }

  lemma FinishReady(p: Points, s: Pass, now: int, active: Active, j: Job)
    requires s.k.minimal <= p.Fastest()
    ensures Ready(Finish(p, s, now, active).ready, j) <==> Ready(s.k.ready, j)
  {
    if active.Running? {
      WorkOffReady(s.k.ready, active.task, Done(p, now - s.k.updated, s.k.speed), j);
    }
  }

  /** Whether a step leaves an instance ready. */
  ghost predicate ReadyAfter(q: Queue, e: Event, j: Job) {
    || (Ready(q, j) && !(e.EndTask? && q[0].job == j))
    || (e.Timer? && Enters(q, e.due, j))
  }

  lemma ReadyNext(p: Points, w: World, e: Event, canon: Queue, j: Job)
    requires Inv(p, w, canon) && Enabled(p, w, e)
    ensures Ready(Next(p, w, e).k.ready, j) <==> ReadyAfter(w.k.ready, e, j)
  {
    match e
    case Timer(due) =>
      ServeReady(Pass(w.k, true), due, w.now, Head(w.k.ready), j);
      FinishReady(p, Serve(Pass(w.k, true), Arrivals(due), w.now, Head(w.k.ready)), w.now, Head(w.k.ready), j);
    case EndTask => TailReady(w.k.ready, j);
    case _ =>
  }

  lemma TailReady(q: Queue, j: Job)
    requires Sorted(q) && q != []
    ensures Ready(q[1..], j) <==> Ready(q, j) && j != q[0].job
  {
    assert q == [q[0]] + q[1..];
    forall x | x in q[1..] ensures x.job != q[0].job {
      var i :| 0 <= i < |q[1..]| && q[1..][i] == x;
      assert Before(q[0].job, q[i + 1].job);
    }
  }

  /** In every run the ready queue goes by EDF*, and an instance enters it with the release that
      finds its task without one; it leaves when it is at the head and its work is done, and at
      no other time. */
  lemma ReadyIs(p: Points, events: seq<Event>, e: Event, j: Job)
    requires p.Valid() && Runs(p, events + [e])
    ensures (events + [e])[..|events|] == events && Runs(p, events) && Enabled(p, After(p, events), e)
    ensures Sorted(After(p, events + [e]).k.ready)
    ensures Ready(After(p, events + [e]).k.ready, j) <==> ReadyAfter(After(p, events).k.ready, e, j)
    ensures var w := After(p, events);
      Ready(w.k.ready, j) && !Ready(After(p, events + [e]).k.ready, j) ==>
        e.EndTask? && w.k.ready[0].job == j && j in w.need && w.need[j] <= 0
  {
    assert (events + [e])[..|events|] == events;
    RunKeepsInv(p, events);
    RunKeepsInv(p, events + [e]);
    ReadyNext(p, After(p, events), e, FullSpeed(events), j);
  }
}
