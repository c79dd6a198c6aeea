/** What the steps of the hard kernel do to each task: which releases a pass makes, and which
    instances begin, go on and end. */
module HardRuns {
  import opened Common
  import opened TimerQueues
  import opened HardTimer
  import Server

  // The place an insertion finds

  /** Behind every lower key and before every other: among equal ones the last inserted is
      first. */
  lemma {:induction false} InsertPlace(q: Queue, x: nat, keys: seq<int>, from: nat) returns (i: nat)
    requires Among(q, |keys|) && x < |keys| && Sorted(q, keys) && from <= |q|
    requires forall k :: 0 <= k < from ==> keys[q[k]] < keys[x]
    ensures i <= |q| && Insert(q, x, keys) == q[..i] + [x] + q[i..]
    ensures forall k :: 0 <= k < |q| ==> (k < i <==> keys[q[k]] < keys[x])
    decreases |q| - from
  {
    if from < |q| && keys[q[from]] < keys[x] {
      i := InsertPlace(q, x, keys, from + 1);
    } else {
      i := from;
      InsertAt(q, i, x, keys);
    }
  }

  // A pass

  /** What a pass at a time, or some of its releases, makes of a periodic task: a release for
      each arrival from the next on, none early; the first starts an instance when none is
      under way, the others are skipped. */
  ghost predicate PeriodicPassed(v: View, r: View, now: int, x: nat)
    requires Numbered(v) && Numbered(r) && |r.tcbs| == |v.tcbs| && x < |v.tcbs|
  {
    && v.served[x] <= r.served[x]
    && (v.served[x] < r.served[x] ==>
          && Product(r.served[x] - 1, v.tcbs[x].Period()) <= v.epoch * WRAP + now
          && !r.tcbs[x].zombie)
    && (v.served[x] == r.served[x] ==> r.tcbs[x] == v.tcbs[x])
    && r.started[x] == (if v.tcbs[x].zombie && v.served[x] < r.served[x] then v.served[x] else v.started[x])
    && r.tcbs[x].Period() == v.tcbs[x].Period() && r.tcbs[x].length == v.tcbs[x].length
    && !r.tcbs[x].blocking && GoesOn(v.tcbs[x], r.tcbs[x])
  }

  /** An event-driven task starts exactly when it waits and its time has come. */
  ghost predicate DrivenPassed(v: View, r: View, now: int, x: nat)
    requires Numbered(v) && Numbered(r) && |r.tcbs| == |v.tcbs| && x < |v.tcbs|
  {
    if x in v.arrivals && v.tcbs[x].low <= now && x !in r.arrivals
    then
      && !r.tcbs[x].zombie && r.tcbs[x] == v.tcbs[x].(zombie := false, deadline := r.tcbs[x].deadline)
    else r.tcbs[x] == v.tcbs[x] && (x in r.arrivals <==> x in v.arrivals)
  }

  ghost predicate Passed(v: View, r: View, now: int, x: nat)
    requires Numbered(v) && Numbered(r) && |r.tcbs| == |v.tcbs| && x < |v.tcbs|
  {
    r.epoch == v.epoch && if v.tcbs[x].blocking then DrivenPassed(v, r, now, x) else PeriodicPassed(v, r, now, x)
  }

  lemma ValidNumbered(v: View)
    requires Valid(v)
    ensures Numbered(v)
  {
  }

  /** The first arrival, released. */
  lemma HeadPassed(v: View, now: int)
    requires Valid(v) && v.arrivals != [] && v.tcbs[v.arrivals[0]].Due(now)
    ensures Numbered(Release(v, now)) && Passed(v, Release(v, now), now, v.arrivals[0])
  {
    var x := v.arrivals[0];
    var t := v.tcbs[x];
    assert x in v.arrivals && Waits(t);
    ReleasedIs(t, ServerAfter(t, v.server, now), now);
    ReleaseKeeps(v, now);
    OnceTail(v.arrivals);
  }

  lemma OthersQueued(tcbs: seq<Tcb>, arrivals: Queue, t: Tcb, x: nat)
    requires Among(arrivals, |tcbs|) && Once(arrivals) && arrivals != [] && x != arrivals[0]
    ensures x in NewArrivals(tcbs, arrivals, t) <==> x in arrivals
  {
    OnceTail(arrivals);
    if !t.blocking {
      InsertIn(arrivals[1..], arrivals[0], Times(tcbs[arrivals[0] := t]));
    }
  }

  lemma OtherPassed(v: View, now: int, x: nat)
    requires Numbered(v) && Once(v.arrivals) && v.arrivals != [] && x < |v.tcbs| && x != v.arrivals[0]
    ensures var r := Release(v, now);
      && r.tcbs[x] == v.tcbs[x] && r.served[x] == v.served[x] && r.started[x] == v.started[x]
      && r.epoch == v.epoch && |r.tcbs| == |v.tcbs| && (x in r.arrivals <==> x in v.arrivals)
  {
    var t := v.tcbs[v.arrivals[0]];
    OthersQueued(v.tcbs, v.arrivals, Released(t, ServerAfter(t, v.server, now)), x);
  }

  lemma OnePassed(v: View, now: int, x: nat)
    requires Valid(v) && v.arrivals != [] && v.tcbs[v.arrivals[0]].Due(now) && x < |v.tcbs|
    ensures Valid(Release(v, now)) && |Release(v, now).tcbs| == |v.tcbs| && Passed(v, Release(v, now), now, x)
  {
    ReleaseKeeps(v, now);
    if x == v.arrivals[0] {
      HeadPassed(v, now);
    } else {
      OtherPassed(v, now, x);
    }
  }

  lemma PeriodicThen(v: View, u: View, r: View, now: int, x: nat)
    requires Numbered(v) && Numbered(u) && Numbered(r) && |u.tcbs| == |v.tcbs| == |r.tcbs| && x < |v.tcbs|
    requires u.epoch == v.epoch && PeriodicPassed(v, u, now, x) && PeriodicPassed(u, r, now, x)
    ensures PeriodicPassed(v, r, now, x)
  {
  }

  lemma DrivenThen(v: View, u: View, r: View, now: int, x: nat)
    requires Numbered(v) && Numbered(u) && Numbered(r) && |u.tcbs| == |v.tcbs| == |r.tcbs| && x < |v.tcbs|
    requires DrivenPassed(v, u, now, x) && DrivenPassed(u, r, now, x)
    requires x in v.arrivals ==> v.tcbs[x].zombie
    ensures DrivenPassed(v, r, now, x)
  {
  }

  lemma {:induction false} ServePassed(v: View, now: int, x: nat)
    requires Valid(v) && x < |v.tcbs|
    ensures |Serve(v, now).tcbs| == |v.tcbs| && Passed(v, Serve(v, now), now, x)
    decreases Lag(v, now)
  {
    if v.arrivals != [] && v.tcbs[v.arrivals[0]].Due(now) {
      var u := Release(v, now);
      ReleaseAhead(v, now);
      OnePassed(v, now, x);
      ServePassed(u, now, x);
      if v.tcbs[x].blocking {
        assert x in v.arrivals ==> Waits(v.tcbs[x]);
        DrivenThen(v, u, Serve(u, now), now, x);
      } else {
        PeriodicThen(v, u, Serve(u, now), now, x);
      }
    }
  }

  lemma PeriodicWaits(v: View, x: nat)
    requires Valid(v) && x < |v.tcbs| && !v.tcbs[x].blocking
    ensures |v.served| == |v.started| == |v.tcbs|
    ensures x in v.arrivals && v.tcbs[x].Period() > 0
    ensures v.epoch * WRAP + v.tcbs[x].Time() == Product(v.served[x], v.tcbs[x].Period())
    ensures !v.tcbs[x].zombie ==>
      v.epoch * WRAP + v.tcbs[x].deadline == Product(v.started[x], v.tcbs[x].Period()) + v.tcbs[x].length
  {
    assert x in v.arrivals && Waits(v.tcbs[x]);
  }

  lemma NotDue(v: View, now: int, x: nat)
    requires Valid(v) && NoneDue(v, now) && x < |v.tcbs| && x in v.arrivals
    ensures v.tcbs[x].Time() > now
  {
  }

  /** A pass makes each periodic release whose time has come, and no other: the first of them
      starts an instance, with its own deadline, unless one is under way, which goes on. */
  lemma PassReleases(v: View, now: int, x: nat) returns (r: View)
    requires Valid(v) && 0 <= now < WRAP && x < |v.tcbs| && !v.tcbs[x].blocking
    ensures r == Serve(v, now) && Numbered(v) && Numbered(r) && |r.tcbs| == |v.tcbs| && r.epoch == v.epoch
    ensures PeriodicPassed(v, r, now, x)
    ensures v.epoch * WRAP + now < Product(r.served[x], v.tcbs[x].Period())
    ensures r.tcbs[x].zombie <==> v.tcbs[x].zombie && v.served[x] == r.served[x]
    ensures !r.tcbs[x].zombie ==>
      v.epoch * WRAP + r.tcbs[x].deadline == Product(r.started[x], v.tcbs[x].Period()) + v.tcbs[x].length
  {
    r := Serve(v, now);
    ServePassed(v, now, x);
    ServedAll(v, now);
    PeriodicWaits(r, x);
    NotDue(r, now, x);
  }

  /** And starts each event-driven task that waits and whose time has come, and no other. */
  lemma PassStarts(v: View, now: int, x: nat)
    requires Valid(v) && 0 <= now < WRAP && x < |v.tcbs| && v.tcbs[x].blocking
    ensures var r := Serve(v, now);
      && |r.tcbs| == |v.tcbs|
      && (x in r.arrivals <==> x in v.arrivals && now < v.tcbs[x].low)
      && r.tcbs[x] == (if x in v.arrivals && v.tcbs[x].low <= now
                       then v.tcbs[x].(zombie := false, deadline := r.tcbs[x].deadline) else v.tcbs[x])
  {
    ServePassed(v, now, x);
    ServedAll(v, now);
    if x in Serve(v, now).arrivals {
      NotDue(Serve(v, now), now, x);
    }
  }

  // An end

  lemma EarliestFirst(tcbs: seq<Tcb>, ready: Queue)
    requires ReadyOk(tcbs, ready) && ready != []
    ensures forall y :: y in ready ==> tcbs[ready[0]].deadline <= tcbs[y].deadline
  {
    var keys := Deadlines(tcbs);
    forall y | y in ready ensures keys[ready[0]] <= keys[y] {
      var j :| 0 <= j < |ready| && ready[j] == y;
      assert j > 0 ==> keys[ready[0]] <= keys[ready[j]];
    }
  }

  /** The instance that ends is the one that runs, of the earliest deadline among those ready;
      nothing else changes, and the others stay ready in their order. */
  lemma EndIs(v: View)
    requires Valid(v) && v.ready != []
    ensures var x, r := v.ready[0], Ended(v);
      && (forall y :: y in v.ready ==> v.tcbs[x].deadline <= v.tcbs[y].deadline)
      && !v.tcbs[x].zombie && r.tcbs == v.tcbs[x := v.tcbs[x].(zombie := true)] && v.ready == [x] + r.ready
      && (forall y :: 0 <= y < |v.tcbs| ==> (y in r.ready <==> y in v.ready && y != x))
      && r.arrivals == v.arrivals && r.server == v.server && r.epoch == v.epoch
      && r.served == v.served && r.started == v.started
  {
    OnceTail(v.ready);
    EarliestFirst(v.tcbs, v.ready);
    assert v.ready[0] in v.ready;
  }

  // Over whole runs

  /** Absolute deadlines are kept, but for the clamp of an event-driven one that is past. */
  predicate SameDeadline(v: View, r: View, x: nat)
    requires x < |v.tcbs| == |r.tcbs|
  {
    || r.epoch * WRAP + r.tcbs[x].deadline == v.epoch * WRAP + v.tcbs[x].deadline
    || (v.tcbs[x].blocking && r.tcbs[x].deadline == 0 && v.epoch * WRAP + v.tcbs[x].deadline <= r.epoch * WRAP)
  }

  /** The step ends the instance of x. */
  predicate Ends(v: View, e: Event, x: nat) {
    e.EndTask? && v.ready != [] && v.ready[0] == x
  }

  lemma StepGoesOn(v: View, e: Event, x: nat)
    requires Valid(v) && Possible(v, e) && x < |v.tcbs| && !v.tcbs[x].zombie
    ensures var r := Step(v, e);
      |r.tcbs| == |v.tcbs| && (r.tcbs[x].zombie <==> Ends(v, e, x)) && SameDeadline(v, r, x)
  {
    match e
    case Timer(now) => ServeGoesOn(v, now, x);
    case EndTask => EndIs(v);
    case Signal(y, now) => assert x != y;
    case Wrap => WrapKeeps(v);
  }

  lemma RunStep(run: seq<View>, events: seq<Event>, k: nat) returns (v: View, e: Event, r: View)
    requires Run(run, events) && k < |events|
    ensures v == run[k] && e == events[k] && r == run[k + 1] && Valid(v) && Possible(v, e) && r == Step(v, e)
  {
    RunKeepsValid(run, events, k);
    v, e, r := run[k], events[k], run[k + 1];
  }

  /** In every run an instance under way stays so, with its deadline, through releases,
      signals, wraparounds and the ends of others, until it is the one that runs and ends. */
  lemma InstanceGoesOn(run: seq<View>, events: seq<Event>, k: nat, x: nat)
    requires Run(run, events) && k < |events| && x < |run[k].tcbs| && !run[k].tcbs[x].zombie
    ensures |run[k + 1].tcbs| == |run[k].tcbs| && SameDeadline(run[k], run[k + 1], x)
    ensures run[k + 1].tcbs[x].zombie <==> Ends(run[k], events[k], x)
  {
    var v, e, r := RunStep(run, events, k);
    StepGoesOn(v, e, x);
  }
}
