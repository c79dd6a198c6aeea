/** A run of the hard kernel's queues that ends where a wraparound breaks the order of the ready
    queue: a periodic task of period 2^29 and a deadline 2 less, whose second instance is
    unfinished, and an event-driven one signalled 14 ticks before the wraparound with a
    workload of 9. */
module LateWrap {
  import opened Common
  import opened TimerQueues

  const HALF: int := 0x2000_0000

  function Periodic(zombie: bool, high: int, low: int, deadline: int): Tcb {
    Tcb(false, zombie, 0, HALF, HALF - 2, high, low, deadline)
  }

  function Driven(zombie: bool, deadline: int): Tcb {
    Tcb(true, zombie, 0, 0, 9, 0, 0, deadline)
  }

  const V0 := View([Driven(true, 0), Periodic(true, 0, 0, 0)], [1], [], 0, 0, [0, 0], [0, 0])
  const V1 := View([Driven(true, 0), Periodic(false, 0, HALF, HALF - 2)], [1], [1], 0, 0, [0, 1], [0, 0])
  const V2 := View([Driven(true, 0), Periodic(true, 0, HALF, HALF - 2)], [1], [], 0, 0, [0, 1], [0, 0])
  const V3 := View([Driven(true, 0), Periodic(false, 1, 0, WRAP - 2)], [1], [1], 0, 0, [0, 2], [0, 1])
  const V4 := View([Driven(false, WRAP - 5), Periodic(false, 1, 0, WRAP - 2)], [1], [0, 1], WRAP - 5, 0, [0, 2], [0, 1])

  ghost predicate Follows(v: View, e: Event, v': View) {
    Valid(v) && Possible(v, e) && v' == Step(v, e)
  }

  /** A pass with one release to make. */
  lemma ServeOnce(v: View, now: int)
    requires Valid(v) && v.arrivals != [] && v.tcbs[v.arrivals[0]].Due(now)
    ensures Valid(Release(v, now))
    ensures var r := Release(v, now);
      r.arrivals == [] || !r.tcbs[r.arrivals[0]].Due(now) ==> Serve(v, now) == r
  {
    ReleaseAhead(v, now);
  }

  lemma Created()
    ensures Initial(V0) && Valid(V0)
  {
    assert multiset(V0.arrivals)[1] == 1;
  }

  lemma FirstReleased()
    requires Numbered(V0)
    ensures Release(V0, 0) == V1
  {
    assert V0.arrivals[0] == 1 && V0.arrivals[1..] == [];
    assert Release(V0, 0).tcbs == V1.tcbs;
  }

  lemma FirstRelease()
    requires Valid(V0)
    ensures Follows(V0, Timer(0), V1) && Valid(V1)
  {
    FirstReleased();
    ServeOnce(V0, 0);
  }

  lemma FirstEnd()
    requires Valid(V1)
    ensures Follows(V1, EndTask, V2) && Valid(V2)
  {
    EndKeeps(V1);
    assert Ended(V1).tcbs == V2.tcbs;
  }

  lemma SecondRelease()
    requires Valid(V2)
    ensures Follows(V2, Timer(HALF), V3) && Valid(V3)
  {
    assert V2.arrivals[0] == 1 && V2.arrivals[1..] == [];
    ServeOnce(V2, HALF);
    assert Release(V2, HALF).tcbs == V3.tcbs;
  }

  lemma LateSignal()
    requires Valid(V3)
    ensures Follows(V3, Signal(0, WRAP - 14), V4) && Valid(V4)
  {
    SignalKeeps(V3, 0, WRAP - 14);
    assert Signalled(V3, 0, WRAP - 14).tcbs == V4.tcbs;
    var keys := Deadlines(V4.tcbs);
    assert keys[0] <= keys[V3.ready[0]];
  }

  /** States, each following from the one before by an event. */
  ghost predicate Chained<T, E>(run: seq<T>, events: seq<E>, follows: (T, E, T) -> bool) {
    && |run| == |events| + 1
    && forall k :: 0 <= k < |events| ==> follows(run[k], events[k], run[k + 1])
  }

  lemma OneMore<T, E>(run: seq<T>, events: seq<E>, follows: (T, E, T) -> bool, e: E, v: T)
    requires Chained(run, events, follows) && follows(run[|events|], e, v)
    ensures Chained(run + [v], events + [e], follows)
  {
  }

  ghost function Steps(): (View, Event, View) -> bool {
    (v: View, e: Event, v': View) => Follows(v, e, v')
  }

  ghost predicate Reaches(run: seq<View>, events: seq<Event>) {
    Chained(run, events, Steps()) && Initial(run[0])
  }

  lemma OneMoreStep(run: seq<View>, events: seq<Event>, e: Event, v: View)
    requires Reaches(run, events) && Follows(run[|events|], e, v)
    ensures Reaches(run + [v], events + [e])
  {
    OneMore(run, events, Steps(), e, v);
  }

  lemma ChainRuns(run: seq<View>, events: seq<Event>)
    requires Reaches(run, events)
    ensures Run(run, events)
  {
    forall k | 0 <= k < |events|
      ensures Valid(run[k]) ==> Possible(run[k], events[k]) && run[k + 1] == Step(run[k], events[k])
    {
      assert Steps()(run[k], events[k], run[k + 1]);
    }
  }

  const EVENTS1: seq<Event> := [Timer(0)]
  const EVENTS2 := EVENTS1 + [EndTask]
  const EVENTS3 := EVENTS2 + [Timer(HALF)]
  const EVENTS4 := EVENTS3 + [Signal(0, WRAP - 14)]
  const RUN1: seq<View> := [V0, V1]
  const RUN2 := RUN1 + [V2]
  const RUN3 := RUN2 + [V3]
  const RUN4 := RUN3 + [V4]

  lemma LateSteps1()
    ensures Reaches(RUN1, EVENTS1) && Valid(V1)
  {
    Created();
    FirstRelease();
    OneMoreStep([V0], [], Timer(0), V1);
    assert [V0] + [V1] == RUN1 && [] + [Timer(0)] == EVENTS1;
  }

  lemma LateSteps2()
    ensures Reaches(RUN2, EVENTS2) && Valid(V2)
  {
    LateSteps1();
    FirstEnd();
    OneMoreStep(RUN1, EVENTS1, EndTask, V2);
  }

  lemma LateSteps3()
    ensures Reaches(RUN3, EVENTS3) && Valid(V3)
  {
    LateSteps2();
    SecondRelease();
    OneMoreStep(RUN2, EVENTS2, Timer(HALF), V3);
  }

  lemma LateSteps4()
    ensures Reaches(RUN4, EVENTS4) && Valid(V4)
  {
    LateSteps3();
    LateSignal();
    OneMoreStep(RUN3, EVENTS3, Signal(0, WRAP - 14), V4);
  }

  lemma LateEnd()
    requires Valid(V4)
    ensures !CanWrap(V4) && !Valid(Wrapped(V4))
    ensures |Wrapped(V4).tcbs| == 2 && !Sorted(V4.ready, Deadlines(Wrapped(V4).tcbs))
  {
    assert Late(V4.tcbs[V4.ready[0]], true) && Late(V4.tcbs[V4.ready[1]], false);
    WrappedOrder(V4);
    WrapKeeps(V4);
  }

  /** Runs reach states a wraparound breaks: the event-driven instance, past its deadline, is
      clamped behind the periodic one, and stays before it. */
  lemma LateEventReorders()
    ensures Run(RUN4, EVENTS4) && RUN4[4] == V4 && Valid(V4)
    ensures !CanWrap(V4) && !Valid(Wrapped(V4))
    ensures |Wrapped(V4).tcbs| == 2 && !Sorted(V4.ready, Deadlines(Wrapped(V4).tcbs))
  {
    LateSteps4();
    ChainRuns(RUN4, EVENTS4);
    LateEnd();
  }
}
