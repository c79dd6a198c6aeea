/** The kernel's simulated queue is no exact mimic of the full-speed schedule: a run, ends
    served before releases, that leaves it strictly below. */
module DraMimic {
  import opened EdfStar
  import opened Speed
  import opened DraKernel
  import opened DraSafety

  /** A task of WCET 2 and period 4, whose first instance takes 1 tick, and a task of WCET 4. */
  const FIRST := Job(0, 0, 4)
  const LONG := Job(1, 0, 7)
  const SECOND := Job(0, 4, 8)

  /** No slower point: the speed has no part in it. */
  const P := Points([])

  const D1 := Demand(Arrival(FIRST, 2), 256)
  const D2 := Demand(Arrival(LONG, 4), 1024)
  const D3 := Demand(Arrival(SECOND, 2), 512)
  const BOTH := Timer([D1, D2])
  const AGAIN := Timer([D3])

  const K1 := Kernel(0, [Entry(FIRST, 2), Entry(LONG, 4)], [Entry(FIRST, 2), Entry(LONG, 4)], 0, 0, 0)
  const K2 := Kernel(1, [Entry(FIRST, 1), Entry(LONG, 4)], [Entry(LONG, 4)], 1, 0, 0)
  const K3 := Kernel(4, [Entry(LONG, 1), Entry(SECOND, 2)], [Entry(LONG, 1), Entry(SECOND, 2)], 4, 0, 0)
  const LATEST: map<nat, int> := map[0 := 4, 1 := 7]

  function Served(k: Kernel, now: int, first: int, long: int): World {
    World(now, k, map[FIRST := first, LONG := long], LATEST)
  }

  /** A run with its last state and the full-speed schedule's. */
  ghost predicate Reaches(events: seq<Event>, w: World, canon: Queue) {
    Runs(P, events) && Prompt(P, events) && After(P, events) == w && FullSpeed(events) == canon
  }

  lemma OneMore(events: seq<Event>, w: World, canon: Queue, e: Event)
    requires Reaches(events, w, canon) && Enabled(P, w, e)
    requires e.Timer? ==>
      && (w.k.ready != [] && w.k.ready[0].job in w.need ==> w.need[w.k.ready[0].job] > 0)
      && forall d :: d in e.due ==> d.work > 0
    ensures Reaches(events + [e], Next(P, w, e), Canonical(canon, e))
  {
    assert (events + [e])[..|events|] == events;
  }

  /** A pass with its arrivals, one after the other. */
  lemma ServeOne(s: Pass, d: Demand, now: int, active: Active)
    ensures Arrivals([d]) == [d.arrival]
    ensures Serve(s, [d.arrival], now, active) == Release(s, d.arrival, now, active)
  {
    assert [d.arrival][..0] == [];
  }

  lemma ServeTwo(s: Pass, d: Demand, e: Demand, now: int, active: Active)
    ensures Arrivals([d, e]) == [d.arrival, e.arrival]
    ensures Serve(s, [d.arrival, e.arrival], now, active)
         == Release(Release(s, d.arrival, now, active), e.arrival, now, active)
  {
    ServeOne(s, d, now, active);
    assert [d.arrival, e.arrival][..1] == [d.arrival];
  }

  lemma FirstServed()
    ensures Release(Release(Pass(START.k, true), D1.arrival, 0, Idle), D2.arrival, 0, Idle) == Pass(K1, false)
  {
    var s := Release(Pass(START.k, true), D1.arrival, 0, Idle);
    assert s == Pass(Kernel(0, [Entry(FIRST, 2)], [Entry(FIRST, 2)], 0, 0, 0), false);
    assert Unlink(s.k.sim, 1) == s.k.sim;
  }

  lemma FirstPass()
    ensures Interrupt(P, START.k, 0, Arrivals(BOTH.due)) == K1
  {
    ServeTwo(Pass(START.k, true), D1, D2, 0, Idle);
    FirstServed();
  }

  lemma FirstDue()
    ensures Legal(map[], [D1, D2]) && Latest(map[], [D1, D2]) == LATEST
    ensures Needs(map[], [D1, D2]) == map[FIRST := 256, LONG := 1024]
    ensures PlaceAll([], [D1, D2]) == K1.sim
  {
    assert [D1, D2][..1] == [D1] && [D1][..0] == [];
    assert Legal(map[], []) && Legal(map[], [D1]) && Latest(map[], [D1]) == map[][0 := 4];
    assert PlaceAll([], [D1]) == [Entry(FIRST, 2)] && [Entry(FIRST, 2)][1..] == [];
    assert Place([], Entry(LONG, 4)) == [Entry(LONG, 4)];
    assert Needs(map[], [D1]) == map[][FIRST := 256];
    assert FIRST != LONG && map[][FIRST := 256][LONG := 1024] == map[FIRST := 256, LONG := 1024];
  }

  lemma SecondDue(w: World)
    requires w.latest == LATEST
    ensures Legal(LATEST, [D3])
    ensures Needs(w.need, [D3]) == w.need[SECOND := 512]
    ensures PlaceAll([Entry(LONG, 2)], [D3]) == [Entry(LONG, 2), Entry(SECOND, 2)]
  {
    var due := [D3];
    assert due[..|due| - 1] == [] && Legal(LATEST, []) && LATEST[0] == 4;
    assert Place([], Entry(SECOND, 2)) == [Entry(SECOND, 2)];
    assert [Entry(LONG, 2)][1..] == [];
  }

  lemma Ends()
    ensures End(P, K1, 1) == K2
  {
  }

  lemma SecondServed()
    ensures Release(Pass(K2, true), D3.arrival, 4, Running(1))
         == Pass(K2.(sim := [Entry(LONG, 4), Entry(SECOND, 2)], ready := [Entry(LONG, 4), Entry(SECOND, 2)]), true)
  {
    assert K2.sim[1..] == [Entry(LONG, 4)] && Unlink([Entry(LONG, 4)], 0) == [Entry(LONG, 4)];
  }

  lemma SecondPass()
    ensures Interrupt(P, K2, 4, Arrivals(AGAIN.due)) == K3
  {
    ServeOne(Pass(K2, true), D3, 4, Running(1));
    SecondServed();
  }

  // The run

  const STARTED: seq<Event> := [BOTH]
  const ENDED := STARTED + [Tick] + [EndTask]
  const WAITED := ENDED + [Tick] + [Tick] + [Tick]
  const MIMIC := WAITED + [AGAIN]

  lemma Started()
    ensures Reaches(STARTED, Served(K1, 0, 256, 1024), K1.sim)
  {
    FirstPass();
    FirstDue();
    OneMore([], START, [], BOTH);
    assert [] + [BOTH] == STARTED;
  }

  lemma FirstTick()
    ensures Enabled(P, Served(K1, 0, 256, 1024), Tick)
    ensures Next(P, Served(K1, 0, 256, 1024), Tick) == Served(K1, 1, 0, 1024)
    ensures Canonical(K1.sim, Tick) == K2.sim
  {
    assert map[FIRST := 256, LONG := 1024][FIRST := 0] == map[FIRST := 0, LONG := 1024];
  }

  lemma LaterTick(now: int, need: int)
    requires need > 0
    ensures Enabled(P, Served(K2, now, 0, need), Tick)
    ensures Next(P, Served(K2, now, 0, need), Tick) == Served(K2, now + 1, 0, need - 256)
  {
    assert map[FIRST := 0, LONG := need][LONG := need - 256] == map[FIRST := 0, LONG := need - 256];
  }

  lemma FirstEnded()
    ensures Reaches(ENDED, Served(K2, 1, 0, 1024), K2.sim)
  {
    Started();
    FirstTick();
    Ends();
    OneMore(STARTED, Served(K1, 0, 256, 1024), K1.sim, Tick);
    OneMore(STARTED + [Tick], Served(K1, 1, 0, 1024), K2.sim, EndTask);
  }

  lemma WaitOne(events: seq<Event>, now: int, need: int, canon: Queue)
    requires Reaches(events, Served(K2, now, 0, need), canon) && need > 0
    ensures Reaches(events + [Tick], Served(K2, now + 1, 0, need - 256), Drain(canon, 1))
  {
    LaterTick(now, need);
    OneMore(events, Served(K2, now, 0, need), canon, Tick);
  }

  lemma Drained()
    ensures Drain(K2.sim, 1) == [Entry(LONG, 4)] && Drain([Entry(LONG, 4)], 1) == [Entry(LONG, 3)]
    ensures Drain([Entry(LONG, 3)], 1) == [Entry(LONG, 2)]
  {
    assert K2.sim[1..] == [Entry(LONG, 4)];
  }

  lemma Waited()
    ensures Reaches(WAITED, Served(K2, 4, 0, 256), [Entry(LONG, 2)])
  {
    FirstEnded();
    Drained();
    WaitOne(ENDED, 1, 1024, K2.sim);
    WaitOne(ENDED + [Tick], 2, 768, [Entry(LONG, 4)]);
    WaitOne(ENDED + [Tick] + [Tick], 3, 512, [Entry(LONG, 3)]);
  }

  /** The first task's old instance, still to be drained, is taken out, and what it had left is
      drained from the other: the kernel leaves that one 1 tick, the full-speed schedule 2. */
  lemma StrictlyBelow()
    ensures Runs(P, MIMIC) && Prompt(P, MIMIC)
    ensures After(P, MIMIC).k == K3 && K3.simTime == After(P, MIMIC).now
    ensures FullSpeed(MIMIC) == [Entry(LONG, 2), Entry(SECOND, 2)]
    ensures Ahead(K3.sim, LONG, true) < Ahead(FullSpeed(MIMIC), LONG, true)
  {
    Waited();
    SecondPass();
    SecondDue(Served(K2, 4, 0, 256));
    OneMore(WAITED, Served(K2, 4, 0, 256), [Entry(LONG, 2)], AGAIN);
  }
}
