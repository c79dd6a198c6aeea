/** The event-driven instances of the hard kernel's runs: each start, by a pass or a signal, is a
    grant of the total bandwidth server, none before its task's previous deadline. */
module EventRuns {
  import opened Common
  import opened TimerQueues
  import opened HardRuns
  import Server

  /** The grants so far, and the task each went to. */
  datatype History = History(events: seq<Server.Event>, who: seq<nat>)

  /** The absolute deadline of a task's last grant, 0 before the first. */
  function Previous(granted: seq<Server.Granted>, who: seq<nat>, x: nat): int
    requires |who| == |granted|
  {
    if who == [] then 0
    else
      var last := |who| - 1;
      if who[last] == x then granted[last].deadline else Previous(granted[..last], who[..last], x)
  }

  /** How many grants it had. */
  function Count(who: seq<nat>, x: nat): nat {
    multiset(who)[x]
  }

  /** A time of a TCB stands for an absolute one, unless both are past and it is clamped. */
  predicate Stands(time: int, absolute: int, epoch: nat) {
    epoch * WRAP + time == absolute || (time == 0 && absolute <= epoch * WRAP)
  }

  /** The server's variable and the deadlines of the TCBs are those of the grants; a task that
      waits waits for its previous deadline. */
  ghost predicate Tied(v: View, s: Server.State, who: seq<nat>) {
    && |who| == |s.granted| && s.epoch == v.epoch && s.deadlines == v.server
    && forall x :: 0 <= x < |v.tcbs| && v.tcbs[x].blocking ==> TaskTied(v, s, who, x)
  }

  ghost predicate TaskTied(v: View, s: Server.State, who: seq<nat>, x: nat)
    requires x < |v.tcbs| && |who| == |s.granted|
  {
    var t := v.tcbs[x];
    && t.deadline >= 0
    && Stands(t.deadline, Previous(s.granted, who, x), v.epoch)
    && (x in v.arrivals ==> v.epoch * WRAP + t.low == Previous(s.granted, who, x))
  }

  /** Each grant goes to an event-driven task, for its workload, and no sooner than the deadline
      of the one before. */
  ghost predicate Fair(tcbs: seq<Tcb>, granted: seq<Server.Granted>, who: seq<nat>) {
    && |who| == |granted|
    && forall n :: 0 <= n < |who| ==> FairAt(tcbs, granted, who, n)
  }

  ghost predicate FairAt(tcbs: seq<Tcb>, granted: seq<Server.Granted>, who: seq<nat>, n: nat)
    requires n < |who| == |granted|
  {
    && who[n] < |tcbs| && tcbs[who[n]].blocking && granted[n].workload == Max0(tcbs[who[n]].length)
    && Previous(granted[..n], who[..n], who[n]) <= granted[n].release
  }

  /** What a history stands for in a state: `at` is the time last seen. */
  ghost predicate Told(v: View, h: History, at: int) {
    && Server.Runs(h.events)
    && var s := Server.After(h.events);
       Tied(v, s, h.who) && Fair(v.tcbs, s.granted, h.who) && s.seen <= at
  }

  // One grant more

  lemma PreviousNext(granted: seq<Server.Granted>, who: seq<nat>, g: Server.Granted, x: nat, y: nat)
    requires |who| == |granted|
    ensures Previous(granted + [g], who + [x], y) == if x == y then g.deadline else Previous(granted, who, y)
  {
    assert (granted + [g])[..|who|] == granted && (who + [x])[..|who|] == who;
  }

  lemma FairNext(tcbs: seq<Tcb>, granted: seq<Server.Granted>, who: seq<nat>, g: Server.Granted, x: nat)
    requires Fair(tcbs, granted, who) && x < |tcbs| && tcbs[x].blocking && g.workload == Max0(tcbs[x].length)
    requires Previous(granted, who, x) <= g.release
    ensures Fair(tcbs, granted + [g], who + [x])
  {
    var granted', who' := granted + [g], who + [x];
    forall n | 0 <= n < |who'| ensures FairAt(tcbs, granted', who', n) {
      assert who'[..n] == who[..n] && granted'[..n] == granted[..n];
      if n < |who| {
        assert FairAt(tcbs, granted, who, n);
      } else {
        assert who[..n] == who && granted[..n] == granted;
      }
    }
  }

  /** The same tasks, whatever else of their TCBs. */
  ghost predicate SameTasks(tcbs: seq<Tcb>, tcbs': seq<Tcb>) {
    && |tcbs'| == |tcbs|
    && forall x :: 0 <= x < |tcbs| ==> tcbs'[x].blocking == tcbs[x].blocking && tcbs'[x].length == tcbs[x].length
  }

  lemma FairAlike(tcbs: seq<Tcb>, tcbs': seq<Tcb>, granted: seq<Server.Granted>, who: seq<nat>)
    requires Fair(tcbs, granted, who) && SameTasks(tcbs, tcbs')
    ensures Fair(tcbs', granted, who)
  {
    forall n | 0 <= n < |who| ensures FairAt(tcbs', granted, who, n) {
      assert FairAt(tcbs, granted, who, n);
    }
  }

  /** Between two states the other event-driven tasks stay as they were. */
  ghost predicate OthersStay(v: View, r: View, x: nat) {
    && SameTasks(v.tcbs, r.tcbs) && r.epoch == v.epoch
    && forall y :: 0 <= y < |v.tcbs| && y != x && v.tcbs[y].blocking ==>
         r.tcbs[y] == v.tcbs[y] && (y in r.arrivals <==> y in v.arrivals)
  }

  /** Nothing granted. */
  lemma OthersTold(v: View, r: View, x: nat, h: History, at: int)
    requires Told(v, h, at) && OthersStay(v, r, x) && r.server == v.server && x < |v.tcbs|
    requires v.tcbs[x].blocking ==> TaskTied(r, Server.After(h.events), h.who, x)
    ensures Told(r, h, at)
  {
    var s := Server.After(h.events);
    FairAlike(v.tcbs, r.tcbs, s.granted, h.who);
    forall y | 0 <= y < |r.tcbs| && r.tcbs[y].blocking ensures TaskTied(r, s, h.who, y) {
      assert TaskTied(v, s, h.who, y);
    }
  }

  function Grants(h: History, x: nat, now: int, workload: nat): History {
    History(h.events + [Server.Grant(now, workload)], h.who + [x])
  }

  /** Task x is granted an instance, its time come. */
  lemma GrantTold(v: View, r: View, x: nat, h: History, now: int)
    requires Told(v, h, v.epoch * WRAP + now) && OthersStay(v, r, x) && 0 <= now && x < |v.tcbs| && v.tcbs[x].blocking
    requires Previous(Server.After(h.events).granted, h.who, x) <= v.epoch * WRAP + now
    requires r.server == r.tcbs[x].deadline == Server.NextDeadline(v.server, now, Max0(v.tcbs[x].length))
    requires x !in r.arrivals
    ensures Told(r, Grants(h, x, now, Max0(v.tcbs[x].length)), v.epoch * WRAP + now)
  {
    var w := Max0(v.tcbs[x].length);
    var s, h' := Server.After(h.events), Grants(h, x, now, w);
    assert h'.events[..|h.events|] == h.events;
    var s' := Server.Step(s, Server.Grant(now, w));
    assert Server.After(h'.events) == s';
    var g := Server.Granted(v.epoch * WRAP + now, v.epoch * WRAP + r.server, w);
    assert s'.granted == s.granted + [g];
    FairNext(v.tcbs, s.granted, h.who, g, x);
    FairAlike(v.tcbs, r.tcbs, s'.granted, h'.who);
    forall y | 0 <= y < |r.tcbs| && r.tcbs[y].blocking ensures TaskTied(r, s', h'.who, y) {
      PreviousNext(s.granted, h.who, g, x, y);
      assert y != x ==> TaskTied(v, s, h.who, y);
      assert TaskTied(v, s, h.who, x);
    }
  }

  // A pass and a signal

  /** The grants between two states, at one time: one for each event-driven task that starts. */
  ghost predicate Started(v: View, r: View, h: History, h': History, now: int) {
    var g, g' := Server.After(h.events).granted, Server.After(h'.events).granted;
    && |v.tcbs| == |r.tcbs| && |h.who| == |g| && |h'.who| == |g'| && h.who <= h'.who && g <= g'
    && (forall n :: |g| <= n < |g'| ==> g'[n].release == v.epoch * WRAP + now)
    && forall x :: 0 <= x < |v.tcbs| && v.tcbs[x].blocking ==>
         Count(h'.who, x) == Count(h.who, x) + if v.tcbs[x].zombie && !r.tcbs[x].zombie then 1 else 0
  }

  /** Instances under way go on. */
  ghost predicate AllGoOn(v: View, r: View) {
    && |v.tcbs| == |r.tcbs| && r.epoch == v.epoch
    && forall x :: 0 <= x < |v.tcbs| ==> GoesOn(v.tcbs[x], r.tcbs[x]) && r.tcbs[x].blocking == v.tcbs[x].blocking
  }

  lemma StartedThen(v: View, u: View, r: View, h: History, h1: History, h2: History, now: int)
    requires Started(v, u, h, h1, now) && Started(u, r, h1, h2, now) && AllGoOn(v, u) && AllGoOn(u, r)
    ensures Started(v, r, h, h2, now) && AllGoOn(v, r)
  {
  }

  lemma StartedNone(v: View, r: View, h: History, now: int)
    requires |v.tcbs| == |r.tcbs| && |h.who| == |Server.After(h.events).granted|
    requires forall x :: 0 <= x < |v.tcbs| && v.tcbs[x].blocking && v.tcbs[x].zombie ==> r.tcbs[x].zombie
    ensures Started(v, r, h, h, now)
  {
  }

  lemma StartedOne(v: View, r: View, h: History, x: nat, now: int, w: nat)
    requires |v.tcbs| == |r.tcbs| && |h.who| == |Server.After(h.events).granted|
    requires x < |v.tcbs| && v.tcbs[x].zombie && !r.tcbs[x].zombie && Server.After(h.events).epoch == v.epoch
    requires forall y :: 0 <= y < |v.tcbs| && y != x && v.tcbs[y].blocking ==> r.tcbs[y].zombie == v.tcbs[y].zombie
    ensures Started(v, r, h, Grants(h, x, now, w), now)
  {
    var h' := Grants(h, x, now, w);
    var g, g' := Server.After(h.events).granted, Server.After(h'.events).granted;
    assert h'.events[..|h.events|] == h.events;
    assert |g'| == |g| + 1 && g == g'[..|g|];
    forall y | 0 <= y < |v.tcbs| && v.tcbs[y].blocking
      ensures Count(h'.who, y) == Count(h.who, y) + if v.tcbs[y].zombie && !r.tcbs[y].zombie then 1 else 0
    {
      assert multiset(h'.who) == multiset(h.who) + multiset{x};
    }
  }

  function ReleaseHistory(v: View, h: History, now: int): History
    requires Numbered(v) && v.arrivals != []
  {
    var x := v.arrivals[0];
    if v.tcbs[x].blocking then Grants(h, x, now, Max0(v.tcbs[x].length)) else h
  }

  lemma ReleaseStays(v: View, now: int)
    requires Valid(v) && v.arrivals != [] && v.tcbs[v.arrivals[0]].Due(now)
    ensures OthersStay(v, Release(v, now), v.arrivals[0]) && AllGoOn(v, Release(v, now))
    ensures v.tcbs[v.arrivals[0]].blocking ==> v.arrivals[0] !in Release(v, now).arrivals
  {
    var x := v.arrivals[0];
    assert x in v.arrivals && Waits(v.tcbs[x]);
    ReleasedIs(v.tcbs[x], ServerAfter(v.tcbs[x], v.server, now), now);
    OnceTail(v.arrivals);
    forall y | 0 <= y < |v.tcbs| && y != x
      ensures Release(v, now).tcbs[y] == v.tcbs[y] && (y in Release(v, now).arrivals <==> y in v.arrivals)
    {
      OtherPassed(v, now, y);
    }
  }

  lemma ReleaseTold(v: View, h: History, now: int)
    requires Valid(v) && v.arrivals != [] && v.tcbs[v.arrivals[0]].Due(now)
    requires Told(v, h, v.epoch * WRAP + now) && 0 <= now
    ensures Told(Release(v, now), ReleaseHistory(v, h, now), v.epoch * WRAP + now)
    ensures Started(v, Release(v, now), h, ReleaseHistory(v, h, now), now)
  {
    var x, r := v.arrivals[0], Release(v, now);
    assert x in v.arrivals && Waits(v.tcbs[x]);
    ReleaseStays(v, now);
    if v.tcbs[x].blocking {
      assert TaskTied(v, Server.After(h.events), h.who, x);
      GrantTold(v, r, x, h, now);
      StartedOne(v, r, h, x, now, Max0(v.tcbs[x].length));
    } else {
      OthersTold(v, r, x, h, v.epoch * WRAP + now);
      StartedNone(v, r, h, now);
    }
  }

  ghost function PassHistory(v: View, h: History, now: int): History
    requires Valid(v)
    decreases Lag(v, now)
  {
    if v.arrivals == [] || !v.tcbs[v.arrivals[0]].Due(now) then h
    else
      ReleaseAhead(v, now);
      PassHistory(Release(v, now), ReleaseHistory(v, h, now), now)
  }

  lemma {:induction false} PassTold(v: View, h: History, now: int)
    requires Valid(v) && Told(v, h, v.epoch * WRAP + now) && 0 <= now
    ensures Told(Serve(v, now), PassHistory(v, h, now), v.epoch * WRAP + now)
    ensures Started(v, Serve(v, now), h, PassHistory(v, h, now), now) && AllGoOn(v, Serve(v, now))
    decreases Lag(v, now)
  {
    if v.arrivals != [] && v.tcbs[v.arrivals[0]].Due(now) {
      var u, h1 := Release(v, now), ReleaseHistory(v, h, now);
      ReleaseAhead(v, now);
      ReleaseTold(v, h, now);
      ReleaseStays(v, now);
      PassTold(u, h1, now);
      StartedThen(v, u, Serve(u, now), h, h1, PassHistory(u, h1, now), now);
    }
  }

  function SignalHistory(v: View, h: History, x: nat, now: int): History
    requires x < |v.tcbs|
  {
    if now < v.tcbs[x].deadline then h else Grants(h, x, now, Max0(v.tcbs[x].length))
  }

  lemma SignalTold(v: View, h: History, x: nat, now: int)
    requires Valid(v) && CanSignal(v, x) && Told(v, h, v.epoch * WRAP + now) && 0 <= now
    ensures Told(Signalled(v, x, now), SignalHistory(v, h, x, now), v.epoch * WRAP + now)
    ensures Started(v, Signalled(v, x, now), h, SignalHistory(v, h, x, now), now)
  {
    var r := Signalled(v, x, now);
    assert TaskTied(v, Server.After(h.events), h.who, x);
    SignalStays(v, x, now);
    if now < v.tcbs[x].deadline {
      OthersTold(v, r, x, h, v.epoch * WRAP + now);
      StartedNone(v, r, h, now);
    } else {
      GrantTold(v, r, x, h, now);
      StartedOne(v, r, h, x, now, Max0(v.tcbs[x].length));
    }
  }

  lemma SignalStays(v: View, x: nat, now: int)
    requires Valid(v) && CanSignal(v, x)
    ensures OthersStay(v, Signalled(v, x, now), x)
    ensures x in Signalled(v, x, now).arrivals <==> now < v.tcbs[x].deadline
  {
    if now < v.tcbs[x].deadline {
      InsertIn(v.arrivals, x, Times(Signalled(v, x, now).tcbs));
    }
  }

  /** A task that waits starts at the first pass from its previous deadline on, and not before. */
  lemma ComesBack(v: View, h: History, at: int, now: int, x: nat)
    requires Valid(v) && Told(v, h, at) && 0 <= now < WRAP && x < |v.tcbs| && v.tcbs[x].blocking && x in v.arrivals
    ensures var r, due := Serve(v, now), Previous(Server.After(h.events).granted, h.who, x);
      |r.tcbs| == |v.tcbs| && (!r.tcbs[x].zombie <==> due <= v.epoch * WRAP + now)
      && (x in r.arrivals <==> v.epoch * WRAP + now < due)
  {
    assert TaskTied(v, Server.After(h.events), h.who, x);
    assert Waits(v.tcbs[x]);
    PassStarts(v, now, x);
  }

  /** One signalled starts at once from its previous deadline on, and waits for it before. */
  lemma StartsOrWaits(v: View, h: History, at: int, x: nat, now: int)
    requires Valid(v) && CanSignal(v, x) && Told(v, h, at) && 0 <= now
    ensures var r, due := Signalled(v, x, now), Previous(Server.After(h.events).granted, h.who, x);
      && (!r.tcbs[x].zombie <==> due <= v.epoch * WRAP + now)
      && (x in r.arrivals <==> v.epoch * WRAP + now < due)
  {
    assert TaskTied(v, Server.After(h.events), h.who, x);
    SignalStays(v, x, now);
  }

  // A wraparound and an end

  lemma WrapTold(v: View, h: History, at: int)
    requires Valid(v) && Told(v, h, at)
    ensures Told(Wrapped(v), History(h.events + [Server.Wrap], h.who), Server.Max(at, (v.epoch + 1) * WRAP))
    ensures Started(v, Wrapped(v), h, History(h.events + [Server.Wrap], h.who), 0)
  {
    var s, events := Server.After(h.events), h.events + [Server.Wrap];
    assert events[..|h.events|] == h.events;
    var s' := Server.Step(s, Server.Wrap);
    assert Server.After(events) == s';
    FairAlike(v.tcbs, Wrapped(v).tcbs, s.granted, h.who);
    forall x | 0 <= x < |v.tcbs| && v.tcbs[x].blocking ensures TaskTied(Wrapped(v), s', h.who, x) {
      WrapTied(v, s, h.who, x);
    }
  }

  lemma WrapTied(v: View, s: Server.State, who: seq<nat>, x: nat)
    requires Tied(v, s, who) && x < |v.tcbs| && v.tcbs[x].blocking
    ensures TaskTied(Wrapped(v), Server.Step(s, Server.Wrap), who, x)
  {
    assert TaskTied(v, s, who, x);
  }

  lemma EndTold(v: View, h: History, at: int)
    requires Valid(v) && v.ready != [] && Told(v, h, at)
    ensures Told(Ended(v), h, at) && Started(v, Ended(v), h, h, 0)
  {
    var s := Server.After(h.events);
    FairAlike(v.tcbs, Ended(v).tcbs, s.granted, h.who);
    forall x | 0 <= x < |v.tcbs| && v.tcbs[x].blocking ensures TaskTied(Ended(v), s, h.who, x) {
      assert TaskTied(v, s, h.who, x);
    }
  }

  // Over whole runs

  function TimeOf(e: Event): int {
    match e case Timer(now) => now case Signal(_, now) => now case _ => 0
  }

  /** The absolute time last seen, once an event has come at one. */
  function Seen(v: View, e: Event, at: int): int {
    match e
    case Timer(now) => v.epoch * WRAP + now
    case Signal(_, now) => v.epoch * WRAP + now
    case EndTask => at
    case Wrap => Server.Max(at, (v.epoch + 1) * WRAP)
  }

  function Clock(run: seq<View>, events: seq<Event>, k: nat): int
    requires k <= |events| < |run|
  {
    if k == 0 then 0 else Seen(run[k - 1], events[k - 1], Clock(run, events, k - 1))
  }

  /** The clock of a run does not go back. */
  ghost predicate Clocked(run: seq<View>, events: seq<Event>) {
    |events| < |run| && forall k :: 0 <= k < |events| ==> Later(run[k], events[k], Clock(run, events, k))
  }

  predicate Later(v: View, e: Event, at: int) {
    e.Timer? || e.Signal? ==> at <= v.epoch * WRAP + TimeOf(e)
  }

  lemma ToldLater(v: View, h: History, at: int, at': int)
    requires Told(v, h, at) && at <= at'
    ensures Told(v, h, at')
  {
  }

  ghost function StepHistory(v: View, h: History, e: Event): History
    requires Valid(v) && Possible(v, e)
  {
    match e
    case Timer(now) => PassHistory(v, h, now)
    case Signal(x, now) => SignalHistory(v, h, x, now)
    case EndTask => h
    case Wrap => History(h.events + [Server.Wrap], h.who)
  }

  lemma StepTold(v: View, e: Event, h: History, at: int)
    requires Valid(v) && Possible(v, e) && Told(v, h, at) && Later(v, e, at)
    ensures Told(Step(v, e), StepHistory(v, h, e), Seen(v, e, at))
    ensures Started(v, Step(v, e), h, StepHistory(v, h, e), TimeOf(e))
  {
    match e
    case Timer(now) =>
      ToldLater(v, h, at, v.epoch * WRAP + now);
      PassTold(v, h, now);
    case Signal(x, now) =>
      ToldLater(v, h, at, v.epoch * WRAP + now);
      SignalTold(v, h, x, now);
    case EndTask => EndTold(v, h, at);
    case Wrap => WrapTold(v, h, at);
  }

  /** The grants of a run, up to its k-th state. */
  ghost function RunHistory(run: seq<View>, events: seq<Event>, k: nat): History
    requires k <= |events| < |run|
  {
    if k == 0 then History([], [])
    else
      var v, e, h := run[k - 1], events[k - 1], RunHistory(run, events, k - 1);
      if Valid(v) && Possible(v, e) then StepHistory(v, h, e) else h
  }

  lemma InitialTold(v: View)
    requires Initial(v)
    ensures Told(v, History([], []), 0)
  {
  }

  lemma NextTold(run: seq<View>, events: seq<Event>, k: nat)
    requires Run(run, events) && Clocked(run, events) && k < |events|
    requires Told(run[k], RunHistory(run, events, k), Clock(run, events, k))
    ensures Told(run[k + 1], RunHistory(run, events, k + 1), Clock(run, events, k + 1))
    ensures Started(run[k], run[k + 1], RunHistory(run, events, k), RunHistory(run, events, k + 1), TimeOf(events[k]))
  {
    var v, e, r := RunStep(run, events, k);
    assert Later(run[k], events[k], Clock(run, events, k));
    StepTold(v, e, RunHistory(run, events, k), Clock(run, events, k));
  }

  /** In every run whose clock does not go back the grants are a run of the server, each to an
      event-driven task for its workload and no sooner than its previous deadline; the last
      deadline granted to a task is the one in its TCB. */
  lemma {:induction false} EventGrants(run: seq<View>, events: seq<Event>, k: nat)
    requires Run(run, events) && Clocked(run, events) && k <= |events|
    ensures Told(run[k], RunHistory(run, events, k), Clock(run, events, k))
  {
    if k == 0 {
      InitialTold(run[0]);
    } else {
      EventGrants(run, events, k - 1);
      NextTold(run, events, k - 1);
    }
  }

  /** And they are the starts of event-driven instances, one for each, at the time of the pass or
      the signal that makes it. */
  lemma EventStarts(run: seq<View>, events: seq<Event>, k: nat)
    requires Run(run, events) && Clocked(run, events) && k < |events|
    ensures Started(run[k], run[k + 1], RunHistory(run, events, k), RunHistory(run, events, k + 1), TimeOf(events[k]))
  {
    EventGrants(run, events, k);
    NextTold(run, events, k);
  }

  /** So event-driven instances ask for no more than the whole of any interval. */
  lemma EventBandwidth(run: seq<View>, events: seq<Event>, k: nat, t1: int, t2: int)
    requires Run(run, events) && Clocked(run, events) && k <= |events| && t1 <= t2
    ensures var h := RunHistory(run, events, k);
      Server.Runs(h.events) && Server.Workload(Server.After(h.events).granted, t1, t2) <= t2 - t1
  {
    EventGrants(run, events, k);
    Server.BandwidthKept(RunHistory(run, events, k).events, t1, t2);
  }
}
