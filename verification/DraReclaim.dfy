/** What dynamic reclaiming gives, the other side of its safety: the kernel's simulated queue is
    no further below the full-speed schedule than the time releases took out of it; the speed is
    the slowest the slack allows; RemainingWork is rounded by no more than a tick each time; and
    every instance released stays ready until its work is done. */
module DraReclaim {
  import opened Arith
  import opened Common
  import opened EdfStar
  import opened Speed
  import opened DraKernel
  import opened DraSafety

  // The simulated queue from below

  /** The canonical queue holds no more ahead of any instance than the simulated one, once
      drained, and what was lost. */
  ghost predicate Above(sim: Queue, late: int, canon: Queue, lost: int) {
    forall j :: Ahead(canon, j, true) <= Max0(Ahead(sim, j, true) - late) + lost
  }

  /** The time of the entries of a task. */
  function TakenOut(q: Queue, t: nat): int {
    if q == [] then 0 else (if q[0].job.task == t then q[0].time else 0) + TakenOut(q[1..], t)
  }

  lemma {:induction false} UnlinkLoses(q: Queue, t: nat, j: Job)
    requires Lasting(q)
    ensures Ahead(q, j, true) <= Ahead(Unlink(q, t), j, true) + TakenOut(q, t) && TakenOut(q, t) >= 0
  {
    if q != [] {
      UnlinkLoses(q[1..], t, j);
    }
  }

  /** What the insertion of a new instance loses: what its TCB's old one had left, and what the
      simulation is behind beyond all it holds before the new one. */
  function InsertLoss(sim: Queue, late: int, x: Entry): int {
    TakenOut(sim, x.job.task) + Max0(late - Ahead(sim, x.job, false))
  }

  lemma AheadFrom(q: Queue, i: Job, j: Job)
    requires Lasting(q) && Counts(i, j, true)
    ensures Ahead(q, i, false) <= Ahead(q, j, true)
  {
    AheadLasts(q, i);
    AheadLasts(q, j);
    if i != j {
      AheadRises(q, i, j);
    }
  }

  lemma InsertAbove(sim: Queue, canon: Queue, late: int, lost: int, x: Entry)
    requires Lasting(sim) && Above(sim, late, canon, lost) && x.time >= 0
    ensures Above(SimInsert(sim, x), late, Place(canon, x), lost + InsertLoss(sim, late, x))
    ensures InsertLoss(sim, late, x) >= 0
  {
    UnlinkLoses(sim, x.job.task, x.job);
    forall j
      ensures Ahead(Place(canon, x), j, true)
           <= Max0(Ahead(SimInsert(sim, x), j, true) - late) + lost + InsertLoss(sim, late, x)
    {
      PlaceAhead(canon, x, j, true);
      PlaceAhead(Unlink(sim, x.job.task), x, j, true);
      UnlinkLoses(sim, x.job.task, j);
      if Counts(x.job, j, true) {
        AheadFrom(sim, x.job, j);
      }
    }
  }

  /** A release skipped is in the full-speed schedule all the same. */
  lemma SkipAbove(sim: Queue, canon: Queue, late: int, lost: int, x: Entry)
    requires Above(sim, late, canon, lost) && x.time >= 0
    ensures Above(sim, late, Place(canon, x), lost + x.time)
  {
    forall j ensures Ahead(Place(canon, x), j, true) <= Max0(Ahead(sim, j, true) - late) + lost + x.time {
      PlaceAhead(canon, x, j, true);
    }
  }

  lemma TickAbove(sim: Queue, canon: Queue, late: int, lost: int)
    requires Sorted(canon) && Lasting(canon) && Above(sim, late, canon, lost) && lost >= 0
    ensures Above(sim, late + 1, Drain(canon, 1), lost)
  {
    forall j ensures Ahead(Drain(canon, 1), j, true) <= Max0(Ahead(sim, j, true) - late - 1) + lost {
      DrainAhead(canon, 1, j, true);
    }
  }

  lemma DrainAbove(sim: Queue, canon: Queue, late: nat, lost: int)
    requires Sorted(sim) && Lasting(sim) && Above(sim, late, canon, lost)
    ensures Above(Drain(sim, late), 0, canon, lost)
  {
    forall j ensures Ahead(canon, j, true) <= Max0(Ahead(Drain(sim, late), j, true)) + lost {
      DrainAhead(sim, late, j, true);
    }
  }

  /** The simulation at a time. */
  ghost predicate SimAbove(k: Kernel, now: int, canon: Queue, lost: int) {
    k.simTime <= now && Above(k.sim, now - k.simTime, canon, lost)
  }

  lemma SimToAbove(k: Kernel, now: int, canon: Queue, lost: int)
    requires Sorted(k.sim) && Lasting(k.sim) && SimAbove(k, now, canon, lost)
    ensures SimAbove(SimTo(k, now), now, canon, lost)
  {
    if k.simTime < now {
      DrainAbove(k.sim, canon, now - k.simTime, lost);
    }
  }

  // The handler

  /** What one release loses, and those of a pass. */
  function ReleaseLoss(s: Pass, a: Arrival, now: int, active: Active): int {
    if HasTask(s.k.ready, a.job.task) then a.wcet
    else
      var change := s.late && Head(Place(s.k.ready, Entry(a.job, a.wcet))) != active;
      var k := if change then SimTo(s.k, now) else s.k;
      InsertLoss(k.sim, now - k.simTime, Entry(a.job, a.wcet))
  }

  function PassLoss(s: Pass, due: seq<Arrival>, now: int, active: Active): int {
    if due == [] then 0
    else
      var last := |due| - 1;
      PassLoss(s, due[..last], now, active) + ReleaseLoss(Serve(s, due[..last], now, active), due[last], now, active)
  }

  lemma ReleaseAbove(s: Pass, d: Demand, canon: Queue, now: int, active: Active, lost: int)
    requires Sorted(s.k.sim) && Lasting(s.k.sim) && SimAbove(s.k, now, canon, lost)
    ensures var a := d.arrival;
      && SimAbove(Release(s, a, now, active).k, now, Place(canon, Entry(a.job, a.wcet)),
                  lost + ReleaseLoss(s, a, now, active))
      && ReleaseLoss(s, a, now, active) >= 0
  {
    var a := d.arrival;
    if HasTask(s.k.ready, a.job.task) {
      SkipAbove(s.k.sim, canon, now - s.k.simTime, lost, Entry(a.job, a.wcet));
    } else if s.late && Head(Place(s.k.ready, Entry(a.job, a.wcet))) != active {
      SimToAbove(s.k, now, canon, lost);
      SimToLasts(s.k, now);
      NewAbove(SimTo(s.k, now), canon, now, lost, Entry(a.job, a.wcet));
    } else {
      NewAbove(s.k, canon, now, lost, Entry(a.job, a.wcet));
    }
  }

  lemma NewAbove(k: Kernel, canon: Queue, now: int, lost: int, x: Entry)
    requires Lasting(k.sim) && SimAbove(k, now, canon, lost) && x.time >= 0
    ensures SimAbove(k.(ready := Place(k.ready, x), sim := SimInsert(k.sim, x)), now, Place(canon, x),
                     lost + InsertLoss(k.sim, now - k.simTime, x))
    ensures InsertLoss(k.sim, now - k.simTime, x) >= 0
  {
    InsertAbove(k.sim, canon, now - k.simTime, lost, x);
  }

  lemma SimToLasts(k: Kernel, now: int)
    requires Sorted(k.sim) && Lasting(k.sim)
    ensures Sorted(SimTo(k, now).sim) && Lasting(SimTo(k, now).sim)
  {
    DrainSorted(k.sim, now - k.simTime);
  }

  lemma LossLast(s: Pass, due: seq<Demand>, now: int, active: Active)
    requires due != []
    ensures var before := Arrivals(due[..|due| - 1]);
      PassLoss(s, Arrivals(due), now, active)
      == PassLoss(s, before, now, active)
         + ReleaseLoss(Serve(s, before, now, active), due[|due| - 1].arrival, now, active)
  {
    assert Arrivals(due)[..|due| - 1] == Arrivals(due[..|due| - 1]);
  }

  lemma {:induction false} PassAbove(s: Pass, due: seq<Demand>, need: map<Job, int>, canon: Queue,
                                     latest: map<nat, int>, now: int, active: Active, sofar: int, lost: int)
    requires Serving(s, need, canon, latest, now, active, sofar) && Legal(latest, due)
    requires SimAbove(s.k, now, canon, lost)
    ensures SimAbove(Serve(s, Arrivals(due), now, active).k, now, PlaceAll(canon, due),
                     lost + PassLoss(s, Arrivals(due), now, active))
    ensures PassLoss(s, Arrivals(due), now, active) >= 0
  {
    if due != [] {
      var before := due[..|due| - 1];
      PassAbove(s, before, need, canon, latest, now, active, sofar, lost);
      ServeKeeps(s, before, need, canon, latest, now, active, sofar);
      ServeLast(s, due, now, active);
      LossLast(s, due, now, active);
      ReleaseAbove(Serve(s, Arrivals(before), now, active), due[|due| - 1], PlaceAll(canon, before), now, active,
                   lost + PassLoss(s, Arrivals(before), now, active));
    }
  }

  lemma AccountSim(p: Points, k: Kernel, now: int, active: Active)
    ensures Account(p, k, now, active).sim == k.sim && Account(p, k, now, active).simTime == k.simTime
  {
  }

  lemma DispatchAbove(p: Points, s: Pass, now: int, canon: Queue, lost: int)
    requires s.k.minimal <= p.Fastest() && Sorted(s.k.sim) && Lasting(s.k.sim) && SimAbove(s.k, now, canon, lost)
    ensures SimAbove(Dispatch(p, s, now), now, canon, lost)
  {
    SimToAbove(s.k, now, canon, lost);
  }

  // Over whole runs

  /** What releases took out of the simulated queue since the full-speed schedule last had nothing
      to do. */
  function Lost(p: Points, events: seq<Event>): int
    requires Runs(p, events)
  {
    if events == [] || FullSpeed(events) == [] then 0
    else
      var last := |events| - 1;
      var w := After(p, events[..last]);
      Lost(p, events[..last]) + StepLoss(w, events[last])
  }

  function StepLoss(w: World, e: Event): int {
    if e.Timer? then PassLoss(Pass(w.k, true), Arrivals(e.due), w.now, Head(w.k.ready)) else 0
  }

  lemma StepAbove(p: Points, w: World, e: Event, canon: Queue, lost: int)
    requires p.Valid() && Inv(p, w, canon) && Enabled(p, w, e) && SimAbove(w.k, w.now, canon, lost) && lost >= 0
    ensures StepLoss(w, e) >= 0
    ensures SimAbove(Next(p, w, e).k, Next(p, w, e).now, Canonical(canon, e), lost + StepLoss(w, e))
  {
    match e
    case Tick => TickAbove(w.k.sim, canon, w.now - w.k.simTime, lost);
    case Timer(due) => TimerAbove(p, w, due, canon, lost);
    case EndTask => SimToAbove(w.k, w.now, canon, lost);
    case SetMinimal(s) =>
  }

  lemma TimerAbove(p: Points, w: World, due: seq<Demand>, canon: Queue, lost: int)
    requires p.Valid() && Inv(p, w, canon) && Enabled(p, w, Timer(due)) && SimAbove(w.k, w.now, canon, lost)
    ensures var more := PassLoss(Pass(w.k, true), Arrivals(due), w.now, Head(w.k.ready));
      more >= 0 && SimAbove(Next(p, w, Timer(due)).k, w.now, PlaceAll(canon, due), lost + more)
  {
    var active, s := Head(w.k.ready), Pass(w.k, true);
    var r := ServedAbove(p, w, due, canon, lost);
    AccountSim(p, r.k, w.now, active);
    DispatchAbove(p, r.(k := Account(p, r.k, w.now, active)), w.now, PlaceAll(canon, due),
                  lost + PassLoss(s, Arrivals(due), w.now, active));
  }

  /** The releases of a pass. */
  lemma ServedAbove(p: Points, w: World, due: seq<Demand>, canon: Queue, lost: int) returns (r: Pass)
    requires Inv(p, w, canon) && Enabled(p, w, Timer(due)) && SimAbove(w.k, w.now, canon, lost)
    ensures var active, s := Head(w.k.ready), Pass(w.k, true);
      && r == Serve(s, Arrivals(due), w.now, active) && Sorted(r.k.sim) && Lasting(r.k.sim)
      && PassLoss(s, Arrivals(due), w.now, active) >= 0
      && SimAbove(r.k, w.now, PlaceAll(canon, due), lost + PassLoss(s, Arrivals(due), w.now, active))
  {
    var active, sofar := Head(w.k.ready), Sofar(p, w.k.speed, w.k.updated, w.now);
    var s := Pass(w.k, true);
    InvServing(p, w, canon);
    PassAbove(s, due, w.need, canon, w.latest, w.now, active, sofar, lost);
    ServeKeeps(s, due, w.need, canon, w.latest, w.now, active, sofar);
    r := Serve(s, Arrivals(due), w.now, active);
  }

  lemma NothingAbove(sim: Queue, late: int)
    ensures Above(sim, late, [], 0)
  {
  }

  /** In every run the kernel's simulated queue is below the full-speed schedule by no more than
      that. */
  lemma {:induction false} RunAbove(p: Points, events: seq<Event>)
    requires p.Valid() && Runs(p, events)
    ensures SimAbove(After(p, events).k, After(p, events).now, FullSpeed(events), Lost(p, events))
    ensures Lost(p, events) >= 0
  {
    if events != [] {
      var before := events[..|events| - 1];
      RunAbove(p, before);
      RunKeepsInv(p, before);
      StepAbove(p, After(p, before), events[|events| - 1], FullSpeed(before), Lost(p, before));
      NothingAbove(After(p, events).k.sim, After(p, events).now - After(p, events).k.simTime);
    }
  }

  /** With nothing taken out the simulation, brought up to date, is the full-speed schedule. */
  lemma ExactMimic(p: Points, events: seq<Event>, j: Job)
    requires p.Valid() && Runs(p, events) && Lost(p, events) == 0
    ensures var w := After(p, events);
      Max0(Ahead(w.k.sim, j, true) - (w.now - w.k.simTime)) == Ahead(FullSpeed(events), j, true)
  {
    RunAbove(p, events);
    RunBelow(p, events);
    BothSides(After(p, events).k, After(p, events).now, FullSpeed(events), j);
  }

  lemma RunBelow(p: Points, events: seq<Event>)
    requires p.Valid() && Runs(p, events)
    ensures SimBelow(After(p, events).k, After(p, events).now, FullSpeed(events))
  {
    RunKeepsInv(p, events);
  }

  lemma BothSides(k: Kernel, now: int, canon: Queue, j: Job)
    requires SimBelow(k, now, canon) && SimAbove(k, now, canon, 0)
    ensures Max0(Ahead(k.sim, j, true) - (now - k.simTime)) == Ahead(canon, j, true)
  {
  }

  // The speed

  /** The simulation and the work are up to date, and the speed is the one for the head. */
  predicate Chosen(p: Points, k: Kernel, now: int) {
    k.ready != [] && k.minimal <= p.Fastest() ==>
      && k.simTime == now == k.updated
      && k.speed == SpeedFor(p, k.minimal, k.ready[0].time, Slack(k.sim, k.ready[0].job.task))
  }

  lemma DispatchChooses(p: Points, s: Pass, now: int)
    requires s.k.minimal <= p.Fastest() && s.k.simTime <= now && (!s.late ==> s.k.simTime == now)
    ensures Chosen(p, Dispatch(p, s, now), now)
  {
  }

  lemma EndChooses(p: Points, k: Kernel, now: int)
    requires k.ready != [] && k.minimal <= p.Fastest() && k.simTime <= now
    ensures Chosen(p, End(p, k, now), now)
  {
  }

  lemma TimerChooses(p: Points, w: World, due: seq<Demand>, canon: Queue)
    requires p.Valid() && Inv(p, w, canon) && Enabled(p, w, Timer(due))
    ensures Chosen(p, Next(p, w, Timer(due)).k, w.now)
  {
    var active, sofar := Head(w.k.ready), Sofar(p, w.k.speed, w.k.updated, w.now);
    ServeKeeps(Pass(w.k, true), due, w.need, canon, w.latest, w.now, active, sofar);
    var r := Serve(Pass(w.k, true), Arrivals(due), w.now, active);
    AccountSim(p, r.k, w.now, active);
    DispatchChooses(p, r.(k := Account(p, r.k, w.now, active)), w.now);
  }

  /** What the slack of an instance is: all that is simulated up to its own entry, or none. */
  ghost function SlackOf(sim: Queue, j: Job): int {
    if exists x :: x in sim && x.job == j then Ahead(sim, j, true) else 0
  }

  lemma HeadSlack(k: Kernel, need: map<Job, int>, canon: Queue, latest: map<nat, int>)
    requires Shape(k, need, canon, latest) && k.ready != []
    ensures Slack(k.sim, k.ready[0].job.task) == SlackOf(k.sim, k.ready[0].job)
  {
    assert k.ready[0] in k.ready;
    SlackIsAhead(k.sim, k.ready[0].job);
  }

  /** After each pass and each end the speed is the slowest allowed at which the head's
      RemainingWork, taken exactly, fits in its slack, or the fastest. */
  lemma SpeedChosen(p: Points, events: seq<Event>, s: nat)
    requires p.Valid() && Runs(p, events) && events != []
    requires events[|events| - 1].Timer? || events[|events| - 1].EndTask?
    requires After(p, events).k.ready != []
    ensures var w := After(p, events);
      var k, x := w.k, w.k.ready[0];
      && k.simTime == w.now == k.updated && k.minimal <= k.speed <= p.Fastest()
      && (x.time <= 0 ==> k.speed == p.Fastest())
      && (k.speed < p.Fastest() ==> 256 * x.time <= p.Ratio(k.speed) * SlackOf(k.sim, x.job))
      && (x.time > 0 && k.minimal <= s < k.speed ==> 256 * x.time > p.Ratio(s) * SlackOf(k.sim, x.job))
  {
    var before := events[..|events| - 1];
    var w0, w := After(p, before), After(p, events);
    RunKeepsInv(p, before);
    RunKeepsInv(p, events);
    match events[|events| - 1] {
      case Timer(due) => TimerChooses(p, w0, due, FullSpeed(before));
      case EndTask => EndChooses(p, w0.k, w0.now);
    }
    HeadSlack(w.k, w.need, FullSpeed(events), w.latest);
    if w.k.ready[0].time > 0 {
      SpeedIsSlowest(p, w.k.minimal, w.k.ready[0].time, SlackOf(w.k.sim, w.k.ready[0].job), s);
    }
  }

  /** And with nothing taken out the slack is the whole of the full-speed schedule's time up to
      the instance's own. */
  lemma SlackIsWhole(p: Points, events: seq<Event>, j: Job)
    requires p.Valid() && Runs(p, events) && Lost(p, events) == 0
    requires After(p, events).k.simTime == After(p, events).now && Own(FullSpeed(events), j) > 0
    ensures SlackOf(After(p, events).k.sim, j) == Ahead(FullSpeed(events), j, true)
  {
    var sim, canon := After(p, events).k.sim, FullSpeed(events);
    RunKeepsInv(p, events);
    forall i ensures Max0(Ahead(sim, i, true)) == Ahead(canon, i, true) {
      ExactMimic(p, events, i);
    }
    AheadLasts(sim, j);
    BeforeIt(sim, canon, j);
    OwnIn(sim, j);
  }

  /** What lies ahead of an instance is what lies up to the last entry before it. */
  lemma {:induction false} LastBefore(q: Queue, j: Job) returns (n: nat)
    requires Sorted(q) && Lasting(q) && Ahead(q, j, false) > 0
    ensures n < |q| && Before(q[n].job, j) && Ahead(q, q[n].job, true) == Ahead(q, j, false)
  {
    var rest := q[1..];
    if !Before(q[0].job, j) {
      NoneAhead(q, j, false);
    }
    if Ahead(rest, j, false) > 0 {
      n := LastBefore(rest, j);
      n := n + 1;
      assert q[n] == rest[n - 1] && Before(q[0].job, q[n].job);
    } else {
      n := 0;
      AheadLasts(rest, j);
      assert rest != [] ==> Before(q[0].job, q[1].job);
      NoneAhead(rest, q[0].job, true);
    }
  }

  lemma BeforeIt(sim: Queue, canon: Queue, j: Job)
    requires Sorted(sim) && Lasting(sim) && Lasting(canon)
    requires forall i :: Max0(Ahead(sim, i, true)) == Ahead(canon, i, true)
    ensures Ahead(sim, j, false) <= Ahead(canon, j, false)
  {
    AheadLasts(canon, j);
    if Ahead(sim, j, false) > 0 {
      var n := LastBefore(sim, j);
      var i := sim[n].job;
      assert Max0(Ahead(sim, i, true)) == Ahead(canon, i, true);
      AheadRises(canon, i, j);
    }
  }

  // RemainingWork, exactly

  /** What each instance released has left of its WCET, in 256ths, and how often its work was
      counted. */
  datatype Work = Work(left: map<Job, int>, rounds: map<Job, nat>)

  function Fresh(b: Work, due: seq<Demand>): Work {
    if due == [] then b
    else
      var last := |due| - 1;
      var a, before := due[last].arrival, Fresh(b, due[..last]);
      Work(before.left[a.job := 256 * a.wcet], before.rounds[a.job := 0])
  }

  /** The work of the running task is counted. */
  function Counted(b: Work, ready: Queue): Work {
    if ready != [] && ready[0].job in b.rounds
    then b.(rounds := b.rounds[ready[0].job := b.rounds[ready[0].job] + 1])
    else b
  }

  function Worked(p: Points, events: seq<Event>): Work
    requires Runs(p, events)
  {
    if events == [] then Work(map[], map[])
    else
      var last := |events| - 1;
      var w, b := After(p, events[..last]), Worked(p, events[..last]);
      match events[last]
      case Tick =>
        if w.k.ready != [] && w.k.ready[0].job in b.left
        then b.(left := b.left[w.k.ready[0].job := b.left[w.k.ready[0].job] - p.Ratio(w.k.speed)])
        else b
      case Timer(due) => Fresh(Counted(b, w.k.ready), due)
      case _ => b
  }

  /** RemainingWork, less what the running task did since it was last counted, is what is left of
      the WCET, but for less than a tick each time it was counted. */
  ghost predicate Rounded(q: Queue, b: Work, active: Active, sofar: int, open: Active) {
    forall x :: x in q ==> RoundedAt(x, b, active, sofar, open)
  }

  /** `open`: the count of that task's work is entered in `rounds`, and still to be made. */
  predicate RoundedAt(x: Entry, b: Work, active: Active, sofar: int, open: Active) {
    && x.job in b.left && x.job in b.rounds
    && var done := if active == Running(x.job.task) then sofar else 0;
       && b.left[x.job] <= 256 * x.time - done
       && 256 * x.time - done + (if open == Running(x.job.task) then 255 else 0)
          <= b.left[x.job] + 255 * b.rounds[x.job]
  }

  lemma FreshRounded(q: Queue, b: Work, active: Active, sofar: int, x: Entry)
    requires Rounded(q, b, active, sofar, active) && !HasTask(q, x.job.task) && x.time >= 0
    requires active.Running? ==> HasTask(q, active.task)
    ensures Rounded(Place(q, x), Work(b.left[x.job := 256 * x.time], b.rounds[x.job := 0]), active, sofar, active)
  {
    PlaceIn(q, x);
  }

  lemma OtherRounded(q: Queue, b: Work, active: Active, sofar: int, j: Job, left: int)
    requires Rounded(q, b, active, sofar, active) && forall x :: x in q ==> x.job != j
    ensures Rounded(q, Work(b.left[j := left], b.rounds[j := 0]), active, sofar, active)
  {
  }

  lemma ReleaseRounded(s: Pass, d: Demand, need: map<Job, int>, canon: Queue, latest: map<nat, int>, now: int,
                       active: Active, sofar: int, b: Work)
    requires Serving(s, need, canon, latest, now, active, sofar) && Rounded(s.k.ready, b, active, sofar, active)
    requires d.arrival.job.task in latest ==> latest[d.arrival.job.task] < d.arrival.job.deadline
    ensures var a := d.arrival;
      Rounded(Release(s, a, now, active).k.ready, Work(b.left[a.job := 256 * a.wcet], b.rounds[a.job := 0]),
              active, sofar, active)
  {
    var a := d.arrival;
    if HasTask(s.k.ready, a.job.task) {
      OtherRounded(s.k.ready, b, active, sofar, a.job, 256 * a.wcet);
    } else {
      FreshRounded(s.k.ready, b, active, sofar, Entry(a.job, a.wcet));
    }
  }

  lemma {:induction false} PassRounded(s: Pass, due: seq<Demand>, need: map<Job, int>, canon: Queue,
                                       latest: map<nat, int>, now: int, active: Active, sofar: int, b: Work)
    requires Serving(s, need, canon, latest, now, active, sofar) && Legal(latest, due)
    requires Rounded(s.k.ready, b, active, sofar, active)
    ensures Rounded(Serve(s, Arrivals(due), now, active).k.ready, Fresh(b, due), active, sofar, active)
  {
    if due != [] {
      var before := due[..|due| - 1];
      PassRounded(s, before, need, canon, latest, now, active, sofar, b);
      ServeKeeps(s, before, need, canon, latest, now, active, sofar);
      ServeLast(s, due, now, active);
      ReleaseRounded(Serve(s, Arrivals(before), now, active), due[|due| - 1], Needs(need, before),
                     PlaceAll(canon, before), Latest(latest, before), now, active, sofar, Fresh(b, before));
    }
  }

  /** The count takes off the work done, rounded down. */
  lemma DoneRounds(p: Points, time: int, speed: nat)
    ensures 256 * Done(p, time, speed) <= p.Ratio(speed) * time <= 256 * Done(p, time, speed) + 255
  {
    if speed < p.Fastest() {
      ScaleRoundsDown(time, p.ratios[speed]);
      assert p.Ratio(speed) * time == time * p.ratios[speed];
    }
  }

  lemma CountRounded(q: Queue, b: Work, t: nat, done: int, sofar: int)
    requires Rounded(q, b, Running(t), sofar, Running(t)) && 256 * done <= sofar <= 256 * done + 255
    ensures Rounded(WorkOff(q, t, done), b, Idle, 0, Idle)
  {
    forall x | x in WorkOff(q, t, done) ensures RoundedAt(x, b, Idle, 0, Idle) {
      WorkOffIn(q, t, done, x);
      var y :| y in q && y.job == x.job && x == if y.job.task == t then y.(time := y.time - done) else y;
      assert RoundedAt(y, b, Running(t), sofar, Running(t));
    }
  }

  lemma OpenRounded(q: Queue, b: Work, active: Active, sofar: int)
    requires Rounded(q, b, active, sofar, Idle) && OneEach(q) && active == Head(q)
    ensures Rounded(q, Counted(b, q), active, sofar, active)
  {
    if q != [] {
      assert q[0] in q;
      forall x | x in q ensures RoundedAt(x, Counted(b, q), active, sofar, active) {
        assert RoundedAt(x, b, active, sofar, Idle);
        assert x.job.task == q[0].job.task ==> x == q[0];
      }
    }
  }

  /** From the count on, or the choice of a speed, nothing more is done. */
  lemma ClosedRounded(q: Queue, b: Work, sofar: int, active: Active)
    requires Rounded(q, b, Idle, sofar, Idle)
    ensures Rounded(q, b, active, 0, Idle)
  {
    forall x | x in q ensures RoundedAt(x, b, active, 0, Idle) {
      assert RoundedAt(x, b, Idle, sofar, Idle);
    }
  }

  lemma AccountRounded(p: Points, k: Kernel, now: int, active: Active, b: Work)
    requires Rounded(k.ready, b, active, Sofar(p, k.speed, k.updated, now), active)
    ensures Rounded(Account(p, k, now, active).ready, b, Idle, 0, Idle)
  {
    match active
    case Idle => ClosedRounded(k.ready, b, Sofar(p, k.speed, k.updated, now), Idle);
    case Running(t) =>
      DoneRounds(p, now - k.updated, k.speed);
      CountRounded(k.ready, b, t, Done(p, now - k.updated, k.speed), Sofar(p, k.speed, k.updated, now));
  }

  /** The state a run keeps. */
  ghost predicate WorkExact(p: Points, w: World, b: Work) {
    Rounded(w.k.ready, b, Head(w.k.ready), Sofar(p, w.k.speed, w.k.updated, w.now), Idle)
  }

  lemma NextTimer(p: Points, w: World, due: seq<Demand>, r: Pass)
    requires Enabled(p, w, Timer(due)) && r == Serve(Pass(w.k, true), Arrivals(due), w.now, Head(w.k.ready))
    ensures var w' := Next(p, w, Timer(due));
      && w'.k.ready == Account(p, r.k, w.now, Head(w.k.ready)).ready
      && w'.k.updated == w'.now == w.now
  {
  }

  lemma UpToDate(p: Points, w: World, b: Work)
    requires Rounded(w.k.ready, b, Head(w.k.ready), 0, Idle) && w.k.updated == w.now
    ensures WorkExact(p, w, b)
  {
    assert Sofar(p, w.k.speed, w.now, w.now) == 0;
  }

  lemma InvServing(p: Points, w: World, canon: Queue)
    requires Inv(p, w, canon)
    ensures Serving(Pass(w.k, true), w.need, canon, w.latest, w.now, Head(w.k.ready),
                    Sofar(p, w.k.speed, w.k.updated, w.now))
    ensures OneEach(w.k.ready)
  {
  }

  /** The releases of a pass, the running task's work still to be counted. */
  lemma TimerServed(p: Points, w: World, due: seq<Demand>, canon: Queue, b: Work) returns (r: Pass)
    requires Inv(p, w, canon) && Enabled(p, w, Timer(due)) && WorkExact(p, w, b)
    ensures r == Serve(Pass(w.k, true), Arrivals(due), w.now, Head(w.k.ready))
    ensures Rounded(r.k.ready, Fresh(Counted(b, w.k.ready), due), Head(w.k.ready),
                    Sofar(p, r.k.speed, r.k.updated, w.now), Head(w.k.ready))
  {
    var active, sofar := Head(w.k.ready), Sofar(p, w.k.speed, w.k.updated, w.now);
    r := Serve(Pass(w.k, true), Arrivals(due), w.now, active);
    InvServing(p, w, canon);
    OpenRounded(w.k.ready, b, active, sofar);
    PassRounded(Pass(w.k, true), due, w.need, canon, w.latest, w.now, active, sofar, Counted(b, w.k.ready));
  }

  lemma TimerExact(p: Points, w: World, due: seq<Demand>, canon: Queue, b: Work)
    requires p.Valid() && Inv(p, w, canon) && Enabled(p, w, Timer(due)) && WorkExact(p, w, b)
    ensures WorkExact(p, Next(p, w, Timer(due)), Fresh(Counted(b, w.k.ready), due))
  {
    var b' := Fresh(Counted(b, w.k.ready), due);
    var r := TimerServed(p, w, due, canon, b);
    AccountRounded(p, r.k, w.now, Head(w.k.ready), b');
    var k := Account(p, r.k, w.now, Head(w.k.ready));
    NextTimer(p, w, due, r);
    ClosedRounded(k.ready, b', 0, Head(k.ready));
    UpToDate(p, Next(p, w, Timer(due)), b');
  }

  lemma TickExact(p: Points, w: World, canon: Queue, b: Work)
    requires p.Valid() && Inv(p, w, canon) && Enabled(p, w, Tick) && WorkExact(p, w, b) && w.k.ready != []
    ensures w.k.ready[0].job in b.left
    ensures var j := w.k.ready[0].job;
      WorkExact(p, Next(p, w, Tick), b.(left := b.left[j := b.left[j] - p.Ratio(w.k.speed)]))
  {
    var q, sofar := w.k.ready, Sofar(p, w.k.speed, w.k.updated, w.now);
    var j := q[0].job;
    assert q[0] in q && RoundedAt(q[0], b, Head(q), sofar, Idle);
    Elapse(p.Ratio(w.k.speed), w.now - w.k.updated);
    var b' := b.(left := b.left[j := b.left[j] - p.Ratio(w.k.speed)]);
    forall x | x in q ensures RoundedAt(x, b', Head(q), sofar + p.Ratio(w.k.speed), Idle) {
      assert RoundedAt(x, b, Head(q), sofar, Idle);
      assert x.job.task == j.task ==> x == q[0];
    }
  }

  lemma EndReady(p: Points, k: Kernel, now: int)
    requires k.ready != [] && k.minimal <= p.Fastest() && k.simTime <= now
    ensures End(p, k, now).ready == k.ready[1..]
    ensures k.ready[1..] != [] ==> End(p, k, now).updated == now
  {
  }

  lemma TailRounded(q: Queue, b: Work, sofar: int)
    requires Sorted(q) && OneEach(q) && q != [] && Rounded(q, b, Head(q), sofar, Idle)
    ensures Rounded(q[1..], b, Idle, sofar, Idle)
  {
    forall x | x in q[1..] ensures RoundedAt(x, b, Idle, sofar, Idle) {
      var i :| 0 <= i < |q[1..]| && q[1..][i] == x;
      assert q[i + 1] in q && Before(q[0].job, q[i + 1].job) && q[0] in q;
      assert RoundedAt(q[i + 1], b, Head(q), sofar, Idle);
    }
  }

  lemma EndExact(p: Points, w: World, canon: Queue, b: Work)
    requires p.Valid() && Inv(p, w, canon) && Enabled(p, w, EndTask) && WorkExact(p, w, b)
    ensures WorkExact(p, Next(p, w, EndTask), b)
  {
    var q, sofar := w.k.ready, Sofar(p, w.k.speed, w.k.updated, w.now);
    EndReady(p, w.k, w.now);
    if q[1..] != [] {
      TailRounded(q, b, sofar);
      ClosedRounded(q[1..], b, sofar, Head(q[1..]));
      UpToDate(p, Next(p, w, EndTask), b);
    }
  }

  /** In every run RemainingWork, less what the running task did since it was last counted, is
      what is left of the WCET at the exact speeds, but for less than a tick each time it was
      counted. */
  lemma {:induction false} RunExact(p: Points, events: seq<Event>)
    requires p.Valid() && Runs(p, events)
    ensures WorkExact(p, After(p, events), Worked(p, events))
  {
    if events != [] {
      var before := events[..|events| - 1];
      RunExact(p, before);
      RunKeepsInv(p, before);
      var w, b := After(p, before), Worked(p, before);
      match events[|events| - 1]
      case Tick =>
        if w.k.ready != [] {
          TickExact(p, w, FullSpeed(before), b);
        }
      case Timer(due) => TimerExact(p, w, due, FullSpeed(before), b);
      case EndTask => EndExact(p, w, FullSpeed(before), b);
      case SetMinimal(s) =>
    }
  }
}
