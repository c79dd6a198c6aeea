/** Slowing down under dynamic reclaiming never makes an instance end later than in the EDF*
    schedule at full speed in which every instance takes its WCET. */
module DraSafety {
  import opened Arith
  import opened Common
  import opened EdfStar
  import opened Speed
  import opened DraKernel

  /** A release and the work its instance will turn out to take, in 256ths of a tick at the
      fastest speed: at most its WCET, and unknown to the kernel. */
  datatype Demand = Demand(arrival: Arrival, work: int)

  datatype Event =
    | Tick                            // one tick passes, of the running task or idle
    | Timer(due: seq<Demand>)         // the timer handler
    | EndTask                         // the running task, its work done, ends
    | SetMinimal(speed: nat)          // OSSetMinimalProcessorSpeed

  /** The kernel at a time, the work each instance still has to do, and the deadline of each
      task's last release. */
  datatype World = World(now: int, k: Kernel, need: map<Job, int>, latest: map<nat, int>)

  const START := World(0, Kernel(0, [], [], 0, 0, 0), map[], map[])

  function Arrivals(due: seq<Demand>): (r: seq<Arrival>)
    ensures |r| == |due| && forall i :: 0 <= i < |due| ==> r[i] == due[i].arrival
  {
    seq(|due|, i requires 0 <= i < |due| => due[i].arrival)
  }

  function Needs(need: map<Job, int>, due: seq<Demand>): map<Job, int> {
    if due == [] then need
    else var d := due[|due| - 1]; Needs(need, due[..|due| - 1])[d.arrival.job := d.work]
  }

  function Latest(latest: map<nat, int>, due: seq<Demand>): map<nat, int> {
    if due == [] then latest
    else var j := due[|due| - 1].arrival.job; Latest(latest, due[..|due| - 1])[j.task := j.deadline]
  }

  /** Each task's deadlines increase, and no instance takes more than its WCET. */
  predicate Legal(latest: map<nat, int>, due: seq<Demand>) {
    due == [] ||
    var d := due[|due| - 1];
    var before := due[..|due| - 1];
    var j := d.arrival.job;
    && Legal(latest, before)
    && (j.task in Latest(latest, before) ==> Latest(latest, before)[j.task] < j.deadline)
    && d.work <= 256 * d.arrival.wcet
  }

  predicate Enabled(p: Points, w: World, e: Event) {
    && w.k.minimal <= p.Fastest()
    && match e
       case Tick => w.k.ready != [] ==> w.k.ready[0].job in w.need && w.need[w.k.ready[0].job] > 0
       case Timer(due) => Legal(w.latest, due)
       case EndTask => w.k.ready != [] && w.k.ready[0].job in w.need && w.need[w.k.ready[0].job] <= 0
       case SetMinimal(s) => s <= p.Fastest()
  }

  function Next(p: Points, w: World, e: Event): World
    requires Enabled(p, w, e)
  {
    match e
    case Tick =>
      if w.k.ready == [] then w.(now := w.now + 1)
      else
        var j := w.k.ready[0].job;
        w.(now := w.now + 1, need := w.need[j := w.need[j] - p.Ratio(w.k.speed)])
    case Timer(due) =>
      w.(k := Interrupt(p, w.k, w.now, Arrivals(due)), need := Needs(w.need, due), latest := Latest(w.latest, due))
    case EndTask => w.(k := End(p, w.k, w.now))
    case SetMinimal(s) => w.(k := w.k.(minimal := s))
  }

  /** The full-speed EDF* schedule: every instance released, for its whole WCET. */
  function Canonical(q: Queue, e: Event): Queue {
    match e
    case Tick => Drain(q, 1)
    case Timer(due) => PlaceAll(q, due)
    case _ => q
  }

  function PlaceAll(q: Queue, due: seq<Demand>): Queue {
    if due == [] then q
    else
      var a := due[|due| - 1].arrival;
      Place(PlaceAll(q, due[..|due| - 1]), Entry(a.job, a.wcet))
  }

  // The invariant

  ghost predicate Known(q: Queue, latest: map<nat, int>) {
    forall x :: x in q ==> x.job.task in latest && x.job.deadline <= latest[x.job.task]
  }

  ghost predicate OneEach(q: Queue) {
    forall x, y :: x in q && y in q && x.job.task == y.job.task ==> x == y
  }

  ghost predicate SameJobs(ready: Queue, sim: Queue) {
    forall x, y :: x in ready && y in sim && x.job.task == y.job.task ==> x.job == y.job
  }

  /** The queues, apart from the amounts in them. */
  ghost predicate Shape(k: Kernel, need: map<Job, int>, canon: Queue, latest: map<nat, int>) {
    && Sorted(k.ready) && Known(k.ready, latest) && OneEach(k.ready)
    && Sorted(k.sim) && Lasting(k.sim) && Known(k.sim, latest) && OneEach(k.sim)
    && Sorted(canon) && Lasting(canon) && Known(canon, latest)
    && SameJobs(k.ready, k.sim)
    && forall x :: x in k.ready ==> x.job in need
  }

  /** The simulated queue, once drained, holds no more ahead of any instance than the
      canonical schedule. */
  ghost predicate SimBelow(k: Kernel, now: int, canon: Queue) {
    k.simTime <= now && Below(k.sim, now - k.simTime, canon)
  }

  ghost predicate Below(sim: Queue, late: int, canon: Queue) {
    forall j :: Max0(Ahead(sim, j, true) - late) <= Ahead(canon, j, true)
  }

  /** No instance has more to do than its own canonical time left. */
  ghost predicate NoneLate(ready: Queue, need: map<Job, int>, canon: Queue) {
    forall x :: x in ready && x.job in need ==> need[x.job] <= 256 * Own(canon, x.job)
  }

  /** RemainingWork, less what the running task did since its last update, `sofar`, is no
      less than the work left. */
  ghost predicate WorkAbove(ready: Queue, need: map<Job, int>, active: Active, sofar: int) {
    forall x :: x in ready && x.job in need ==>
      need[x.job] <= 256 * x.time - if active == Running(x.job.task) then sofar else 0
  }

  function Sofar(p: Points, speed: nat, updated: int, now: int): int {
    p.Ratio(speed) * (now - updated)
  }

  /** The running task, at its speed, is through with the canonical time up to its own. */
  ghost predicate OnTime(p: Points, k: Kernel, need: map<Job, int>, canon: Queue) {
    k.ready != [] && k.ready[0].job in need ==>
      need[k.ready[0].job] <= p.Ratio(k.speed) * Ahead(canon, k.ready[0].job, true)
  }

  ghost predicate Inv(p: Points, w: World, canon: Queue) {
    && w.k.minimal <= p.Fastest()
    && Shape(w.k, w.need, canon, w.latest)
    && SimBelow(w.k, w.now, canon)
    && NoneLate(w.k.ready, w.need, canon)
    && WorkAbove(w.k.ready, w.need, Head(w.k.ready), Sofar(p, w.k.speed, w.k.updated, w.now))
    && OnTime(p, w.k, w.need, canon)
  }

  // A tick

  lemma DrainKnown(q: Queue, elapsed: nat, latest: map<nat, int>)
    requires Sorted(q) && Lasting(q) && Known(q, latest)
    ensures Sorted(Drain(q, elapsed)) && Lasting(Drain(q, elapsed)) && Known(Drain(q, elapsed), latest)
    ensures forall x :: x in Drain(q, elapsed) ==> exists y :: y in q && y.job == x.job
  {
    DrainSorted(q, elapsed);
    DrainKeeps(q, elapsed);
    var r := Drain(q, elapsed);
    forall x | x in r
      ensures exists y :: y in q && y.job == x.job
      ensures x.job.task in latest && x.job.deadline <= latest[x.job.task]
    {
      var i :| 0 <= i < |r| && r[i] == x;
      assert q[|q| - |r| + i] in q;
    }
  }

  lemma TickSim(k: Kernel, now: int, canon: Queue)
    requires Sorted(canon) && Lasting(canon) && SimBelow(k, now, canon)
    ensures SimBelow(k, now + 1, Drain(canon, 1))
  {
    forall j ensures Max0(Ahead(k.sim, j, true) - (now + 1 - k.simTime)) <= Ahead(Drain(canon, 1), j, true) {
      DrainAhead(canon, 1, j, true);
    }
  }

  lemma TickOwn(canon: Queue, j: Job)
    requires Sorted(canon) && Lasting(canon)
    ensures Own(Drain(canon, 1), j)
         == if Ahead(canon, j, false) > 0 then Own(canon, j) else Max0(Ahead(canon, j, true) - 1)
  {
    DrainAhead(canon, 1, j, true);
    DrainAhead(canon, 1, j, false);
    AheadLasts(canon, j);
  }

  lemma Advance(need: int, r: nat, ahead: nat)
    requires 0 < need <= r * ahead && r <= 256
    ensures ahead > 0 && need - r <= r * (ahead - 1) && need - r <= 256 * (ahead - 1)
  {
    if ahead > 0 {
      MulMonotone(r, 256, ahead - 1);
      assert r * (ahead - 1) == r * ahead - r;
    }
  }

  lemma Elapse(r: nat, passed: int)
    ensures r * (passed + 1) == r * passed + r
  {
  }

  /** A tick of the running task leaves no instance late: only the first canonical instance
      loses time, and none that waits behind the running task is first. */
  lemma TickNoneLate(q: Queue, need: map<Job, int>, r: nat, canon: Queue)
    requires Sorted(q) && q != [] && q[0].job in need && NoneLate(q, need, canon)
    requires Sorted(canon) && Lasting(canon) && r <= 256
    requires 0 < need[q[0].job] <= r * Ahead(canon, q[0].job, true)
    ensures NoneLate(q, need[q[0].job := need[q[0].job] - r], Drain(canon, 1))
  {
    var i := q[0].job;
    var need', canon' := need[i := need[i] - r], Drain(canon, 1);
    AheadLasts(canon, i);
    Advance(need[i], r, Ahead(canon, i, true));
    forall x | x in q && x.job in need' ensures need'[x.job] <= 256 * Own(canon', x.job) {
      TickOwn(canon, x.job);
      if x.job != i {
        var n :| 0 <= n < |q| && q[n] == x;
        AheadRises(canon, i, x.job);
      }
    }
  }

  lemma TickOnTime(q: Queue, need: map<Job, int>, r: nat, canon: Queue)
    requires q != [] && q[0].job in need && Sorted(canon) && Lasting(canon) && r <= 256
    requires 0 < need[q[0].job] <= r * Ahead(canon, q[0].job, true)
    ensures need[q[0].job] - r <= r * Ahead(Drain(canon, 1), q[0].job, true)
  {
    var i := q[0].job;
    AheadLasts(canon, i);
    Advance(need[i], r, Ahead(canon, i, true));
    DrainAhead(canon, 1, i, true);
  }

  lemma TickWork(p: Points, k: Kernel, need: map<Job, int>, now: int)
    requires k.ready != [] && k.ready[0].job in need && OneEach(k.ready)
    requires WorkAbove(k.ready, need, Head(k.ready), Sofar(p, k.speed, k.updated, now))
    ensures WorkAbove(k.ready, need[k.ready[0].job := need[k.ready[0].job] - p.Ratio(k.speed)], Head(k.ready),
      Sofar(p, k.speed, k.updated, now + 1))
  {
    var i, r := k.ready[0].job, p.Ratio(k.speed);
    Elapse(r, now - k.updated);
    assert k.ready[0] in k.ready;
  }

  lemma RatioBound(p: Points, speed: nat)
    requires p.Valid()
    ensures p.Ratio(speed) <= 256
  {
  }

  lemma TickShape(k: Kernel, need: map<Job, int>, need': map<Job, int>, canon: Queue, latest: map<nat, int>)
    requires Shape(k, need, canon, latest) && forall j :: j in need ==> j in need'
    ensures Shape(k, need', Drain(canon, 1), latest)
  {
    DrainKnown(canon, 1, latest);
  }

  lemma TickIdle(p: Points, w: World, canon: Queue)
    requires Inv(p, w, canon) && w.k.ready == []
    ensures Inv(p, w.(now := w.now + 1), Drain(canon, 1))
  {
    TickShape(w.k, w.need, w.need, canon, w.latest);
    TickSim(w.k, w.now, canon);
  }

  lemma TickKeeps(p: Points, w: World, canon: Queue)
    requires p.Valid() && Inv(p, w, canon) && Enabled(p, w, Tick)
    ensures Inv(p, Next(p, w, Tick), Drain(canon, 1))
  {
    if w.k.ready == [] {
      TickIdle(p, w, canon);
    } else {
      var r := p.Ratio(w.k.speed);
      RatioBound(p, w.k.speed);
      TickShape(w.k, w.need, Next(p, w, Tick).need, canon, w.latest);
      TickSim(w.k, w.now, canon);
      TickNoneLate(w.k.ready, w.need, r, canon);
      TickOnTime(w.k.ready, w.need, r, canon);
      TickWork(p, w.k, w.need, w.now);
    }
  }

  // Bringing the simulation up to date, and the choice of the speed

  /** A sorted queue with one entry a task has no task twice. */
  lemma SamePlace(q: Queue, i: nat, j: nat)
    requires Sorted(q) && OneEach(q) && i < |q| && j < |q| && q[i].job.task == q[j].job.task
    ensures i == j
  {
    assert q[i] in q && q[j] in q;
    assert q[i] == q[j];
    assert !Before(q[i].job, q[j].job);
  }

  lemma SameOfLast(r: Queue, q: Queue, i: nat, j: nat)
    requires Sorted(q) && OneEach(q) && LastOf(r, q) && i < |r| && j < |r| && r[i].job.task == r[j].job.task
    ensures i == j
  {
    SamePlace(q, |q| - |r| + i, |q| - |r| + j);
  }

  lemma DrainOneEach(q: Queue, elapsed: nat)
    requires Sorted(q) && Lasting(q) && OneEach(q)
    ensures OneEach(Drain(q, elapsed))
  {
    DrainKeeps(q, elapsed);
    var r := Drain(q, elapsed);
    forall x, y | x in r && y in r && x.job.task == y.job.task ensures x == y {
      var i, j :| 0 <= i < |r| && 0 <= j < |r| && r[i] == x && r[j] == y;
      SameOfLast(r, q, i, j);
    }
  }

  lemma DrainBelow(sim: Queue, late: nat, canon: Queue)
    requires Sorted(sim) && Lasting(sim) && Below(sim, late, canon)
    ensures Below(Drain(sim, late), 0, canon)
  {
    forall j ensures Max0(Ahead(Drain(sim, late), j, true)) <= Ahead(canon, j, true) {
      DrainAhead(sim, late, j, true);
    }
  }

  lemma SimToKeeps(k: Kernel, need: map<Job, int>, canon: Queue, latest: map<nat, int>, now: int)
    requires Shape(k, need, canon, latest) && SimBelow(k, now, canon)
    ensures Shape(SimTo(k, now), need, canon, latest) && SimBelow(SimTo(k, now), now, canon)
    ensures SimTo(k, now).simTime == now
  {
    var d := now - k.simTime;
    DrainKnown(k.sim, d, latest);
    DrainOneEach(k.sim, d);
    DrainBelow(k.sim, d, canon);
    forall x, y | x in k.ready && y in Drain(k.sim, d) && x.job.task == y.job.task ensures x.job == y.job {
      var z :| z in k.sim && z.job == y.job;
    }
  }

  /** With the simulation up to date and the work accounted for, the speed chosen is one at
      which the head is on time. */
  lemma ChooseOnTime(p: Points, k: Kernel, need: map<Job, int>, canon: Queue, latest: map<nat, int>)
    requires p.Valid() && k.ready != [] && k.minimal <= p.Fastest()
    requires Shape(k, need, canon, latest) && SimBelow(k, k.simTime, canon)
    requires NoneLate(k.ready, need, canon) && need[k.ready[0].job] <= 256 * k.ready[0].time
    ensures OnTime(p, Choose(p, k), need, canon)
  {
    var x := k.ready[0];
    var j, s := x.job, Choose(p, k).speed;
    assert x in k.ready;
    AheadLasts(canon, j);
    if s < p.Fastest() {
      SpeedIsSlowest(p, k.minimal, x.time, Slack(k.sim, j.task), s);
      SlackBelow(k, canon, j);
      MulMonotone(Slack(k.sim, j.task), Ahead(canon, j, true), p.Ratio(s));
      assert p.Ratio(s) * Slack(k.sim, j.task) <= p.Ratio(s) * Ahead(canon, j, true);
    } else {
      SpeedIsSlowest(p, k.minimal, Max0(x.time - 1) + 1, Slack(k.sim, j.task), s);
    }
  }

  lemma SlackBelow(k: Kernel, canon: Queue, j: Job)
    requires Sorted(k.sim) && Lasting(canon) && SimBelow(k, k.simTime, canon)
    requires forall x :: x in k.sim && x.job.task == j.task ==> x.job == j
    ensures Slack(k.sim, j.task) <= Ahead(canon, j, true)
  {
    AheadLasts(canon, j);
    SlackIsAhead(k.sim, j);
    assert Max0(Ahead(k.sim, j, true)) <= Ahead(canon, j, true);
  }

  lemma ChooseKeeps(p: Points, k: Kernel, need: map<Job, int>, canon: Queue, latest: map<nat, int>, now: int)
    requires p.Valid() && k.ready != [] && k.minimal <= p.Fastest() && k.updated == now == k.simTime
    requires Shape(k, need, canon, latest) && SimBelow(k, now, canon)
    requires NoneLate(k.ready, need, canon) && WorkAbove(k.ready, need, Idle, 0)
    ensures Inv(p, World(now, Choose(p, k), need, latest), canon)
  {
    assert k.ready[0] in k.ready;
    ChooseOnTime(p, k, need, canon, latest);
    assert Sofar(p, Choose(p, k).speed, now, now) == 0;
  }

  lemma TailWork(q: Queue, need: map<Job, int>, canon: Queue, sofar: int)
    requires Sorted(q) && q != [] && OneEach(q) && WorkAbove(q, need, Head(q), sofar) && NoneLate(q, need, canon)
    ensures WorkAbove(q[1..], need, Idle, 0) && NoneLate(q[1..], need, canon)
  {
    forall x | x in q[1..] ensures x in q && x.job.task != q[0].job.task {
      var i :| 0 <= i < |q[1..]| && q[1..][i] == x;
      assert Before(q[0].job, q[i + 1].job) && q[i + 1] == x;
      assert q[0] in q;
    }
  }

  lemma TailShape(k: Kernel, need: map<Job, int>, canon: Queue, latest: map<nat, int>)
    requires Shape(k, need, canon, latest) && k.ready != []
    ensures Shape(k.(ready := k.ready[1..]), need, canon, latest)
  {
    assert forall x :: x in k.ready[1..] ==> x in k.ready;
  }

  lemma EndKeeps(p: Points, w: World, canon: Queue)
    requires p.Valid() && Inv(p, w, canon) && Enabled(p, w, EndTask)
    ensures Inv(p, Next(p, w, EndTask), canon)
  {
    SimToKeeps(w.k, w.need, canon, w.latest, w.now);
    TailShape(SimTo(w.k, w.now), w.need, canon, w.latest);
    TailWork(w.k.ready, w.need, canon, Sofar(p, w.k.speed, w.k.updated, w.now));
    var k1 := SimTo(w.k, w.now).(ready := w.k.ready[1..]);
    if k1.ready != [] {
      ChooseKeeps(p, k1.(updated := k1.simTime), w.need, canon, w.latest, w.now);
    }
  }

  // The timer handler

  /** What the handler keeps between two arrivals; `active` is the task it found running. */
  ghost predicate Serving(s: Pass, need: map<Job, int>, canon: Queue, latest: map<nat, int>, now: int,
                          active: Active, sofar: int) {
    && Shape(s.k, need, canon, latest)
    && SimBelow(s.k, now, canon)
    && NoneLate(s.k.ready, need, canon)
    && WorkAbove(s.k.ready, need, active, sofar)
    && (active.Running? ==> HasTask(s.k.ready, active.task))
    && (!s.late ==> s.k.simTime == now)
  }

  lemma PlaceKnown(q: Queue, x: Entry, latest: map<nat, int>)
    requires Sorted(q) && Lasting(q) && Known(q, latest) && x.time >= 0
    requires x.job.task in latest ==> latest[x.job.task] < x.job.deadline
    ensures var r := Place(q, x);
      Sorted(r) && Lasting(r) && Known(r, latest[x.job.task := x.job.deadline])
  {
    PlaceSorted(q, x);
    PlaceIn(q, x);
    var r := Place(q, x);
    forall i | 0 <= i < |r| ensures r[i].time >= 0 {
      assert r[i] in r;
    }
  }

  lemma UnlinkKnown(q: Queue, t: nat, latest: map<nat, int>)
    requires Sorted(q) && Lasting(q) && Known(q, latest) && OneEach(q)
    ensures var r := Unlink(q, t); Sorted(r) && Lasting(r) && Known(r, latest) && OneEach(r)
  {
    UnlinkSorted(q, t);
    UnlinkIn(q, t);
    var r := Unlink(q, t);
    forall i | 0 <= i < |r| ensures r[i].time >= 0 {
      assert r[i] in r;
    }
  }

  /** A release in the canonical schedule, whether or not the kernel skips it. */
  lemma CanonicalRelease(k: Kernel, need: map<Job, int>, canon: Queue, latest: map<nat, int>, now: int, a: Arrival,
                         work: int)
    requires Shape(k, need, canon, latest) && SimBelow(k, now, canon) && NoneLate(k.ready, need, canon)
    requires a.job.task in latest ==> latest[a.job.task] < a.job.deadline
    ensures var canon' := Place(canon, Entry(a.job, a.wcet));
      && Shape(k, need[a.job := work], canon', latest[a.job.task := a.job.deadline])
      && NoneLate(k.ready, need[a.job := work], canon')
      && SimBelow(k, now, canon')
      && Own(canon', a.job) >= a.wcet
      && forall x :: x in k.ready ==> x.job != a.job
  {
    var x := Entry(a.job, a.wcet);
    var canon' := Place(canon, x);
    PlaceKnown(canon, x, latest);
    forall y | y in k.ready && y.job in need[a.job := work]
      ensures need[a.job := work][y.job] <= 256 * Own(canon', y.job)
    {
      PlaceAhead(canon, x, y.job, true);
      PlaceAhead(canon, x, y.job, false);
    }
    forall j ensures Max0(Ahead(k.sim, j, true) - (now - k.simTime)) <= Ahead(canon', j, true) {
      PlaceAhead(canon, x, j, true);
    }
    PlaceAhead(canon, x, a.job, true);
    PlaceAhead(canon, x, a.job, false);
    AheadLasts(canon, a.job);
  }

  lemma InsertedAhead(sim: Queue, x: Entry, j: Job)
    requires Lasting(sim)
    ensures Ahead(SimInsert(sim, x), j, true) <= Ahead(sim, j, true) + if Counts(x.job, j, true) then x.time else 0
  {
    UnlinkAhead(sim, x.job.task, j, true);
    PlaceAhead(Unlink(sim, x.job.task), x, j, true);
  }

  /** Both queues given the same time for an instance, the order between them stays. */
  lemma BelowAfter(sim: Queue, sim': Queue, canon: Queue, canon': Queue, late: nat, x: Entry)
    requires Below(sim, late, canon) && x.time >= 0
    requires forall j :: Ahead(sim', j, true) <= Ahead(sim, j, true) + if Counts(x.job, j, true) then x.time else 0
    requires forall j :: Ahead(canon', j, true) == Ahead(canon, j, true) + if Counts(x.job, j, true) then x.time else 0
    ensures Below(sim', late, canon')
  {
    forall j ensures Max0(Ahead(sim', j, true) - late) <= Ahead(canon', j, true) {
      assert Max0(Ahead(sim, j, true) - late) <= Ahead(canon, j, true);
    }
  }

  /** The insertion in the kernel's simulated queue, against the canonical one. */
  lemma InsertBelow(sim: Queue, canon: Queue, late: int, x: Entry)
    requires Lasting(sim) && Below(sim, late, canon) && x.time >= 0 && 0 <= late
    ensures Below(SimInsert(sim, x), late, Place(canon, x))
  {
    forall j
      ensures Ahead(SimInsert(sim, x), j, true) <= Ahead(sim, j, true) + if Counts(x.job, j, true) then x.time else 0
    {
      InsertedAhead(sim, x, j);
    }
    forall j
      ensures Ahead(Place(canon, x), j, true) == Ahead(canon, j, true) + if Counts(x.job, j, true) then x.time else 0
    {
      PlaceAhead(canon, x, j, true);
    }
    BelowAfter(sim, SimInsert(sim, x), canon, Place(canon, x), late, x);
  }

  /** The new instance in the simulated queue. */
  lemma InsertSim(sim: Queue, latest: map<nat, int>, x: Entry)
    requires Sorted(sim) && Lasting(sim) && Known(sim, latest) && OneEach(sim) && x.time >= 0
    requires x.job.task in latest && latest[x.job.task] == x.job.deadline
    ensures var r := SimInsert(sim, x);
      && Sorted(r) && Lasting(r) && Known(r, latest) && OneEach(r)
      && forall y :: y in r ==> y == x || (y in sim && y.job.task != x.job.task)
  {
    var t := x.job.task;
    UnlinkKnown(sim, t, latest);
    UnlinkIn(sim, t);
    var rest := Unlink(sim, t);
    PlaceIn(rest, x);
    PlaceSorted(rest, x);
    var r := Place(rest, x);
    forall i | 0 <= i < |r| ensures r[i].time >= 0 {
      assert r[i] in r;
    }
  }

  /** The new instance in the ready queue. */
  lemma InsertReady(ready: Queue, latest: map<nat, int>, x: Entry)
    requires Sorted(ready) && Known(ready, latest) && OneEach(ready) && !HasTask(ready, x.job.task)
    requires x.job.task in latest && latest[x.job.task] == x.job.deadline
    ensures var r := Place(ready, x);
      && Sorted(r) && Known(r, latest) && OneEach(r)
      && forall y :: y in r ==> y == x || (y in ready && y.job.task != x.job.task)
  {
    PlaceIn(ready, x);
    assert forall y :: y in ready ==> y.job.task != x.job.task;
    PlaceSorted(ready, x);
  }

  lemma InsertShape(k: Kernel, need: map<Job, int>, canon: Queue, latest: map<nat, int>, x: Entry)
    requires Shape(k, need, canon, latest) && !HasTask(k.ready, x.job.task) && x.time >= 0
    requires x.job.task in latest && latest[x.job.task] == x.job.deadline && x.job in need
    ensures Shape(k.(ready := Place(k.ready, x), sim := SimInsert(k.sim, x)), need, canon, latest)
  {
    InsertSim(k.sim, latest, x);
    InsertReady(k.ready, latest, x);
  }

  lemma InsertWork(q: Queue, need: map<Job, int>, canon: Queue, active: Active, sofar: int, x: Entry)
    requires WorkAbove(q, need, active, sofar) && NoneLate(q, need, canon)
    requires !HasTask(q, x.job.task) && (active.Running? ==> HasTask(q, active.task))
    requires x.job in need && need[x.job] <= 256 * x.time && x.time <= Own(canon, x.job)
    ensures WorkAbove(Place(q, x), need, active, sofar) && NoneLate(Place(q, x), need, canon)
    ensures active.Running? ==> HasTask(Place(q, x), active.task)
  {
    PlaceIn(q, x);
    if active.Running? {
      var i :| 0 <= i < |q| && q[i].job.task == active.task;
      assert q[i] in Place(q, x);
    }
  }

  /** The release of a task that is not ready, the simulation updated if it has to be. */
  lemma OthersWork(q: Queue, need: map<Job, int>, j: Job, work: int, active: Active, sofar: int)
    requires WorkAbove(q, need, active, sofar) && forall x :: x in q ==> x.job != j && x.job in need
    ensures WorkAbove(q, need[j := work], active, sofar)
  {
  }

  lemma ReleaseNew(k: Kernel, late: bool, d: Demand, need: map<Job, int>, canon: Queue, latest: map<nat, int>,
                   now: int, active: Active, sofar: int)
    requires Serving(Pass(k, late), need, canon, latest, now, active, sofar) && !HasTask(k.ready, d.arrival.job.task)
    requires d.arrival.job.task in latest ==> latest[d.arrival.job.task] < d.arrival.job.deadline
    requires d.work <= 256 * d.arrival.wcet
    ensures var a := d.arrival;
      var x := Entry(a.job, a.wcet);
      Serving(Pass(k.(ready := Place(k.ready, x), sim := SimInsert(k.sim, x)), late),
              need[a.job := d.work], Place(canon, x),
              latest[a.job.task := a.job.deadline], now, active, sofar)
  {
    var a := d.arrival;
    var x := Entry(a.job, a.wcet);
    var need', canon', latest' := need[a.job := d.work], Place(canon, x), latest[a.job.task := a.job.deadline];
    CanonicalRelease(k, need, canon, latest, now, a, d.work);
    InsertBelow(k.sim, canon, now - k.simTime, x);
    InsertShape(k, need', canon', latest', x);
    OthersWork(k.ready, need, a.job, d.work, active, sofar);
    InsertWork(k.ready, need', canon', active, sofar, x);
  }

  lemma ReleaseSkipped(s: Pass, d: Demand, need: map<Job, int>, canon: Queue, latest: map<nat, int>, now: int,
                       active: Active, sofar: int)
    requires Serving(s, need, canon, latest, now, active, sofar)
    requires d.arrival.job.task in latest ==> latest[d.arrival.job.task] < d.arrival.job.deadline
    ensures var a := d.arrival;
      Serving(s, need[a.job := d.work], Place(canon, Entry(a.job, a.wcet)),
              latest[a.job.task := a.job.deadline], now, active, sofar)
  {
    CanonicalRelease(s.k, need, canon, latest, now, d.arrival, d.work);
  }

  lemma ReleaseKeeps(s: Pass, d: Demand, need: map<Job, int>, canon: Queue, latest: map<nat, int>, now: int,
                     active: Active, sofar: int)
    requires Serving(s, need, canon, latest, now, active, sofar)
    requires d.arrival.job.task in latest ==> latest[d.arrival.job.task] < d.arrival.job.deadline
    requires d.work <= 256 * d.arrival.wcet
    ensures var a := d.arrival;
      Serving(Release(s, a, now, active), need[a.job := d.work], Place(canon, Entry(a.job, a.wcet)),
              latest[a.job.task := a.job.deadline], now, active, sofar)
  {
    if HasTask(s.k.ready, d.arrival.job.task) {
      ReleaseSkipped(s, d, need, canon, latest, now, active, sofar);
    } else if s.late && Head(Place(s.k.ready, Entry(d.arrival.job, d.arrival.wcet))) != active {
      SimToKeeps(s.k, need, canon, latest, now);
      ReleaseNew(SimTo(s.k, now), false, d, need, canon, latest, now, active, sofar);
    } else {
      ReleaseNew(s.k, s.late, d, need, canon, latest, now, active, sofar);
    }
  }

  lemma ServeLast(s: Pass, due: seq<Demand>, now: int, active: Active)
    requires due != []
    ensures Serve(s, Arrivals(due), now, active)
         == Release(Serve(s, Arrivals(due[..|due| - 1]), now, active), due[|due| - 1].arrival, now, active)
  {
    assert Arrivals(due)[..|due| - 1] == Arrivals(due[..|due| - 1]);
  }

  lemma {:induction false} ServeKeeps(s: Pass, due: seq<Demand>, need: map<Job, int>, canon: Queue,
                                      latest: map<nat, int>, now: int, active: Active, sofar: int)
    requires Serving(s, need, canon, latest, now, active, sofar) && Legal(latest, due)
    ensures Serving(Serve(s, Arrivals(due), now, active), Needs(need, due), PlaceAll(canon, due),
                    Latest(latest, due), now, active, sofar)
  {
    if due != [] {
      var before := due[..|due| - 1];
      ServeKeeps(s, before, need, canon, latest, now, active, sofar);
      ServeLast(s, due, now, active);
      ReleaseKeeps(Serve(s, Arrivals(before), now, active), due[|due| - 1],
                   Needs(need, before), PlaceAll(canon, before), Latest(latest, before), now, active, sofar);
    }
  }

  lemma DoneRoundsDown(p: Points, time: int, speed: nat)
    ensures 256 * Done(p, time, speed) <= p.Ratio(speed) * time
  {
    if speed < p.Fastest() {
      ScaleRoundsDown(time, p.ratios[speed]);
      assert p.Ratio(speed) * time == time * p.ratios[speed];
    }
  }

  lemma WorkOffKeeps(q: Queue, t: nat, done: int, need: map<Job, int>, canon: Queue, sofar: int)
    requires WorkAbove(q, need, Running(t), sofar) && NoneLate(q, need, canon) && 256 * done <= sofar
    ensures WorkAbove(WorkOff(q, t, done), need, Idle, 0) && NoneLate(WorkOff(q, t, done), need, canon)
  {
    var r := WorkOff(q, t, done);
    forall x | x in r && x.job in need
      ensures need[x.job] <= 256 * x.time && need[x.job] <= 256 * Own(canon, x.job)
    {
      var i :| 0 <= i < |r| && r[i] == x;
      assert q[i] in q;
    }
  }

  lemma WorkOffIn(q: Queue, t: nat, done: int, x: Entry)
    requires x in WorkOff(q, t, done)
    ensures exists y :: y in q && y.job == x.job && x == if y.job.task == t then y.(time := y.time - done) else y
  {
    var i :| 0 <= i < |q| && WorkOff(q, t, done)[i] == x;
    assert q[i] in q;
  }

  lemma WorkOffShape(k: Kernel, t: nat, done: int, need: map<Job, int>, canon: Queue, latest: map<nat, int>)
    requires Shape(k, need, canon, latest)
    ensures Shape(k.(ready := WorkOff(k.ready, t, done)), need, canon, latest)
  {
    forall x | x in WorkOff(k.ready, t, done)
      ensures exists y ::
        y in k.ready && y.job == x.job && x == if y.job.task == t then y.(time := y.time - done) else y
    {
      WorkOffIn(k.ready, t, done, x);
    }
  }

  lemma AccountedKeeps(s: Pass, t: nat, done: int, need: map<Job, int>, canon: Queue, latest: map<nat, int>,
                       now: int, sofar: int)
    requires Serving(s, need, canon, latest, now, Running(t), sofar) && 256 * done <= sofar
    ensures Serving(s.(k := s.k.(ready := WorkOff(s.k.ready, t, done), updated := now)), need, canon, latest, now,
      Idle, 0)
  {
    WorkOffKeeps(s.k.ready, t, done, need, canon, sofar);
    WorkOffShape(s.k, t, done, need, canon, latest);
  }

  lemma IdleKeeps(s: Pass, need: map<Job, int>, canon: Queue, latest: map<nat, int>, now: int, sofar: int)
    requires Serving(s, need, canon, latest, now, Idle, sofar)
    ensures Serving(s, need, canon, latest, now, Idle, 0)
  {
  }

  lemma AccountKeeps(p: Points, s: Pass, need: map<Job, int>, canon: Queue, latest: map<nat, int>, now: int,
                     active: Active, sofar: int)
    requires Serving(s, need, canon, latest, now, active, sofar) && sofar == Sofar(p, s.k.speed, s.k.updated, now)
    ensures Serving(s.(k := Account(p, s.k, now, active)), need, canon, latest, now, Idle, 0)
  {
    match active
    case Idle =>
      assert Account(p, s.k, now, active) == s.k;
      IdleKeeps(s, need, canon, latest, now, sofar);
    case Running(t) =>
      DoneRoundsDown(p, now - s.k.updated, s.k.speed);
      AccountedKeeps(s, t, Done(p, now - s.k.updated, s.k.speed), need, canon, latest, now, sofar);
  }

  lemma DispatchKeeps(p: Points, s: Pass, need: map<Job, int>, canon: Queue, latest: map<nat, int>, now: int)
    requires p.Valid() && s.k.minimal <= p.Fastest()
    requires Serving(s, need, canon, latest, now, Idle, 0)
    ensures Inv(p, World(now, Dispatch(p, s, now), need, latest), canon)
  {
    SimToKeeps(s.k, need, canon, latest, now);
    var k := if s.k.ready == [] || s.late then SimTo(s.k, now) else s.k;
    if k.ready != [] {
      ChooseKeeps(p, k.(updated := now), need, canon, latest, now);
    }
  }

  lemma FinishKeeps(p: Points, s: Pass, need: map<Job, int>, canon: Queue, latest: map<nat, int>, now: int,
                    active: Active)
    requires p.Valid() && s.k.minimal <= p.Fastest()
    requires Serving(s, need, canon, latest, now, active, Sofar(p, s.k.speed, s.k.updated, now))
    ensures Inv(p, World(now, Finish(p, s, now, active), need, latest), canon)
  {
    AccountKeeps(p, s, need, canon, latest, now, active, Sofar(p, s.k.speed, s.k.updated, now));
    DispatchKeeps(p, s.(k := Account(p, s.k, now, active)), need, canon, latest, now);
  }

  lemma InterruptKeeps(p: Points, k: Kernel, due: seq<Demand>, need: map<Job, int>, canon: Queue,
                       latest: map<nat, int>, now: int)
    requires p.Valid() && k.minimal <= p.Fastest()
    requires Serving(Pass(k, true), need, canon, latest, now, Head(k.ready), Sofar(p, k.speed, k.updated, now)) &&
      Legal(latest, due)
    ensures Inv(p, World(now, Interrupt(p, k, now, Arrivals(due)), Needs(need, due), Latest(latest, due)),
      PlaceAll(canon, due))
  {
    var active := Head(k.ready);
    ServeKeeps(Pass(k, true), due, need, canon, latest, now, active, Sofar(p, k.speed, k.updated, now));
    FinishKeeps(p, Serve(Pass(k, true), Arrivals(due), now, active), Needs(need, due), PlaceAll(canon, due),
                Latest(latest, due), now, active);
  }

  lemma TimerKeeps(p: Points, w: World, due: seq<Demand>, canon: Queue)
    requires p.Valid() && Inv(p, w, canon) && Enabled(p, w, Timer(due))
    ensures Inv(p, Next(p, w, Timer(due)), PlaceAll(canon, due))
  {
    InterruptKeeps(p, w.k, due, w.need, canon, w.latest, w.now);
  }

  // Over whole runs

  predicate Runs(p: Points, events: seq<Event>)
    decreases |events|, 0
  {
    events == [] ||
    var last := |events| - 1;
    assert |events[..last]| < |events|;
    Runs(p, events[..last]) && Enabled(p, After(p, events[..last]), events[last])
  }

  function After(p: Points, events: seq<Event>): World
    requires Runs(p, events)
    decreases |events|, 1
  {
    if events == [] then START
    else var last := |events| - 1; Next(p, After(p, events[..last]), events[last])
  }

  /** The full-speed schedule of the same releases, apart from the kernel. */
  function FullSpeed(events: seq<Event>): Queue {
    if events == [] then []
    else var last := |events| - 1; Canonical(FullSpeed(events[..last]), events[last])
  }

  lemma {:induction false} RunKeepsInv(p: Points, events: seq<Event>)
    requires p.Valid() && Runs(p, events)
    ensures Inv(p, After(p, events), FullSpeed(events))
  {
    if events != [] {
      var last := |events| - 1;
      RunKeepsInv(p, events[..last]);
      var w, canon := After(p, events[..last]), FullSpeed(events[..last]);
      match events[last]
      case Tick => TickKeeps(p, w, canon);
      case Timer(due) => TimerKeeps(p, w, due, canon);
      case EndTask => EndKeeps(p, w, canon);
      case SetMinimal(s) =>
    }
  }

  /** In every run, an instance the full-speed schedule is through with has done all its
      work; one it has `left` for has at most that much to do. */
  lemma NeverLater(p: Points, events: seq<Event>, x: Entry)
    requires p.Valid() && Runs(p, events) && x in After(p, events).k.ready
    ensures x.job in After(p, events).need && After(p, events).need[x.job] <= 256 * Own(FullSpeed(events), x.job)
  {
    RunKeepsInv(p, events);
  }

  lemma {:induction false} OwnIn(q: Queue, j: Job)
    requires Own(q, j) > 0
    ensures exists y :: y in q && y.job == j && y.time > 0
  {
    if !(q[0].job == j && q[0].time > 0) {
      OwnIn(q[1..], j);
    }
  }

  /** Deadlines kept at full speed, every instance taking its WCET, are kept. */
  lemma DeadlinesKept(p: Points, events: seq<Event>, x: Entry)
    requires p.Valid() && Runs(p, events) && x in After(p, events).k.ready
    requires forall y :: y in FullSpeed(events) && y.time > 0 ==> After(p, events).now < y.job.deadline
    ensures x.job in After(p, events).need
    ensures After(p, events).need[x.job] > 0 ==> After(p, events).now < x.job.deadline
  {
    NeverLater(p, events, x);
    if After(p, events).need[x.job] > 0 {
      OwnIn(FullSpeed(events), x.job);
    }
  }

  lemma {:induction false} LatestRises(latest: map<nat, int>, due: seq<Demand>, t: nat)
    requires Legal(latest, due) && t in latest
    ensures t in Latest(latest, due) && latest[t] <= Latest(latest, due)[t]
  {
    if due != [] {
      LatestRises(latest, due[..|due| - 1], t);
    }
  }

  lemma {:induction false} DueOlder(q: Queue, latest: map<nat, int>, due: seq<Demand>)
    requires Known(q, latest) && Legal(latest, due)
    ensures forall d :: d in due ==> Older(q, d.arrival.job)
  {
    if due != [] {
      var rest, j := due[..|due| - 1], due[|due| - 1].arrival.job;
      DueOlder(q, latest, rest);
      forall y | y in q && y.job.task == j.task ensures Before(y.job, j) {
        LatestRises(latest, rest, j.task);
      }
      assert forall d :: d in due ==> d in rest || d == due[|due| - 1];
    }
  }

  /** In every run the timer handler finds the kernel as its procedures need it: the queue in
      order, and the instances still simulated before those to release. */
  lemma HandlerReady(p: Points, events: seq<Event>, due: seq<Demand>)
    requires p.Valid() && Runs(p, events) && Enabled(p, After(p, events), Timer(due))
    ensures var k := After(p, events).k;
      Sorted(k.sim) && Lasting(k.sim) && forall a :: a in Arrivals(due) ==> Older(k.sim, a.job)
  {
    RunKeepsInv(p, events);
    var w := After(p, events);
    DueOlder(w.k.sim, w.latest, due);
    forall a | a in Arrivals(due) ensures Older(w.k.sim, a.job) {
      var i :| 0 <= i < |due| && Arrivals(due)[i] == a;
      assert due[i] in due;
    }
  }

  // Ends before releases

  /** An end comes before the timer handler of the same instant, and every instance has
      some work to do. */
  predicate Prompt(p: Points, events: seq<Event>)
    requires Runs(p, events)
  {
    events == [] ||
    var last := |events| - 1;
    var w := After(p, events[..last]);
    && Prompt(p, events[..last])
    && (events[last].Timer? ==>
          && (w.k.ready != [] && w.k.ready[0].job in w.need ==> w.need[w.k.ready[0].job] > 0)
          && forall d :: d in events[last].due ==> d.work > 0)
  }

  /** Every instance of a queue has work left. */
  ghost predicate AllLeft(q: Queue, need: map<Job, int>) {
    forall x :: x in q && x.job in need ==> need[x.job] > 0
  }

  lemma {:induction false} ServeLeft(s: Pass, due: seq<Demand>, need: map<Job, int>, now: int, active: Active)
    requires AllLeft(s.k.ready, need) && forall x :: x in s.k.ready ==> x.job in need
    requires forall d :: d in due ==> d.work > 0
    ensures var ready := Serve(s, Arrivals(due), now, active).k.ready;
      AllLeft(ready, Needs(need, due)) && forall x :: x in ready ==> x.job in Needs(need, due)
  {
    if due != [] {
      var last := |due| - 1;
      ServeLeft(s, due[..last], need, now, active);
      assert Arrivals(due)[..last] == Arrivals(due[..last]);
      var k := Serve(s, Arrivals(due[..last]), now, active).k;
      PlaceIn(k.ready, Entry(due[last].arrival.job, due[last].arrival.wcet));
    }
  }

  lemma FinishLeft(p: Points, s: Pass, need: map<Job, int>, now: int, active: Active)
    requires s.k.minimal <= p.Fastest()
    requires AllLeft(s.k.ready, need) && forall x :: x in s.k.ready ==> x.job in need
    ensures AllLeft(Finish(p, s, now, active).ready, need)
  {
    forall x | x in Account(p, s.k, now, active).ready ensures exists y :: y in s.k.ready && y.job == x.job {
      if active.Running? {
        WorkOffIn(s.k.ready, active.task, Done(p, now - s.k.updated, s.k.speed), x);
      }
    }
  }

  lemma InterruptLeft(p: Points, k: Kernel, due: seq<Demand>, need: map<Job, int>, now: int)
    requires k.minimal <= p.Fastest()
    requires AllLeft(k.ready, need) && forall x :: x in k.ready ==> x.job in need
    requires forall d :: d in due ==> d.work > 0
    ensures AllLeft(Interrupt(p, k, now, Arrivals(due)).ready, Needs(need, due))
  {
    ServeLeft(Pass(k, true), due, need, now, Head(k.ready));
    FinishLeft(p, Serve(Pass(k, true), Arrivals(due), now, Head(k.ready)), Needs(need, due), now, Head(k.ready));
  }

  lemma TickLeft(q: Queue, need: map<Job, int>, r: int)
    requires Sorted(q) && q != [] && q[0].job in need && AllLeft(q[1..], need)
    ensures AllLeft(q[1..], need[q[0].job := need[q[0].job] - r])
  {
    forall x | x in q[1..] ensures x.job != q[0].job {
      var i :| 0 <= i < |q[1..]| && q[1..][i] == x;
      assert Before(q[0].job, q[i + 1].job);
    }
  }

  lemma {:induction false} PromptLeft(p: Points, events: seq<Event>)
    requires p.Valid() && Runs(p, events) && Prompt(p, events)
    ensures var w := After(p, events); w.k.ready != [] ==> AllLeft(w.k.ready[1..], w.need)
  {
    if events != [] {
      var last := |events| - 1;
      PromptLeft(p, events[..last]);
      RunKeepsInv(p, events[..last]);
      var w := After(p, events[..last]);
      match events[last]
      case Tick =>
        if w.k.ready != [] {
          TickLeft(w.k.ready, w.need, p.Ratio(w.k.speed));
        }
      case Timer(due) => InterruptLeft(p, w.k, due, w.need, w.now);
      case EndTask =>
      case SetMinimal(s) =>
    }
  }

  /** Ends first, no instance the full-speed schedule is through with outlives the instant:
      none is ready when time goes on. */
  lemma EndsNoLater(p: Points, events: seq<Event>, x: Entry)
    requires p.Valid() && Runs(p, events) && Prompt(p, events)
    requires Enabled(p, After(p, events), Tick) && x in After(p, events).k.ready
    ensures Own(FullSpeed(events), x.job) > 0
  {
    PromptLeft(p, events);
    NeverLater(p, events, x);
    var q := After(p, events).k.ready;
    assert q == [q[0]] + q[1..];
  }
}
