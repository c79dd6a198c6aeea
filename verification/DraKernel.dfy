/** The power-aware kernel under dynamic reclaiming (Aydin, Melhem, Mossé and Mejía-Alvarez,
    2004), with periodic tasks only: what its timer handler and OSEndTask do to the ready
    queue, to the simulated queue and to the speed. Times are unbounded, the handler takes
    none, and a TCB is named by its task. */
module DraKernel {
  import opened EdfStar
  import opened Speed

  /** Whom the handler found running. */
  datatype Active = Idle | Running(task: nat)

  /** A release due: its instance and its task's WCET. */
  datatype Arrival = Arrival(job: Job, wcet: nat)

  /** The kernel's variables: DRASimTime, the simulated queue with each CompletionTime, the
      ready queue with each RemainingWork, LastRemainingWorkUpdate, the speed and
      MinimalProcessorSpeed. */
  datatype Kernel = Kernel(simTime: int, sim: Queue, ready: Queue, updated: int, speed: nat, minimal: nat)

  function Head(q: Queue): Active {
    if q == [] then Idle else Running(q[0].job.task)
  }

  /** GetDRASlackTime: the time simulated up to a task's entry, its own included; none when
      it has no entry. */
  function Slack(sim: Queue, t: nat): int {
    if HasTask(sim, t) then UpTo(sim, t) else 0
  }

  function UpTo(sim: Queue, t: nat): int
    requires HasTask(sim, t)
  {
    if sim[0].job.task == t then sim[0].time else sim[0].time + UpTo(sim[1..], t)
  }

  /** UpdateRemainingWork, in the entry of a task. */
  function WorkOff(q: Queue, t: nat, done: int): (r: Queue)
    ensures |r| == |q|
    ensures forall i :: 0 <= i < |q| ==>
              r[i] == if q[i].job.task == t then q[i].(time := q[i].time - done) else q[i]
  {
    seq(|q|, i requires 0 <= i < |q| =>
      if q[i].job.task == t then q[i].(time := q[i].time - done) else q[i])
  }

  /** DRASimUpdateElapseTime. */
  function SimTo(k: Kernel, now: int): Kernel {
    if k.simTime < now then k.(sim := Drain(k.sim, now - k.simTime), simTime := now) else k
  }

  /** DRASimQueueInsert: the TCB's old instance, if still there, is taken out undrained. */
  function SimInsert(sim: Queue, x: Entry): Queue {
    Place(Unlink(sim, x.job.task), x)
  }

  /** The speed for the head of the ready queue. */
  function Choose(p: Points, k: Kernel): Kernel
    requires k.ready != [] && k.minimal <= p.Fastest()
  {
    k.(speed := SpeedFor(p, k.minimal, k.ready[0].time, Slack(k.sim, k.ready[0].job.task)))
  }

  /** The handler between two arrivals. `late` is doSimUpdateElapseTime: the simulation is
      not yet brought to the time of the interrupt. */
  datatype Pass = Pass(k: Kernel, late: bool)

  /** The release of one arrival. The simulation is brought up to date only before an
      insertion that follows a change of the ready queue's head. A task still in the ready
      queue overruns: its release is skipped. */
  function Release(s: Pass, a: Arrival, now: int, active: Active): Pass {
    if HasTask(s.k.ready, a.job.task) then s
    else
      var ready := Place(s.k.ready, Entry(a.job, a.wcet));
      var change := s.late && Head(ready) != active;
      var k := if change then SimTo(s.k, now) else s.k;
      Pass(k.(ready := ready, sim := SimInsert(k.sim, Entry(a.job, a.wcet))), s.late && !change)
  }

  function Serve(s: Pass, due: seq<Arrival>, now: int, active: Active): (r: Pass)
    ensures r.k.minimal == s.k.minimal && r.k.speed == s.k.speed && r.k.updated == s.k.updated
  {
    if due == [] then s
    else
      var last := |due| - 1;
      Release(Serve(s, due[..last], now, active), due[last], now, active)
  }

  /** The timer handler: the arrivals, the work of the task interrupted, the speed of the
      one to run. */
  function Interrupt(p: Points, k: Kernel, now: int, due: seq<Arrival>): Kernel
    requires k.minimal <= p.Fastest()
  {
    Finish(p, Serve(Pass(k, true), due, now, Head(k.ready)), now, Head(k.ready))
  }

  function Finish(p: Points, s: Pass, now: int, active: Active): Kernel
    requires s.k.minimal <= p.Fastest()
  {
    Dispatch(p, Pass(Account(p, s.k, now, active), s.late), now)
  }

  function Account(p: Points, k: Kernel, now: int, active: Active): Kernel {
    if active.Idle? then k
    else k.(ready := WorkOff(k.ready, active.task, Done(p, now - k.updated, k.speed)), updated := now)
  }

  function Dispatch(p: Points, s: Pass, now: int): Kernel
    requires s.k.minimal <= p.Fastest()
  {
    if s.k.ready == [] then SimTo(s.k, now).(updated := now)
    else Choose(p, (if s.late then SimTo(s.k, now) else s.k).(updated := now))
  }

  /** OSEndTask, by the task at the head of the ready queue. */
  function End(p: Points, k: Kernel, now: int): Kernel
    requires k.ready != [] && k.minimal <= p.Fastest()
  {
    var k1 := SimTo(k, now).(ready := k.ready[1..]);
    if k1.ready == [] then k1 else Choose(p, k1.(updated := k1.simTime))
  }

  /** The time of all entries. */
  function Total(q: Queue): int {
    if q == [] then 0 else q[0].time + Total(q[1..])
  }

  /** The slack is the time of the entries up to the task's first, its own included, and none
      when it has no entry. */
  lemma {:induction false} SlackIsSum(q: Queue, i: nat)
    requires i < |q| && forall k :: 0 <= k < i ==> q[k].job.task != q[i].job.task
    ensures Slack(q, q[i].job.task) == Total(q[..i + 1])
  {
    var t := q[i].job.task;
    assert HasTask(q, t);
    assert q[..i + 1][1..] == q[1..][..i];
    if i > 0 {
      SlackIsSum(q[1..], i - 1);
      assert q[1..][..i - 1 + 1] == q[1..][..i] && HasTask(q[1..], t);
    } else {
      assert Total(q[..1][1..]) == 0;
    }
  }

  lemma {:induction false} UpToIsAhead(q: Queue, j: Job)
    requires Sorted(q) && HasTask(q, j.task)
    requires forall x :: x in q && x.job.task == j.task ==> x.job == j
    ensures UpTo(q, j.task) == Ahead(q, j, true)
  {
    if q[0].job.task == j.task {
      assert q[0] in q;
      var rest := q[1..];
      if rest != [] {
        assert Before(q[0].job, q[1].job);
      }
      NoneAhead(rest, j, true);
    } else {
      assert HasTask(q[1..], j.task) by {
        var i :| 0 <= i < |q| && q[i].job.task == j.task;
        assert q[1..][i - 1] == q[i];
        assert q[i] in q && Before(q[0].job, j);
      }
      UpToIsAhead(q[1..], j);
    }
  }

  /** In a sorted queue the slack of an instance is what lies ahead of it, and its own, when it
      is there, and none otherwise. */
  lemma SlackIsAhead(q: Queue, j: Job)
    requires Sorted(q) && forall x :: x in q && x.job.task == j.task ==> x.job == j
    ensures Slack(q, j.task) == if exists x :: x in q && x.job == j then Ahead(q, j, true) else 0
  {
    if HasTask(q, j.task) {
      var i :| 0 <= i < |q| && q[i].job.task == j.task;
      assert q[i] in q;
      UpToIsAhead(q, j);
    }
  }
}
