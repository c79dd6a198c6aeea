/** The simulation of dynamic reclaiming cut off at any of its stores. A task ending inside
    DRASimUpdateElapseTime may be interrupted for good: the timer handler completes the pair
    of stores it left pending, from the pair's static variables, then goes on from there. */
module DraRecovery {
  import opened Common
  import opened EdfStar

  /** Whether the code went on or was cut off for good. */
  datatype Outcome = Went | Cut {
    predicate IsFailure() { Cut? }
    function PropagateFailure(): Outcome { this }
  }

  /** The stores left before the interrupt, if there is one. */
  datatype Budget = Unlimited | Stores(left: nat)

  function Total(q: Queue): int {
    if q == [] then 0 else q[0].time + Total(q[1..])
  }

  /** Time gone by and time left to simulate add up to the same, down to an empty queue. */
  lemma {:induction false} DrainConserves(q: Queue, elapsed: nat)
    requires Lasting(q)
    ensures Total(q) >= 0 && Total(Drain(q, elapsed)) == Max0(Total(q) - elapsed)
  {
    if q != [] {
      DrainConserves(q[1..], if elapsed > q[0].time then elapsed - q[0].time else 0);
    }
  }

  /** A queue at time `t` drained to a later time. */
  function DrainTo(q: Queue, t: int, later: int): Queue {
    Drain(q, later - t)
  }

  /** The simulation at (t, q) is on the way from (t0, q0) to `now`: going on to any later
      time gives what draining without interruption gives, and no time is lost or made. */
  ghost predicate OnTheWay(t: int, q: Queue, t0: int, q0: Queue, now: int) {
    && t0 <= t && (t <= now || t == t0)
    && (forall later :: later >= now && later >= t ==> DrainTo(q, t, later) == DrainTo(q0, t0, later))
    && (q == [] || t + Total(q) == t0 + Total(q0))
  }

  /** The head's whole time gone by. */
  lemma PopOnTheWay(t: int, q: Queue, t0: int, q0: Queue, now: int)
    requires OnTheWay(t, q, t0, q0, now) && q != [] && t < now && 0 <= q[0].time <= now - t
    ensures OnTheWay(t + q[0].time, q[1..], t0, q0, now)
  {
    var t' := t + q[0].time;
    forall later | later >= now && later >= t' ensures DrainTo(q[1..], t', later) == DrainTo(q0, t0, later) {
      assert DrainTo(q, t, later) == DrainTo(q[1..], t', later);
    }
  }

  /** Part of the head's time gone by. */
  lemma PartOnTheWay(t: int, q: Queue, t0: int, q0: Queue, now: int)
    requires OnTheWay(t, q, t0, q0, now) && q != [] && Lasting(q) && t < now && now - t < q[0].time
    ensures OnTheWay(now, [q[0].(time := q[0].time - (now - t))] + q[1..], t0, q0, now)
  {
    var r := [q[0].(time := q[0].time - (now - t))] + q[1..];
    assert r == DrainTo(q, t, now);
    forall later | later >= now ensures DrainTo(r, now, later) == DrainTo(q0, t0, later) {
      DrainTwice(q, now - t, later - now);
      assert DrainTo(q, t, later) == DrainTo(q0, t0, later);
    }
  }

  /** Nothing left to simulate. */
  lemma EmptyOnTheWay(t: int, t0: int, q0: Queue, now: int)
    requires OnTheWay(t, [], t0, q0, now) && t < now
    ensures OnTheWay(now, [], t0, q0, now)
  {
    forall later | later >= now ensures DrainTo([], now, later) == DrainTo(q0, t0, later) {
      assert DrainTo([], t, later) == DrainTo(q0, t0, later);
    }
  }

  lemma LaterOnTheWay(t: int, q: Queue, t0: int, q0: Queue, now: int, later: int)
    requires OnTheWay(t, q, t0, q0, now) && now <= later && t0 <= later
    ensures OnTheWay(t, q, t0, q0, later)
  {
  }

  /** The nodes of the simulated queue in the order of their NextSim links: node i links to
      node i + 1, the tail being one past the last. */
  class Simulation {
    const jobs: seq<Job>
    var completion: seq<int>      // CompletionTime of each node
    var head: nat                 // the queue head's NextSim
    var simTime: int              // DRASimTime

    // The static variables of InterruptibleINT32CAS2: node is that of the second address
    var intPhase: nat
    var intNode: nat
    var intExpected: (int, int)
    var intNew: (int, int)
    // and those of InterruptibleMixCAS2
    var mixPhase: nat
    var mixTime: (int, int)       // expected and new time
    var mixNode: (nat, nat)       // expected and new node

    var budget: Budget

    constructor (jobs: seq<Job>, completion: seq<int>, simTime: int)
      requires |completion| == |jobs| && forall i :: 0 <= i < |completion| ==> completion[i] >= 0
      ensures Valid() && Settled() && this.simTime == simTime && this.jobs == jobs
      ensures head == 0 && this.completion == completion && budget == Unlimited
    {
      this.jobs, this.completion, this.simTime, head, budget := jobs, completion, simTime, 0, Unlimited;
      intPhase, intNode, intExpected, intNew := 2, 0, (0, 0), (0, 0);
      mixPhase, mixTime, mixNode := 2, (0, 0), (0, 0);
    }

    ghost predicate Valid()
      reads this
    {
      && |completion| == |jobs| && head <= |jobs|
      && intPhase <= 2 && mixPhase <= 2 && (intPhase == 2 || mixPhase == 2)
      && (intPhase < 2 ==> intNode < |jobs| && intNew.1 >= 0)
      && (mixPhase < 2 ==> mixNode.1 <= |jobs|)
      && forall i :: 0 <= i < |completion| ==> completion[i] >= 0
    }

    /** No pair pending. */
    predicate Settled()
      reads this
    {
      intPhase == 2 && mixPhase == 2
    }

    ghost function QueueFrom(node: nat, left: seq<int>): (q: Queue)
      requires node <= |jobs| == |left|
      ensures |q| == |jobs| - node
      ensures forall i :: 0 <= i < |q| ==> q[i] == Entry(jobs[node + i], left[node + i])
    {
      seq(|jobs| - node, i requires 0 <= i < |jobs| - node => Entry(jobs[node + i], left[node + i]))
    }

    ghost function SimQueue(): Queue
      reads this
      requires Valid()
    {
      QueueFrom(head, completion)
    }

    // What completing the pending pair would leave

    ghost function SettledTime(): int
      reads this
    {
      if mixPhase == 0 && simTime == mixTime.0 then mixTime.1
      else if intPhase == 0 && simTime == intExpected.0 then intNew.0
      else simTime
    }

    ghost function SettledHead(): nat
      reads this
    {
      if mixPhase < 2 && head == mixNode.0 then mixNode.1 else head
    }

    ghost function SettledLeft(): seq<int>
      reads this
      requires Valid()
    {
      if intPhase < 2 && completion[intNode] == intExpected.1 then completion[intNode := intNew.1] else completion
    }

    ghost function SettledQueue(): Queue
      reads this
      requires Valid() && SettledHead() <= |jobs|
    {
      QueueFrom(SettledHead(), SettledLeft())
    }

    /** The pending pair completed, the simulation is on the way from (t0, q0) to `now`: going
        on to any later time gives what draining without interruption gives, and no time is
        lost or made. */
    ghost predicate OnTrack(t0: int, q0: Queue, now: int)
      reads this
    {
      && Valid() && SettledHead() <= |jobs|
      && OnTheWay(SettledTime(), SettledQueue(), t0, q0, now)
    }

    /** One more store, unless the interrupt comes first. */
    method Spend() returns (o: Outcome)
      modifies this`budget
      ensures old(budget).Unlimited? ==> o.Went? && budget.Unlimited?
    {
      match budget
      case Unlimited => o := Went;
      case Stores(n) =>
        if n == 0 {
          o := Cut;
        } else {
          budget := Stores(n - 1);
          o := Went;
        }
    }

    /** The stores of a pending InterruptibleINT32CAS2, by the caller or by the handler. */
    method FinishInt() returns (o: Outcome)
      requires Valid()
      modifies this`completion, this`simTime, this`intPhase, this`budget
      ensures Valid() && (o.Went? ==> intPhase == 2) && (mixPhase < 2 ==> simTime == old(simTime))
      ensures SettledTime() == old(SettledTime()) && SettledLeft() == old(SettledLeft())
      ensures old(budget).Unlimited? ==> o.Went? && budget.Unlimited?
    {
      while intPhase < 2
        invariant Valid() && (mixPhase < 2 ==> simTime == old(simTime))
        invariant SettledTime() == old(SettledTime()) && SettledLeft() == old(SettledLeft())
        invariant old(budget).Unlimited? ==> budget.Unlimited?
        decreases 2 - intPhase
      {
        var step := intPhase;
        :- Spend();
        if step == 0 {
          if simTime == intExpected.0 {
            simTime := intNew.0;
          }
        } else if completion[intNode] == intExpected.1 {
          completion := completion[intNode := intNew.1];
        }
        :- Spend();
        intPhase := step + 1;
      }
      return Went;
    }

    method FinishMix() returns (o: Outcome)
      requires Valid() && SettledHead() <= |jobs|
      modifies this`head, this`simTime, this`mixPhase, this`budget
      ensures Valid() && (o.Went? ==> mixPhase == 2) && (intPhase < 2 ==> simTime == old(simTime))
      ensures SettledTime() == old(SettledTime()) && SettledHead() == old(SettledHead())
      ensures old(budget).Unlimited? ==> o.Went? && budget.Unlimited?
    {
      while mixPhase < 2
        invariant Valid() && (intPhase < 2 ==> simTime == old(simTime))
        invariant SettledTime() == old(SettledTime()) && SettledHead() == old(SettledHead())
        invariant old(budget).Unlimited? ==> budget.Unlimited?
        decreases 2 - mixPhase
      {
        var step := mixPhase;
        :- Spend();
        if step == 0 {
          if simTime == mixTime.0 {
            simTime := mixTime.1;
          }
        } else if head == mixNode.0 {
          head := mixNode.1;
        }
        :- Spend();
        mixPhase := step + 1;
      }
      return Went;
    }

    /** The stores that describe an InterruptibleINT32CAS2, none of which counts before its
        phase is set. */
    method DescribeInt(node: nat, expected: (int, int), updated: (int, int)) returns (o: Outcome)
      requires Valid() && intPhase == 2 && node < |jobs| && updated.1 >= 0
      modifies this`intNode, this`intExpected, this`intNew, this`budget
      ensures Valid() && (o.Went? ==> intNode == node && intExpected == expected && intNew == updated)
      ensures old(budget).Unlimited? ==> o.Went? && budget.Unlimited?
    {
      o := Went;
      :- Spend();
      intNode := node;
      :- Spend();
      intExpected := (expected.0, intExpected.1);
      :- Spend();
      intExpected := expected;
      :- Spend();
      intNew := (updated.0, intNew.1);
      :- Spend();
      intNew := updated;
    }

    method Int32Cas2(node: nat, expected: (int, int), updated: (int, int)) returns (o: Outcome)
      requires Valid() && Settled() && node < |jobs| && updated.1 >= 0
      requires simTime == expected.0 && completion[node] == expected.1
      modifies this`completion, this`simTime, this`intPhase, this`intNode, this`intExpected, this`intNew, this`budget
      ensures Valid() && mixPhase == 2
      ensures (SettledTime() == updated.0 && SettledLeft() == old(completion)[node := updated.1])
           || (o.Cut? && SettledTime() == old(simTime) && SettledLeft() == old(completion))
      ensures o.Went? ==> Settled()
      ensures old(budget).Unlimited? ==> o.Went? && budget.Unlimited?
    {
      o := Went;
      :- DescribeInt(node, expected, updated);
      :- Spend();
      intPhase := 0;
      o := FinishInt();
    }

    method DescribeMix(time: (int, int), node: (nat, nat)) returns (o: Outcome)
      requires Valid() && mixPhase == 2 && node.1 <= |jobs|
      modifies this`mixTime, this`mixNode, this`budget
      ensures Valid() && (o.Went? ==> mixTime == time && mixNode == node)
      ensures old(budget).Unlimited? ==> o.Went? && budget.Unlimited?
    {
      o := Went;
      :- Spend();
      mixTime := (time.0, mixTime.1);
      :- Spend();
      mixTime := time;
      :- Spend();
      mixNode := (node.0, mixNode.1);
      :- Spend();
      mixNode := node;
    }

    method MixCas2(time: (int, int), node: (nat, nat)) returns (o: Outcome)
      requires Valid() && Settled() && node.1 <= |jobs|
      requires simTime == time.0 && head == node.0
      modifies this`head, this`simTime, this`mixPhase, this`mixTime, this`mixNode, this`budget
      ensures Valid() && intPhase == 2
      ensures (SettledTime() == time.1 && SettledHead() == node.1)
           || (o.Cut? && SettledTime() == old(simTime) && SettledHead() == old(head))
      ensures o.Went? ==> Settled()
      ensures old(budget).Unlimited? ==> o.Went? && budget.Unlimited?
    {
      o := Went;
      :- DescribeMix(time, node);
      :- Spend();
      mixPhase := 0;
      o := FinishMix();
    }

    /** The head has more left than the time elapsed. */
    method ShortenHead(now: int, ghost t0: int, ghost q0: Queue) returns (o: Outcome)
      requires Valid() && Settled() && OnTrack(t0, q0, now)
      requires head < |jobs| && simTime < now && completion[head] > now - simTime
      modifies this
      ensures OnTrack(t0, q0, now) && (o.Went? ==> Settled() && simTime == now)
      ensures old(budget).Unlimited? ==> o.Went? && budget.Unlimited?
    {
      ghost var q := SimQueue();
      var left, completed := completion[head], now - simTime;
      PartOnTheWay(simTime, q, t0, q0, now);
      assert QueueFrom(head, completion[head := left - completed]) == [q[0].(time := left - completed)] + q[1..];
      o := Int32Cas2(head, (simTime, left), (now, left - completed));
    }

    /** The head's time is all elapsed. */
    method PopHead(now: int, ghost t0: int, ghost q0: Queue) returns (o: Outcome)
      requires Valid() && Settled() && OnTrack(t0, q0, now)
      requires head < |jobs| && simTime < now && completion[head] <= now - simTime
      modifies this
      ensures OnTrack(t0, q0, now) && completion == old(completion)
      ensures o.Went? ==> Settled() && simTime == old(simTime) + completion[old(head)] && head == old(head) + 1
      ensures old(budget).Unlimited? ==> o.Went? && budget.Unlimited?
    {
      ghost var q := SimQueue();
      PopOnTheWay(simTime, q, t0, q0, now);
      assert QueueFrom(head + 1, completion) == q[1..];
      o := MixCas2((simTime, simTime + completion[head]), (head, head + 1));
    }

    /** DRASimUpdateElapseTime, cut off anywhere. */
    method Update(now: int, ghost t0: int, ghost q0: Queue) returns (o: Outcome)
      requires Valid() && Settled() && OnTrack(t0, q0, now)
      modifies this
      ensures OnTrack(t0, q0, now)
      ensures o.Went? ==> Settled() && simTime == if old(simTime) < now then now else old(simTime)
      ensures old(budget).Unlimited? ==> o.Went? && budget.Unlimited?
    {
      var completed := now - simTime;
      while completed > 0
        invariant Settled() && OnTrack(t0, q0, now)
        invariant completed == now - simTime
        invariant simTime == old(simTime) || completed >= 0
        invariant old(budget).Unlimited? ==> budget.Unlimited?
        decreases |jobs| - head, completed
      {
        if head == |jobs| {
          EmptyOnTheWay(simTime, t0, q0, now);
          :- Spend();
          simTime := now;
          break;
        }
        if completion[head] > completed {
          :- ShortenHead(now, t0, q0);
          break;
        }
        completed := completed - completion[head];
        :- PopHead(now, t0, q0);
      }
      return Went;
    }

    /** The timer handler, which nothing cuts off, completes what is pending and updates to
        its own time. */
    method Recover(later: int, ghost t0: int, ghost q0: Queue, ghost now: int)
      requires OnTrack(t0, q0, now) && now <= later && t0 <= later
      modifies this
      ensures Valid() && Settled() && simTime == later && SimQueue() == DrainTo(q0, t0, later)
    {
      budget := Unlimited;
      var _ := FinishMix();
      var _ := FinishInt();
      LaterOnTheWay(simTime, SimQueue(), t0, q0, now, later);
      var _ := Update(later, t0, q0);
      assert DrainTo(SimQueue(), later, later) == DrainTo(q0, t0, later);
    }
  }

  /** A task ending is cut off after any number of stores of its update, and never resumes;
      the timer handler completes what it left pending and updates to its own, later time.
      Queue and clock are those of a drain without interruption. */
  method CutOffAndRecover(s: Simulation, now: int, stores: nat, later: int)
    requires s.Valid() && s.Settled() && now <= later && s.simTime <= later
    modifies s
    ensures s.Valid() && s.Settled() && s.simTime == later
    ensures s.SimQueue() == Drain(old(s.SimQueue()), later - old(s.simTime))
  {
    ghost var t0, q0 := s.simTime, s.SimQueue();
    s.budget := Stores(stores);
    var _ := s.Update(now, t0, q0);
    s.Recover(later, t0, q0, now);
  }
}
