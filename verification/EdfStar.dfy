/** Queues in EDF* order, and the time simulated ahead of an instance in one. */
module EdfStar {
  import opened Common

  /** An instance: the TCB of its task, its release and its deadline. */
  datatype Job = Job(task: nat, release: int, deadline: int)

  /** ReadyQueueInsertTestKey: at equal deadlines the instance released last first, then the
      larger TCB address. */
  predicate Before(a: Job, b: Job) {
    || a.deadline < b.deadline
    || (a.deadline == b.deadline
        && (b.release < a.release || (b.release == a.release && b.task < a.task)))
  }

  /** A queued TCB with a time it carries: CompletionTime in the simulated queue,
      RemainingWork in the ready queue. */
  datatype Entry = Entry(job: Job, time: int)

  type Queue = seq<Entry>

  /** The TCB's instance in a queue, if any, is before a new one. */
  ghost predicate Older(q: Queue, j: Job) {
    forall y :: y in q && y.job.task == j.task ==> Before(y.job, j)
  }

  ghost predicate Sorted(q: Queue) {
    forall i, j :: 0 <= i < j < |q| ==> Before(q[i].job, q[j].job)
  }

  ghost predicate Lasting(q: Queue) {
    forall i :: 0 <= i < |q| ==> q[i].time >= 0
  }

  predicate HasTask(q: Queue, t: nat) {
    exists i :: 0 <= i < |q| && q[i].job.task == t
  }

  /** InsertQueue: before the first entry the key precedes. */
  function Place(q: Queue, x: Entry): (r: Queue)
    ensures multiset(r) == multiset(q) + multiset{x}
  {
    if q == [] || Before(x.job, q[0].job) then [x] + q
    else
      assert q == [q[0]] + q[1..];
      [q[0]] + Place(q[1..], x)
  }

  /** The queue without the entries of a task. */
  function Unlink(q: Queue, t: nat): (r: Queue)
    ensures !HasTask(r, t)
  {
    if q == [] then []
    else if q[0].job.task == t then Unlink(q[1..], t)
    else [q[0]] + Unlink(q[1..], t)
  }

  /** The queue after `elapsed` ticks given to its head. */
  function Drain(q: Queue, elapsed: int): Queue {
    if elapsed <= 0 || q == [] then q
    else if q[0].time > elapsed then [q[0].(time := q[0].time - elapsed)] + q[1..]
    else Drain(q[1..], elapsed - q[0].time)
  }

  predicate Counts(x: Job, j: Job, own: bool) {
    Before(x, j) || (own && x == j)
  }

  /** The time in the queue ahead of an instance, with its own or without. */
  function Ahead(q: Queue, j: Job, own: bool): int {
    if q == [] then 0
    else (if Counts(q[0].job, j, own) then q[0].time else 0) + Ahead(q[1..], j, own)
  }

  /** The time an instance has left in the queue, 0 once it is through. */
  function Own(q: Queue, j: Job): int {
    Ahead(q, j, true) - Ahead(q, j, false)
  }

  // Placing and unlinking

  lemma PlaceIn(q: Queue, x: Entry)
    ensures forall y :: y in Place(q, x) <==> y in q || y == x
  {
    assert forall y :: y in Place(q, x) <==> multiset(Place(q, x))[y] > 0;
    assert forall y :: y in q <==> multiset(q)[y] > 0;
  }

  lemma {:induction false} PlaceSorted(q: Queue, x: Entry)
    requires Sorted(q) && forall y :: y in q ==> y.job != x.job
    ensures Sorted(Place(q, x))
  {
    if q != [] && !Before(x.job, q[0].job) {
      PlaceSorted(q[1..], x);
      PlaceIn(q[1..], x);
      var r := Place(q[1..], x);
      forall i | 0 <= i < |r| ensures Before(q[0].job, r[i].job) {
        assert r[i] in r;
      }
    }
  }

  lemma {:induction false} PlaceAhead(q: Queue, x: Entry, j: Job, own: bool)
    ensures Ahead(Place(q, x), j, own) == Ahead(q, j, own) + if Counts(x.job, j, own) then x.time else 0
  {
    if q != [] && !Before(x.job, q[0].job) {
      PlaceAhead(q[1..], x, j, own);
    }
  }

  lemma {:induction false} UnlinkIn(q: Queue, t: nat)
    ensures forall y :: y in Unlink(q, t) <==> y in q && y.job.task != t
  {
    if q != [] {
      UnlinkIn(q[1..], t);
      assert q == [q[0]] + q[1..];
    }
  }

  lemma {:induction false} UnlinkSorted(q: Queue, t: nat)
    requires Sorted(q)
    ensures Sorted(Unlink(q, t))
  {
    if q != [] {
      UnlinkSorted(q[1..], t);
      UnlinkIn(q[1..], t);
      var r := Unlink(q[1..], t);
      forall i | 0 <= i < |r| ensures Before(q[0].job, r[i].job) {
        assert r[i] in r;
      }
    }
  }

  lemma {:induction false} UnlinkAhead(q: Queue, t: nat, j: Job, own: bool)
    requires Lasting(q)
    ensures Ahead(Unlink(q, t), j, own) <= Ahead(q, j, own)
  {
    if q != [] {
      UnlinkAhead(q[1..], t, j, own);
    }
  }

  // Draining

  /** The instances of r are the last ones of q, in their order. */
  ghost predicate LastOf(r: Queue, q: Queue) {
    |r| <= |q| && forall i :: 0 <= i < |r| ==> r[i].job == q[|q| - |r| + i].job
  }

  lemma LastOfRest(r: Queue, q: Queue)
    requires q != [] && LastOf(r, q[1..])
    ensures LastOf(r, q)
  {
    forall i | 0 <= i < |r| ensures r[i].job == q[|q| - |r| + i].job {
      var k := |q| - 1 - |r| + i;
      assert r[i].job == q[1..][k].job;
    }
  }

  lemma {:induction false} DrainKeeps(q: Queue, elapsed: int)
    requires Lasting(q)
    ensures Lasting(Drain(q, elapsed)) && LastOf(Drain(q, elapsed), q)
  {
    if elapsed > 0 && q != [] && q[0].time <= elapsed {
      DrainKeeps(q[1..], elapsed - q[0].time);
      LastOfRest(Drain(q[1..], elapsed - q[0].time), q);
    }
  }

  lemma DrainSorted(q: Queue, elapsed: int)
    requires Sorted(q) && Lasting(q)
    ensures Sorted(Drain(q, elapsed)) && Lasting(Drain(q, elapsed))
  {
    DrainKeeps(q, elapsed);
    var r := Drain(q, elapsed);
    forall i, j | 0 <= i < j < |r| ensures Before(r[i].job, r[j].job) {
      assert r[i].job == q[|q| - |r| + i].job && r[j].job == q[|q| - |r| + j].job;
    }
  }

  lemma {:induction false} NoneAhead(q: Queue, j: Job, own: bool)
    requires Sorted(q) && (q != [] ==> !Counts(q[0].job, j, own))
    ensures Ahead(q, j, own) == 0
  {
    if |q| > 1 {
      assert Before(q[0].job, q[1].job);
      NoneAhead(q[1..], j, own);
    }
  }

  lemma {:induction false} AheadLasts(q: Queue, j: Job)
    requires Lasting(q)
    ensures 0 <= Ahead(q, j, false) <= Ahead(q, j, true)
  {
    if q != [] {
      AheadLasts(q[1..], j);
    }
  }

  /** What lies ahead of an instance goes down by the time elapsed, to nothing. */
  lemma {:induction false} DrainAhead(q: Queue, elapsed: nat, j: Job, own: bool)
    requires Sorted(q) && Lasting(q)
    ensures Ahead(Drain(q, elapsed), j, own) == Max0(Ahead(q, j, own) - elapsed)
  {
    AheadLasts(q, j);
    if elapsed > 0 && q != [] {
      if !Counts(q[0].job, j, own) {
        NoneAhead(q, j, own);
        DrainSorted(q, elapsed);
        DrainKeeps(q, elapsed);
        var r := Drain(q, elapsed);
        if r != [] {
          var k := |q| - |r|;
          assert r[0].job == q[k].job;
          assert k > 0 ==> Before(q[0].job, q[k].job);
        }
        NoneAhead(r, j, own);
      } else if q[0].time <= elapsed {
        DrainAhead(q[1..], elapsed - q[0].time, j, own);
        AheadLasts(q[1..], j);
      } else {
        AheadLasts(q[1..], j);
      }
    }
  }

  /** Draining to one time then to a later one is draining to the later one. */
  lemma {:induction false} DrainTwice(q: Queue, first: nat, second: nat)
    requires Lasting(q)
    ensures Drain(Drain(q, first), second) == Drain(q, first + second)
  {
    if first > 0 && q != [] && q[0].time <= first {
      DrainTwice(q[1..], first - q[0].time, second);
    }
  }

  /** An earlier instance has no more ahead of it, its own time included, than a later one
      has without its own. */
  lemma {:induction false} AheadRises(q: Queue, i: Job, j: Job)
    requires Lasting(q) && Before(i, j)
    ensures Ahead(q, i, true) <= Ahead(q, j, false)
  {
    if q != [] {
      AheadRises(q[1..], i, j);
    }
  }
}
