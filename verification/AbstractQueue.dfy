/** The bounded queue with an optional SIGNAL that the announced-operation FIFO implements:
    its sequential meaning, and what every sequence of its operations keeps. */
module AbstractQueue {

  /** What an array entry holds: nothing, the SIGNAL marker, or an item. */
  datatype Cell = Null | Signal | Item(id: int)

  datatype Op = Enqueue(item: int) | Dequeue

  /** The queue an observer sees between two operations. */
  datatype Queue = Queue(items: seq<int>, signalled: bool)

  const EMPTY := Queue([], false)

  /** An operation that took effect: who asked for it, and the cell it found. */
  datatype Entry<+Caller> = Entry(caller: Caller, op: Op, found: Cell)

  /** The cell an operation finds: the oldest item for a dequeue, the place of the next
      item for an enqueue. In a full queue that place holds the oldest item. */
  function Found(q: Queue, length: nat, op: Op): Cell {
    if q.signalled then Signal
    else if q.items != [] && (op.Dequeue? || |q.items| >= length) then Item(q.items[0])
    else Null
  }

  /** The effect of one operation. An enqueue takes a waiting SIGNAL instead of inserting,
      and inserts nothing in a full queue; a dequeue that finds nothing leaves the marker
      the queue is used with. */
  function Apply(q: Queue, length: nat, marker: Cell, op: Op): Queue {
    match op
    case Enqueue(x) =>
      if q.signalled then q.(signalled := false)
      else if |q.items| >= length then q
      else q.(items := q.items + [x])
    case Dequeue =>
      if q.items != [] then q.(items := q.items[1..])
      else q.(signalled := marker == Signal)
  }

  /** Entry k of a log found what the entries before it had left, and left what it says;
      its caller has no other. `history` holds the queue before and after each entry. */
  ghost predicate Follows<C>(history: seq<Queue>, length: nat, marker: Cell,
                             log: seq<Entry<C>>, place: map<C, nat>, k: nat)
    requires k < |log| && |history| == |log| + 1
  {
    && log[k].found == Found(history[k], length, log[k].op)
    && history[k + 1] == Apply(history[k], length, marker, log[k].op)
    && log[k].caller in place && place[log[k].caller] == k
  }

  /** A log of operations, oldest first, that the queue can have gone through. */
  ghost predicate Legal<C>(history: seq<Queue>, length: nat, marker: Cell,
                           log: seq<Entry<C>>, place: map<C, nat>)
  {
    && |history| == |log| + 1
    && forall k: nat {:trigger Follows(history, length, marker, log, place, k)} ::
         k < |log| ==> Follows(history, length, marker, log, place, k)
  }

  lemma LegalAppend<C>(history: seq<Queue>, length: nat, marker: Cell,
                       log: seq<Entry<C>>, place: map<C, nat>, e: Entry<C>)
    requires Legal(history, length, marker, log, place)
    requires e.found == Found(history[|log|], length, e.op) && e.caller !in place
    ensures Legal(history + [Apply(history[|log|], length, marker, e.op)], length, marker,
                  log + [e], place[e.caller := |log|])
  {
    var history' := history + [Apply(history[|log|], length, marker, e.op)];
    var log', place' := log + [e], place[e.caller := |log|];
    forall k: nat | k < |log'|
      ensures Follows(history', length, marker, log', place', k)
    {
      if k < |log| {
        assert Follows(history, length, marker, log, place, k);
      }
    }
  }

  /** No caller appears twice in a legal log: every operation takes effect at most once. */
  lemma LegalCallersDiffer<C>(history: seq<Queue>, length: nat, marker: Cell,
                              log: seq<Entry<C>>, place: map<C, nat>)
    requires Legal(history, length, marker, log, place)
    ensures forall j, k :: 0 <= j < k < |log| ==> log[j].caller != log[k].caller
  {
    forall j, k | 0 <= j < k < |log|
      ensures log[j].caller != log[k].caller
    {
      assert Follows(history, length, marker, log, place, j);
      assert Follows(history, length, marker, log, place, k);
    }
  }

  ghost function ItemIn(op: Op, found: Cell): seq<int> {
    if op.Enqueue? && found == Null then [op.item] else []
  }

  ghost function ItemOut(op: Op, found: Cell): seq<int> {
    if op.Dequeue? && found.Item? then [found.id] else []
  }

  /** The items enqueued, in order, those a full queue or a SIGNAL turned away left out. */
  ghost function Accepted<C>(log: seq<Entry<C>>): seq<int> {
    if log == [] then []
    else
      var e := log[|log| - 1];
      Accepted(log[..|log| - 1]) + ItemIn(e.op, e.found)
  }

  /** The items dequeued, in order. */
  ghost function Delivered<C>(log: seq<Entry<C>>): seq<int> {
    if log == [] then []
    else
      var e := log[|log| - 1];
      Delivered(log[..|log| - 1]) + ItemOut(e.op, e.found)
  }

  /** The signals that found no waiting task and no signal, less those an enqueue took. */
  ghost function SignalsPending<C>(log: seq<Entry<C>>): int {
    if log == [] then 0
    else
      var e := log[|log| - 1];
      SignalsPending(log[..|log| - 1]) +
      if e.op.Dequeue? && e.found == Null then 1
      else if e.op.Enqueue? && e.found == Signal then -1 else 0
  }

  lemma OneInOneOut(q: Queue, length: nat, marker: Cell, op: Op)
    requires 0 < length && |q.items| <= length && (q.signalled ==> q.items == [])
    ensures var found := Found(q, length, op);
            q.items + ItemIn(op, found) == ItemOut(op, found) + Apply(q, length, marker, op).items
  {
  }

  lemma Regroup(s: seq<int>, a: seq<int>, more: seq<int>,
                d: seq<int>, b: seq<int>, out: seq<int>, t: seq<int>)
    requires s + a == d + b && b + more == out + t
    ensures s + (a + more) == (d + out) + t
  {
    assert s + (a + more) == (d + b) + more;
    assert (d + b) + more == d + (out + t);
  }

  /** First in, first out, none lost, none twice: whatever the operations, the items that
      were there and those accepted since are those delivered, then those still there. */
  lemma {:induction false} FirstInFirstOut<C>(history: seq<Queue>, length: nat, marker: Cell,
                                              log: seq<Entry<C>>, place: map<C, nat>, k: nat)
    requires Legal(history, length, marker, log, place) && k <= |log|
    requires 0 < length && |history[0].items| <= length && (history[0].signalled ==> history[0].items == [])
    ensures history[0].items + Accepted(log[..k]) == Delivered(log[..k]) + history[k].items
    ensures |history[k].items| <= length
    ensures history[k].signalled ==> history[k].items == []
  {
    if k == 0 {
    } else {
      FirstInFirstOut(history, length, marker, log, place, k - 1);
      assert Follows(history, length, marker, log, place, k - 1);
      assert log[..k][..k - 1] == log[..k - 1];
      var start, before, after := history[0].items, history[k - 1].items, history[k].items;
      var accepted, delivered := Accepted(log[..k - 1]), Delivered(log[..k - 1]);
      var e := log[k - 1];
      OneInOneOut(history[k - 1], length, marker, e.op);
      Regroup(start, accepted, ItemIn(e.op, e.found), delivered, before, ItemOut(e.op, e.found), after);
    }
  }

  /** No signal of an event is lost: each one woke a task, found a signal pending, or was
      left pending until a task took it, and one at most is pending. */
  lemma {:induction false} SignalsConserved<C>(history: seq<Queue>, length: nat,
                                               log: seq<Entry<C>>, place: map<C, nat>, k: nat)
    requires Legal(history, length, Signal, log, place) && k <= |log|
    requires 0 < length && history[0] == EMPTY
    ensures SignalsPending(log[..k]) == if history[k].signalled then 1 else 0
  {
    if k == 0 {
    } else {
      SignalsConserved(history, length, log, place, k - 1);
      FirstInFirstOut(history, length, Signal, log, place, k - 1);
      assert Follows(history, length, Signal, log, place, k - 1);
      assert log[..k][..k - 1] == log[..k - 1];
    }
  }

  /** The pool of nodes has no signals. */
  lemma {:induction false} NoSignal<C>(history: seq<Queue>, length: nat, log: seq<Entry<C>>, place: map<C, nat>, k: nat)
    requires Legal(history, length, Null, log, place) && k <= |log| && !history[0].signalled
    ensures !history[k].signalled
  {
    if k > 0 {
      NoSignal(history, length, log, place, k - 1);
      assert Follows(history, length, Null, log, place, k - 1);
    }
  }

  /** What an operation must find, from the operations before it alone: `all` the items there ever
      were, the first `out` of them delivered, and whether a signal is pending. */
  function Expected(all: seq<int>, out: nat, pending: bool, length: nat, op: Op): Cell
    requires out <= |all| && 0 < length
  {
    if pending then Signal
    else match op
         case Dequeue => if out < |all| then Item(all[out]) else Null
         case Enqueue(_) => if |all| - out < length then Null else Item(all[out])
  }

  lemma FoundIs(q: Queue, length: nat, op: Op, all: seq<int>, out: nat)
    requires out <= |all| && q.items == all[out..] && (q.signalled ==> q.items == []) && 0 < length
    ensures Found(q, length, op) == Expected(all, out, q.signalled, length, op)
  {
  }

  lemma SameEnd(all: seq<int>, delivered: seq<int>, left: seq<int>)
    requires all == delivered + left
    ensures |delivered| <= |all| && all[|delivered|..] == left
  {
  }

  /** Every answer is determined by the operations before: the oldest item not delivered, refused
      only by a full queue, the SIGNAL exactly while one is pending. */
  lemma AnswersAre<C>(history: seq<Queue>, length: nat, marker: Cell, log: seq<Entry<C>>, place: map<C, nat>, k: nat)
    requires Legal(history, length, marker, log, place) && k < |log| && 0 < length
    requires marker == Null || marker == Signal
    requires if marker == Signal then history[0] == EMPTY
             else |history[0].items| <= length && !history[0].signalled
    ensures var all, out := history[0].items + Accepted(log[..k]), |Delivered(log[..k])|;
      && out <= |all|
      && log[k].found
         == Expected(all, out, marker == Signal && SignalsPending(log[..k]) > 0, length, log[k].op)
  {
    FirstInFirstOut(history, length, marker, log, place, k);
    assert Follows(history, length, marker, log, place, k);
    if marker == Signal {
      SignalsConserved(history, length, log, place, k);
    } else {
      NoSignal(history, length, log, place, k);
    }
    var all, delivered := history[0].items + Accepted(log[..k]), Delivered(log[..k]);
    SameEnd(all, delivered, history[k].items);
    FoundIs(history[k], length, log[k].op, all, |delivered|);
  }
}
