/** The array-based FIFO queue of the kernels, on one core: an operation is announced
    before it is done, and a caller that preempts it completes it first.

    Every access to shared memory is preceded by Preempt, in which any number of whole
    operations may run, each itself preempted at its own accesses: the calls in progress
    are the stack of frames of the core, of which only the top one makes a step. */
module AnnouncedFifo {
  import opened AbstractQueue
  import opened Arith
  import opened Common
  import FifoIndex

  lemma SlotsDiffer(i: nat, j: nat, n: nat)
    requires 0 < n && i < j < i + n
    ensures i % n != j % n
  {
    var r := i % n + (j - i);
    if r < n {
      DivModUnique(j, n, i / n, r);
    } else {
      DivModUnique(j, n, i / n + 1, r - n);
    }
  }

  lemma SlotRepeats(i: nat, n: nat)
    requires 0 < n
    ensures (i + n) % n == i % n
  {
    DivModUnique(i + n, n, i / n + 1, i % n);
  }

  lemma LapRepeats(i: nat, lap: nat, n: nat)
    requires 0 < n && lap % n == 0
    ensures (i + lap) % n == i % n
  {
    assert lap == lap / n * n;
    DivModUnique(i + lap, n, i / n + lap / n, i % n);
  }

  /** What the array holds at an index, the oldest item at `first`. */
  ghost function Content(q: Queue, first: nat, k: nat): Cell
    requires first <= k
  {
    if k - first < |q.items| then Item(q.items[k - first])
    else if k - first == |q.items| && q.signalled then Signal
    else Null
  }

  ghost predicate Holds(cells: seq<Cell>, q: Queue, first: nat)
    requires |cells| > 0
  {
    && |q.items| <= |cells|
    && (q.signalled ==> q.items == [])
    && forall k: nat {:trigger Content(q, first, k)} :: first <= k < first + |cells| ==>
         cells[k % |cells|] == Content(q, first, k)
  }

  /** The array entry an operation looks at. */
  ghost function Place(q: Queue, first: nat, op: Op): nat {
    if op.Dequeue? then first else first + |q.items|
  }

  lemma PlaceHoldsFound(cells: seq<Cell>, q: Queue, first: nat, op: Op)
    requires |cells| > 0 && Holds(cells, q, first)
    ensures cells[Place(q, first, op) % |cells|] == Found(q, |cells|, op)
  {
    var place := Place(q, first, op);
    if place == first + |cells| {
      SlotRepeats(first, |cells|);
      assert cells[first % |cells|] == Content(q, first, first);
    } else {
      assert cells[place % |cells|] == Content(q, first, place);
    }
  }

  /** One store into the place of an operation is its whole effect on the array. */
  lemma StoreApplies(cells: seq<Cell>, q: Queue, first: nat, marker: Cell, op: Op, store: Cell)
    requires |cells| > 0 && Holds(cells, q, first)
    requires var found := Found(q, |cells|, op);
             match op
             case Enqueue(x) =>
               (found == Null && store == Item(x)) || (found == Signal && store == Null)
             case Dequeue =>
               (found == Null && marker == Signal && store == Signal) || (found.Item? && store == Null)
    ensures Holds(cells[Place(q, first, op) % |cells| := store], Apply(q, |cells|, marker, op),
                  if op.Dequeue? && Found(q, |cells|, op).Item? then first + 1 else first)
  {
    var n, place := |cells|, Place(q, first, op);
    var next := cells[place % n := store];
    var q' := Apply(q, n, marker, op);
    var first' := if op.Dequeue? && Found(q, n, op).Item? then first + 1 else first;
    forall k: nat | first' <= k < first' + n
      ensures next[k % n] == Content(q', first', k)
    {
      if k == first + n {
        SlotRepeats(first, n);
      } else if k < place {
        assert cells[k % n] == Content(q, first, k);
        SlotsDiffer(k, place, n);
      } else if place < k {
        assert cells[k % n] == Content(q, first, k);
        SlotsDiffer(place, k, n);
      }
    }
  }

  /** An operation in progress, on the stack of its caller. None stands for the markers of
      a field not yet written: index 0xFFFFFFFF, or the descriptor's own address. */
  class Descriptor {
    const op: Op
    var indexPropose: Option<nat>
    var index: Option<nat>
    var slotPropose: Option<Cell>
    var slotReturn: Option<Cell>
    var done: bool

    constructor (op: Op)
      ensures View() == Fields(op, None, None, None, None, false)
    {
      this.op := op;
      indexPropose, index, slotPropose, slotReturn, done := None, None, None, None, false;
    }

    function View(): Fields reads this {
      Fields(op, indexPropose, index, slotPropose, slotReturn, done)
    }
  }

  datatype Fields = Fields(
    op: Op, indexPropose: Option<nat>, index: Option<nat>,
    slotPropose: Option<Cell>, slotReturn: Option<Cell>, done: bool)

  /** The shared memory of the queue, with what it means: the log of its operations, the
      queue each left and the place of each caller, the index of its oldest item, and how
      far the tail counts behind. */
  datatype Memory = Memory(
    marker: Cell, cells: seq<Cell>, head: nat, tail: nat, arrivals: nat,
    log: seq<Entry<Descriptor>>, history: seq<Queue>, place: map<Descriptor, nat>,
    abs: Queue, first: nat, lap: nat)
  {
    ghost function Last(): nat { first + |abs.items| }

    ghost function FoundBy(op: Op): Cell { Found(abs, |cells|, op) }

    ghost function IndexFor(op: Op): nat { if op.Dequeue? then head else tail }
  }

  /** Finding this cell is all the operation does. */
  predicate Decisive(marker: Cell, d: Fields) {
    && d.slotReturn.Some?
    && if d.op.Dequeue? then d.slotReturn.value == marker else d.slotReturn.value.Item?
  }

  predicate Removes(d: Fields) {
    d.op.Dequeue? && d.slotReturn.Some? && d.slotReturn.value.Item?
  }

  predicate Inserts(d: Fields) {
    d.op.Enqueue? && d.slotReturn == Some(Null)
  }

  ghost predicate Logged(m: Memory, r: Descriptor, d: Fields) {
    && r in m.place && d.index.Some? && d.slotReturn.Some?
    && m.place[r] < |m.log| && m.log[m.place[r]] == Entry(r, d.op, d.slotReturn.value)
  }

  /** Nothing is left to do of the operation, and nothing a frame still does for it
      changes the queue. */
  ghost predicate Finished(m: Memory, r: Descriptor, d: Fields) {
    && Logged(m, r, d)
    && (Decisive(m.marker, d) || d.done)
    && (Removes(d) ==> d.index.value < m.first)
    && (Inserts(d) ==> d.index.value + m.lap < m.Last())
  }

  /** Announced and not yet applied: what is written of it agrees with the queue. */
  ghost predicate NotApplied(m: Memory, r: Descriptor, d: Fields) {
    && m.head == m.first && m.tail + m.lap == m.Last()
    && !d.done && r !in m.place
    && (d.index.Some? ==> d.indexPropose.Some? && d.index.value == m.IndexFor(d.op))
    && (d.index.None? && d.indexPropose.Some? ==> d.indexPropose.value == m.IndexFor(d.op))
    && (d.slotPropose.Some? ==> d.index.Some?)
    && (d.slotReturn.Some? ==>
          d.slotPropose.Some? && d.slotReturn.value == m.FoundBy(d.op) && !Decisive(m.marker, d))
    && (d.slotPropose.Some? && d.slotReturn.None? ==> d.slotPropose.value == m.FoundBy(d.op))
  }

  /** Announced and applied: the index may lag behind the array. */
  ghost predicate JustApplied(m: Memory, r: Descriptor, d: Fields) {
    && Logged(m, r, d) && m.place[r] == |m.log| - 1
    && (m.head == m.first || (Removes(d) && m.head + 1 == m.first && !d.done))
    && (m.tail + m.lap == m.Last() || (Inserts(d) && m.tail + m.lap + 1 == m.Last() && !d.done))
    && (Removes(d) ==> d.index.value + 1 == m.first && !m.abs.signalled && |m.abs.items| < |m.cells|)
    && (Inserts(d) ==> d.index.value + m.lap + 1 == m.Last() && m.abs.items != [])
    && (d.op.Dequeue? && d.slotReturn.value == Null && m.marker == Signal ==>
          m.abs.signalled && d.index.value == m.first)
    && (d.slotReturn.value == Signal ==> m.marker == Signal)
    && (d.op.Enqueue? && d.slotReturn.value == Signal ==>
          !m.abs.signalled && m.abs.items == [] && d.index.value + m.lap == m.first)
  }

  /** The array holds the queue the log has led to. */
  ghost predicate Consistent(m: Memory) {
    && |m.cells| > 0
    && (m.marker == Null || m.marker == Signal)
    && m.lap % |m.cells| == 0
    && Holds(m.cells, m.abs, m.first)
    && (m.abs.signalled ==> m.marker == Signal)
    && Legal(m.history, |m.cells|, m.marker, m.log, m.place)
    && m.abs == m.history[|m.log|]
  }

  ghost predicate Settled(m: Memory) {
    m.head == m.first && m.tail + m.lap == m.Last()
  }

  ghost predicate Announced(m: Memory, r: Descriptor, d: Fields) {
    if r in m.place then JustApplied(m, r, d) else NotApplied(m, r, d)
  }

  /** The queue only moves forward. */
  ghost predicate Forward(was: Memory, now: Memory) {
    && was.log <= now.log && was.history <= now.history
    && was.first <= now.first && was.Last() <= now.Last()
    && (forall r :: r in was.place ==> r in now.place && now.place[r] == was.place[r])
    && |now.cells| == |was.cells| && now.marker == was.marker && now.lap == was.lap
    && now.arrivals <= was.arrivals
  }

  /** A field of a descriptor, once written, keeps its value, and a value proposed is the
      one committed. */
  ghost predicate Kept(was: Fields, now: Fields) {
    && now.op == was.op
    && (was.indexPropose.Some? ==> now.indexPropose == was.indexPropose)
    && (was.index.Some? ==> now.index == was.index)
    && (was.slotPropose.Some? ==> now.slotPropose == was.slotPropose)
    && (was.slotReturn.Some? ==> now.slotReturn == was.slotReturn)
    && (was.indexPropose.Some? && was.index.None? && now.index.Some? ==> now.index == was.indexPropose)
    && (was.slotPropose.Some? && was.slotReturn.None? && now.slotReturn.Some? ==> now.slotReturn == was.slotPropose)
    && (was.done ==> now.done)
  }

  /** What a dequeue finds at its index tells how far it has got. */
  lemma DequeueSlotTells(m: Memory, r: Descriptor, d: Fields)
    requires Consistent(m) && Announced(m, r, d)
    requires d.op.Dequeue? && d.index.Some? && d.slotReturn.Some? && !Decisive(m.marker, d)
    ensures match m.cells[d.index.value % |m.cells|]
            case Signal => r in m.place && d.slotReturn.value == Null
            case Null => if d.slotReturn.value == Null then r !in m.place && m.marker == Signal
                         else r in m.place && Removes(d)
            case Item(_) => r !in m.place
    ensures r !in m.place ==> m.cells[d.index.value % |m.cells|] == m.FoundBy(d.op)
  {
    var n := |m.cells|;
    if r !in m.place {
      PlaceHoldsFound(m.cells, m.abs, m.first, d.op);
    } else if Removes(d) {
      var k := d.index.value + n;
      SlotRepeats(d.index.value, n);
      assert m.cells[k % n] == Content(m.abs, m.first, k);
    } else {
      assert m.cells[m.first % n] == Content(m.abs, m.first, m.first);
    }
  }

  /** The same for an enqueue. */
  lemma EnqueueSlotTells(m: Memory, r: Descriptor, d: Fields)
    requires Consistent(m) && Announced(m, r, d)
    requires d.op.Enqueue? && d.index.Some? && d.slotReturn.Some? && !Decisive(m.marker, d)
    ensures match m.cells[d.index.value % |m.cells|]
            case Signal => r !in m.place
            case Null => if d.slotReturn.value == Signal then r in m.place else r !in m.place
            case Item(_) => r in m.place && Inserts(d)
    ensures r !in m.place ==> m.cells[d.index.value % |m.cells|] == m.FoundBy(d.op)
  {
    var n := |m.cells|;
    var k := d.index.value + m.lap;
    LapRepeats(d.index.value, m.lap, n);
    if r !in m.place {
      PlaceHoldsFound(m.cells, m.abs, m.first, d.op);
    } else {
      assert m.cells[k % n] == Content(m.abs, m.first, k);
    }
  }

  /** Memory once the log records that operation r has taken effect. */
  ghost function Recorded(m: Memory, r: Descriptor, op: Op): Memory
    requires |m.history| == |m.log| + 1
  {
    var after := Apply(m.abs, |m.cells|, m.marker, op);
    m.(log := m.log + [Entry(r, op, m.FoundBy(op))], history := m.history + [after],
       place := m.place[r := |m.log|], abs := after,
       first := m.first + if op.Dequeue? && m.FoundBy(op).Item? then 1 else 0)
  }

  lemma RecordedIsLegal(m: Memory, r: Descriptor, op: Op)
    requires Consistent(m) && r !in m.place
    ensures Forward(m, Recorded(m, r, op))
    ensures var m' := Recorded(m, r, op);
            Legal(m'.history, |m.cells|, m.marker, m'.log, m'.place) && m'.abs == m'.history[|m'.log|]
  {
    LegalAppend(m.history, |m.cells|, m.marker, m.log, m.place, Entry(r, op, m.FoundBy(op)));
  }

  /** The store an SC makes, the operation recorded: the array holds the queue again. */
  ghost function Stored(m: Memory, r: Descriptor, op: Op, h: nat, c: Cell): Memory
    requires |m.history| == |m.log| + 1 && h < |m.cells|
  {
    Recorded(m, r, op).(cells := m.cells[h := c])
  }

  lemma StoredIsApplied(m: Memory, r: Descriptor, d: Fields, h: nat, c: Cell)
    requires Consistent(m) && Announced(m, r, d) && r !in m.place
    requires d.index.Some? && d.slotReturn.Some? && !Decisive(m.marker, d)
    requires h == d.index.value % |m.cells| && m.cells[h] == m.FoundBy(d.op)
    requires match d.op
             case Enqueue(x) => c == if m.cells[h] == Null then Item(x) else Null
             case Dequeue => c == (if m.cells[h] == Null then Signal else Null)
    ensures var m' := Stored(m, r, d.op, h, c);
            Consistent(m') && JustApplied(m', r, d) && Forward(m, m')
    ensures if d.op.Dequeue? == (c == Null) then Removes(d) || Inserts(d)
            else Settled(Stored(m, r, d.op, h, c))
  {
    LapRepeats(d.index.value, m.lap, |m.cells|);
    StoreApplies(m.cells, m.abs, m.first, m.marker, d.op, c);
    RecordedIsLegal(m, r, d.op);
  }

  /** On the 32-bit indices stored, `n` and `seen` the unbounded ones they stand for: the test
      that an index is still the one an operation saw, what the SC then stores, and the array
      entries named are those of the unbounded indices. */
  ghost predicate WrappedAgrees(n: nat, seen: nat, length: nat)
    requires 0 < length < 0x1_0000
  {
    var max := FifoIndex.MaxIndex(length);
    && (n % max == seen % max <==> n == seen)
    && FifoIndex.Next(seen % max, length) == (seen + 1) % max
    && (seen % max) % length == seen % length && (n % max) % length == n % length
    && seen % max != FifoIndex.UNSET && n % max != FifoIndex.UNSET
  }

  /** An operation that moves an index sees it where it was or further on; as long as it is
      less than a whole turn further on, the 32-bit code does what the unbounded one does. */
  lemma WrappedAdvance(m: Memory, r: Descriptor, d: Fields)
    requires 0 < |m.cells| < 0x1_0000
    requires (r in m.place && Announced(m, r, d)) || (Settled(m) && Finished(m, r, d))
    requires Removes(d) || Inserts(d)
    ensures d.index.value <= m.IndexFor(d.op)
    ensures m.IndexFor(d.op) < d.index.value + FifoIndex.MaxIndex(|m.cells|) ==>
              WrappedAgrees(m.IndexFor(d.op), d.index.value, |m.cells|)
  {
    FifoIndex.WrappedIndex(m.IndexFor(d.op), d.index.value, |m.cells|);
    FifoIndex.WrappedIndex(d.index.value, d.index.value, |m.cells|);
  }

  lemma ForwardTransitive(a: Memory, b: Memory, c: Memory)
    requires Forward(a, b) && Forward(b, c)
    ensures Forward(a, c)
  {
  }

  lemma KeptTransitive(a: Fields, b: Fields, c: Fields)
    requires Kept(a, b) && Kept(b, c)
    ensures Kept(a, c)
  {
  }

  /** What FIFOEnqueue or FIFODequeue returns. */
  datatype Answer = Told(yes: bool) | Got(item: Cell)

  class FifoQueue {
    const marker: Cell            // Null, or Signal for the queue of an event
    var cells: seq<Cell>
    var head: nat
    var tail: nat
    var pending: Descriptor?      // the announced operation
    var reserved: bool            // the reservation an LL raises
    var arrivals: nat             // operations still to preempt the ones in progress
    ghost var log: seq<Entry<Descriptor>>
    ghost var history: seq<Queue>
    ghost var place: map<Descriptor, nat>
    ghost var abs: Queue
    ghost var first: nat
    ghost const lap: nat

    /** The queue of an event, and OSInitFIFOQueue's: empty. */
    constructor (length: nat, marker: Cell, arrivals: nat)
      requires length > 0 && (marker == Null || marker == Signal)
      ensures Started(EMPTY) && pending == null && log == []
      ensures this.marker == marker && |cells| == length && this.arrivals == arrivals
    {
      this.marker, cells, this.arrivals := marker, seq(length, _ => Null), arrivals;
      head, tail, pending, reserved := 0, 0, null, false;
      log, history, place, abs, first, lap := [], [EMPTY], map[], EMPTY, 0, 0;
    }

    /** OSInitFIFOQueue's pool of free nodes: full, Head and Tail at 0 as they are when empty. */
    constructor Full(nodes: seq<int>, arrivals: nat)
      requires nodes != []
      ensures Started(Queue(nodes, false)) && pending == null && log == []
      ensures marker == Null && |cells| == |nodes| && this.arrivals == arrivals
    {
      marker, this.arrivals := Null, arrivals;
      cells := seq(|nodes|, i requires 0 <= i < |nodes| => Item(nodes[i]));
      head, tail, pending, reserved := 0, 0, null, false;
      log, history, place := [], [Queue(nodes, false)], map[];
      abs, first, lap := Queue(nodes, false), 0, |nodes|;
      new;
      assert lap % |cells| == 0;
      forall k: nat {:trigger Content(abs, first, k)} | first <= k < first + |cells|
        ensures cells[k % |cells|] == Content(abs, first, k)
      {
        DivModUnique(k, |cells|, 0, k);
      }
    }

    /** In a state its operations lead to from the queue `start`. */
    ghost predicate Started(start: Queue) reads this, pending {
      && Inv() && history[0] == start
      && |start.items| <= |cells| && (start.signalled ==> start.items == [])
    }

    ghost function View(): Memory reads this {
      Memory(marker, cells, head, tail, arrivals, log, history, place, abs, first, lap)
    }

    ghost predicate Inv() reads this, pending {
      && Consistent(View())
      && (pending == null ==> Settled(View()))
      && (pending != null ==> Announced(View(), pending, pending.View()))
    }

    /** Operation d is announced. */
    ghost predicate Alone(d: Descriptor) reads this, d {
      pending == d && Consistent(View()) && Announced(View(), d, d.View())
    }

    /** Operation d is finished, and none is announced: others finished it. */
    ghost predicate Overtaken(d: Descriptor) reads this, d {
      pending == null && Consistent(View()) && Settled(View()) && Finished(View(), d, d.View())
    }

    /** What a frame helping an operation can count on. */
    ghost predicate Helping(d: Descriptor) reads this, d {
      Alone(d) || Overtaken(d)
    }

    ghost predicate Since(d: Descriptor, v: Memory, f: Fields) reads this, d {
      Forward(v, View()) && Kept(f, d.View())
    }

    /** Nothing has happened since memory was v and the descriptor f, or others have
        finished the operation. */
    ghost predicate Tracks(d: Descriptor, v: Memory, f: Fields) reads this, d {
      (Alone(d) && View() == v && d.View() == f) || (Overtaken(d) && Since(d, v, f))
    }

    /** The announced operation finished, none announced, since memory was v. */
    ghost predicate Cleared(d: Descriptor?, v: Memory, f: Fields) reads this, d {
      && pending == null && !reserved && Consistent(View()) && Settled(View()) && Forward(v, View())
      && (d != null ==> Finished(View(), d, d.View()) && Kept(f, d.View()))
    }

    /** Between two accesses of a frame, any number of whole operations. One alone
        completes the operation announced, and takes the reservation away. */
    method Preempt(ghost v: Memory, ghost f: Fields)
      requires Inv() && View() == v && (pending != null ==> pending.View() == f)
      modifies this, pending
      ensures Inv()
      ensures (Cleared(old(pending), v, f) && arrivals < old(arrivals)) ||
              (View() == v && pending == old(pending) && reserved == old(reserved) &&
                (pending != null ==> pending.View() == f))
      decreases arrivals, 1
    {
      if arrivals > 0 {
        if * {
          PreemptingOperation(v, f);
          ghost var d := old(pending);
          while arrivals > 0
            invariant Cleared(d, v, f) && arrivals < old(arrivals)
            decreases arrivals
          {
            if * { break; }
            ghost var w := View();
            PreemptingOperation(w, f);
            ForwardTransitive(v, w, View());
          }
        }
      }
    }

    method PreemptingOperation(ghost v: Memory, ghost f: Fields)
      requires Inv() && arrivals > 0 && View() == v && (pending != null ==> pending.View() == f)
      modifies this, pending
      ensures Cleared(old(pending), v, f) && arrivals < old(arrivals)
      decreases arrivals, 0
    {
      arrivals := arrivals - 1;
      ghost var w := View();
      if * {
        var item: int := *;
        var answer, _, _ := Enqueue(item, w, f);
      } else {
        var item, _, _ := Dequeue(w, f);
      }
      ForwardTransitive(v, w, View());
    }

    /** Preempt, as a frame helping an operation sees it. */
    method Interrupted(d: Descriptor, ghost v: Memory, ghost f: Fields)
      requires Tracks(d, v, f)
      modifies this, d
      ensures Tracks(d, v, f)
      ensures old(Overtaken(d)) ==> Overtaken(d)
      ensures old(Alone(d)) && Overtaken(d) ==> !reserved && arrivals < old(arrivals)
      ensures Alone(d) ==> reserved == old(reserved)
      ensures Overtaken(d) && !old(reserved) ==> !reserved
      ensures arrivals <= old(arrivals)
      decreases arrivals, 2
    {
      ghost var w := View();
      Preempt(w, d.View());
      ForwardTransitive(v, w, View());
    }

    lemma Rebase(d: Descriptor, v0: Memory, f0: Fields, v: Memory, f: Fields)
      requires Forward(v0, v) && Kept(f0, f) && Since(d, v, f)
      ensures Since(d, v0, f0)
    {
      ForwardTransitive(v0, v, View());
      KeptTransitive(f0, f, d.View());
    }

    /** The operation takes effect: the log records what it found. */
    ghost method Record(d: Descriptor)
      requires |history| == |log| + 1
      modifies this`log, this`history, this`place, this`abs, this`first
      ensures View() == Recorded(old(View()), d, d.op)
    {
      var m := Recorded(View(), d, d.op);
      log, history, place, abs, first := m.log, m.history, m.place, m.abs, m.first;
    }

    method StoreIndexPropose(d: Descriptor, i: nat, ghost v: Memory, ghost f: Fields)
      requires Tracks(d, v, f) && f.indexPropose.None?
      requires Alone(d) ==> i == v.IndexFor(d.op)
      modifies d
      ensures Helping(d) && Since(d, v, f) && d.indexPropose.Some?
    {
      d.indexPropose := Some(i);
    }

    method ProposeIndex(d: Descriptor, ghost v0: Memory, ghost f0: Fields)
      requires Helping(d) && Since(d, v0, f0)
      modifies this, d
      ensures Helping(d) && Since(d, v0, f0) && d.indexPropose.Some?
      ensures arrivals <= old(arrivals)
      decreases arrivals, 3
    {
      ghost var v, f := View(), d.View();
      Interrupted(d, v, f);
      if d.indexPropose.None? {
        Interrupted(d, v, f);
        var i := if d.op.Dequeue? then head else tail;
        Interrupted(d, v, f);
        StoreIndexPropose(d, i, v, f);
      }
      Rebase(d, v0, f0, v, f);
    }

    method StoreIndex(d: Descriptor, i: nat, ghost v: Memory, ghost f: Fields)
      requires Tracks(d, v, f) && f.index.None? && f.indexPropose == Some(i)
      modifies d
      ensures Helping(d) && Since(d, v, f) && d.index.Some?
    {
      d.index := Some(i);
    }

    method CommitIndex(d: Descriptor, ghost v0: Memory, ghost f0: Fields)
      requires Helping(d) && Since(d, v0, f0) && d.indexPropose.Some?
      modifies this, d
      ensures Helping(d) && Since(d, v0, f0) && d.index.Some?
      ensures arrivals <= old(arrivals)
      decreases arrivals, 3
    {
      ghost var v, f := View(), d.View();
      Interrupted(d, v, f);
      if d.index.None? {
        Interrupted(d, v, f);
        var i := d.indexPropose.value;
        Interrupted(d, v, f);
        StoreIndex(d, i, v, f);
      }
      Rebase(d, v0, f0, v, f);
    }

    method StoreSlotPropose(d: Descriptor, c: Cell, ghost v: Memory, ghost f: Fields)
      requires Tracks(d, v, f) && f.slotPropose.None? && f.index.Some?
      requires Alone(d) ==> c == v.cells[f.index.value % |v.cells|]
      modifies d
      ensures Helping(d) && Since(d, v, f) && d.slotPropose.Some? && d.index == f.index
    {
      if pending != null && d !in place {
        PlaceHoldsFound(cells, abs, first, d.op);
        LapRepeats(d.index.value, lap, |cells|);
      }
      d.slotPropose := Some(c);
    }

    method ProposeSlot(d: Descriptor, h: nat, ghost v0: Memory, ghost f0: Fields)
      requires Helping(d) && Since(d, v0, f0) && d.index.Some? && h == d.index.value % |cells|
      modifies this, d
      ensures Helping(d) && Since(d, v0, f0) && d.slotPropose.Some? && d.index == old(d.index)
      ensures arrivals <= old(arrivals)
      decreases arrivals, 3
    {
      ghost var v, f := View(), d.View();
      Interrupted(d, v, f);
      if d.slotPropose.None? {
        Interrupted(d, v, f);
        var c := cells[h];
        Interrupted(d, v, f);
        StoreSlotPropose(d, c, v, f);
      }
      Rebase(d, v0, f0, v, f);
    }

    method StoreSlotReturn(d: Descriptor, c: Cell, ghost v: Memory, ghost f: Fields)
      requires Tracks(d, v, f) && f.slotReturn.None? && f.slotPropose == Some(c) && f.index.Some?
      modifies this, d
      ensures Helping(d) && Since(d, v, f) && d.slotReturn.Some? && d.index == f.index
      ensures arrivals == old(arrivals)
    {
      d.slotReturn := Some(c);
      if pending != null && Decisive(marker, d.View()) {
        RecordedIsLegal(View(), d, d.op);
        Record(d);
      }
    }

    method CommitSlot(d: Descriptor, ghost v0: Memory, ghost f0: Fields)
      requires Helping(d) && Since(d, v0, f0) && d.index.Some? && d.slotPropose.Some?
      modifies this, d
      ensures Helping(d) && Since(d, v0, f0) && d.slotReturn.Some? && d.index == old(d.index)
      ensures arrivals <= old(arrivals)
      decreases arrivals, 3
    {
      ghost var v, f := View(), d.View();
      Interrupted(d, v, f);
      if d.slotReturn.None? {
        Interrupted(d, v, f);
        var c := d.slotPropose.value;
        Interrupted(d, v, f);
        StoreSlotReturn(d, c, v, f);
      }
      Rebase(d, v0, f0, v, f);
    }

    /** A frame marks done an operation whose effect it has seen whole. */
    method StoreDone(d: Descriptor, ghost v: Memory, ghost f: Fields)
      requires Tracks(d, v, f)
      requires Alone(d) ==> d in v.place && Settled(v)
      modifies d
      ensures Helping(d) && Since(d, v, f) && Finished(View(), d, d.View())
    {
      d.done := true;
    }

    /** LL: reads an array entry and raises the reservation. */
    method LoadLinkedCell(h: nat) returns (c: Cell)
      requires h < |cells|
      modifies this`reserved
      ensures reserved && c == cells[h] && View() == old(View())
    {
      c := cells[h];
      reserved := true;
    }

    /** SC: the store that applies the operation succeeds only if no other frame has run
        since the LL. */
    method StoreConditionalCell(d: Descriptor, h: nat, c: Cell, ghost v: Memory, ghost f: Fields)
      returns (ok: bool)
      requires Tracks(d, v, f) && reserved == Alone(d)
      requires f.index.Some? && f.slotReturn.Some? && !Decisive(v.marker, f)
      requires h == f.index.value % |v.cells| && h < |cells|
      requires Alone(d) ==> d !in v.place && v.cells[h] == v.FoundBy(f.op)
      requires Alone(d) ==>
                 match f.op
                 case Enqueue(x) => c == if v.cells[h] == Null then Item(x) else Null
                 case Dequeue => c == (if v.cells[h] == Null then Signal else Null)
      modifies this
      ensures Since(d, v, f) && arrivals == old(arrivals)
      ensures if ok then Alone(d) && d in place else Overtaken(d)
      ensures ok ==> d.View() == f && (Removes(f) || Inserts(f) || Settled(View()))
      ensures ok && d.op.Dequeue? == (c == Null) ==> Removes(f) || Inserts(f)
      ensures ok && d.op.Dequeue? != (c == Null) ==> Settled(View())
    {
      ok := reserved;
      if ok {
        StoredIsApplied(v, d, f, h, c);
        Record(d);
        cells := cells[h := c];
        reserved := false;
      }
    }

    method MarkDone(d: Descriptor, ghost v0: Memory, ghost f0: Fields)
      requires Helping(d) && Since(d, v0, f0)
      requires Alone(d) ==> d in place && Settled(View())
      modifies this, d
      ensures Helping(d) && Since(d, v0, f0) && Finished(View(), d, d.View())
      ensures arrivals <= old(arrivals)
      decreases arrivals, 3
    {
      ghost var v, f := View(), d.View();
      Interrupted(d, v, f);
      StoreDone(d, v, f);
      Rebase(d, v0, f0, v, f);
    }

    /** LL of the index an operation moves. */
    method LoadLinkedIndex(op: Op) returns (i: nat)
      modifies this`reserved
      ensures reserved && i == View().IndexFor(op) && View() == old(View())
    {
      i := if op.Dequeue? then head else tail;
      reserved := true;
    }

    /** SC of that index. */
    method StoreConditionalIndex(d: Descriptor, i: nat, ghost v: Memory, ghost f: Fields) returns (ok: bool)
      requires Tracks(d, v, f) && reserved == Alone(d)
      requires d in v.place && (Removes(f) || Inserts(f)) && f.index == Some(i) && v.IndexFor(f.op) == i
      modifies this
      ensures Since(d, v, f) && arrivals == old(arrivals) && d in place
      ensures if ok then Alone(d) && Settled(View()) else Overtaken(d)
    {
      ok := reserved;
      if ok {
        if d.op.Dequeue? {
          head := i + 1;
        } else {
          tail := i + 1;
        }
        reserved := false;
      }
    }

    /** The SC of the index seen, unless another frame comes in before it. */
    method StoreNext(d: Descriptor, i: nat, ghost v: Memory, ghost f: Fields) returns (ok: bool)
      requires Tracks(d, v, f) && reserved && Alone(d)
      requires d in v.place && (Removes(f) || Inserts(f)) && f.index == Some(i) && v.IndexFor(f.op) == i
      modifies this, d
      ensures Helping(d) && Since(d, v, f) && d in place
      ensures if ok then Alone(d) && Settled(View()) else Overtaken(d) && arrivals < old(arrivals)
      ensures arrivals <= old(arrivals)
      decreases arrivals, 3
    {
      Interrupted(d, v, f);
      ok := StoreConditionalIndex(d, i, v, f);
    }

    /** One turn of the loop that moves an index past the place of an operation. */
    method TryAdvance(d: Descriptor, ghost v0: Memory, ghost f0: Fields) returns (ended: bool)
      requires Helping(d) && Since(d, v0, f0)
      requires d in place && (Removes(d.View()) || Inserts(d.View()))
      modifies this, d
      ensures Helping(d) && Since(d, v0, f0) && d in place && Kept(old(d.View()), d.View())
      ensures ended ==> (Alone(d) ==> Settled(View()))
      ensures !ended ==> arrivals < old(arrivals)
      ensures arrivals <= old(arrivals)
      decreases arrivals, 4
    {
      ghost var v, f := View(), d.View();
      Interrupted(d, v, f);
      var i := LoadLinkedIndex(d.op);
      ended := i != d.index.value;
      AdvanceWraps(d, i);
      if !ended {
        ended := StoreNext(d, i, v, f);
      }
      Rebase(d, v0, f0, v, f);
    }

    /** The 32-bit code's test and store of the index would be as here. */
    lemma AdvanceWraps(d: Descriptor, i: nat)
      requires Helping(d) && d in place && (Removes(d.View()) || Inserts(d.View())) && i == View().IndexFor(d.op)
      ensures d.index.value <= i
      ensures |cells| < 0x1_0000 && i < d.index.value + FifoIndex.MaxIndex(|cells|) ==>
                WrappedAgrees(i, d.index.value, |cells|)
    {
      if |cells| < 0x1_0000 {
        WrappedAdvance(View(), d, d.View());
      }
    }

    /** Moves Head or Tail past the place of an operation, once whatever frames do it. */
    method AdvanceIndex(d: Descriptor, ghost v0: Memory, ghost f0: Fields)
      requires Helping(d) && Since(d, v0, f0)
      requires d in place && (Removes(d.View()) || Inserts(d.View()))
      modifies this, d
      ensures Helping(d) && Since(d, v0, f0) && d in place && (Alone(d) ==> Settled(View()))
      ensures arrivals <= old(arrivals)
      decreases arrivals, 5
    {
      var ended := false;
      while !ended
        invariant Helping(d) && Since(d, v0, f0) && d in place
        invariant Removes(d.View()) || Inserts(d.View())
        invariant ended ==> (Alone(d) ==> Settled(View()))
        invariant arrivals <= old(arrivals)
        decreases arrivals, !ended
      {
        ended := TryAdvance(d, v0, f0);
      }
    }

    /** From the LL that found the place of the operation unserved to its end, unless
        another frame came in between. */
    method ApplyAndEnd(d: Descriptor, h: nat, c: Cell, ghost v: Memory, ghost f: Fields,
                       ghost v0: Memory, ghost f0: Fields) returns (ended: bool)
      requires Tracks(d, v, f) && reserved == Alone(d) && d !in v.place
      requires Overtaken(d) ==> arrivals < v.arrivals
      requires Forward(v0, v) && Kept(f0, f)
      requires f.index.Some? && f.slotReturn.Some? && !Decisive(v.marker, f)
      requires h == f.index.value % |v.cells| && h < |cells| && v.cells[h] == v.FoundBy(f.op)
      requires match f.op
               case Enqueue(x) => c == if v.cells[h] == Null then Item(x) else Null
               case Dequeue => c == (if v.cells[h] == Null then Signal else Null)
      modifies this, d
      ensures Helping(d) && Since(d, v0, f0) && Kept(f, d.View())
      ensures if ended then Finished(View(), d, d.View()) else arrivals < v.arrivals
      ensures arrivals <= old(arrivals)
      decreases arrivals, 6
    {
      Interrupted(d, v, f);
      ended := StoreConditionalCell(d, h, c, v, f);
      if ended {
        if d.op.Dequeue? == (c == Null) {
          AdvanceIndex(d, v, f);
        }
        MarkDone(d, v, f);
      }
      Rebase(d, v0, f0, v, f);
    }

    /** The LL of a loop and the test of Done that follows: undone, no other frame has run
        since the LL. */
    method LoadUnlessDone(d: Descriptor, h: nat, ghost v0: Memory, ghost f0: Fields)
      returns (slot: Cell, done: bool, ghost v: Memory, ghost f: Fields)
      requires Helping(d) && Since(d, v0, f0)
      requires d.index.Some? && d.slotReturn.Some? && !Decisive(marker, d.View())
      requires h == d.index.value % |cells|
      modifies this, d
      ensures Helping(d) && Since(d, v0, f0) && Kept(old(d.View()), d.View())
      ensures done ==> Finished(View(), d, d.View())
      ensures !done ==> Alone(d) && View() == v && d.View() == f && reserved && slot == cells[h]
      ensures !done ==> Forward(v0, v) && Kept(f0, f)
      ensures arrivals <= old(arrivals)
      decreases arrivals, 7
    {
      v, f := View(), d.View();
      Interrupted(d, v, f);
      slot := LoadLinkedCell(h);
      Interrupted(d, v, f);
      done := d.done;
      Rebase(d, v0, f0, v, f);
    }

    /** The operation has been applied by a frame that did not mark it done. */
    method EndApplied(d: Descriptor, ghost v: Memory, ghost f: Fields, ghost v0: Memory, ghost f0: Fields)
      requires Tracks(d, v, f) && Forward(v0, v) && Kept(f0, f)
      requires d in v.place && d in place && (Removes(f) || Inserts(f) || Settled(v))
      modifies this, d
      ensures Helping(d) && Since(d, v0, f0) && Kept(f, d.View()) && Finished(View(), d, d.View())
      ensures arrivals <= old(arrivals)
      decreases arrivals, 6
    {
      if Removes(d.View()) || Inserts(d.View()) {
        AdvanceIndex(d, v, f);
      }
      MarkDone(d, v, f);
      Rebase(d, v0, f0, v, f);
    }

    /** One turn of the loop of a dequeue. */
    method TryDequeue(d: Descriptor, h: nat, ghost v0: Memory, ghost f0: Fields) returns (ended: bool)
      requires Helping(d) && Since(d, v0, f0) && d.op.Dequeue?
      requires d.index.Some? && d.slotReturn.Some? && !Decisive(marker, d.View())
      requires h == d.index.value % |cells|
      modifies this, d
      ensures Helping(d) && Since(d, v0, f0) && Kept(old(d.View()), d.View())
      ensures if ended then Finished(View(), d, d.View()) else arrivals < old(arrivals)
      ensures arrivals <= old(arrivals)
      decreases arrivals, 8
    {
      var slot, done, v, f := LoadUnlessDone(d, h, v0, f0);
      if done { return true; }
      DequeueSlotTells(v, d, f);
      if slot == Signal {
        EndApplied(d, v, f, v0, f0);
        ended := true;
      } else if slot == Null {
        Interrupted(d, v, f);
        if d.slotReturn.value == Null {
          ended := ApplyAndEnd(d, h, Signal, v, f, v0, f0);
        } else {
          EndApplied(d, v, f, v0, f0);
          ended := true;
        }
      } else {
        ended := ApplyAndEnd(d, h, Null, v, f, v0, f0);
      }
    }

    /** One turn of the loop of an enqueue. */
    method TryEnqueue(d: Descriptor, t: nat, ghost v0: Memory, ghost f0: Fields) returns (ended: bool)
      requires Helping(d) && Since(d, v0, f0) && d.op.Enqueue?
      requires d.index.Some? && d.slotReturn.Some? && !Decisive(marker, d.View())
      requires t == d.index.value % |cells|
      modifies this, d
      ensures Helping(d) && Since(d, v0, f0) && Kept(old(d.View()), d.View())
      ensures if ended then Finished(View(), d, d.View()) else arrivals < old(arrivals)
      ensures arrivals <= old(arrivals)
      decreases arrivals, 8
    {
      var slot, done, v, f := LoadUnlessDone(d, t, v0, f0);
      if done { return true; }
      EnqueueSlotTells(v, d, f);
      if slot == Signal {
        ended := ApplyAndEnd(d, t, Null, v, f, v0, f0);
      } else if slot == Null {
        Interrupted(d, v, f);
        if d.slotReturn.value == Signal {
          EndApplied(d, v, f, v0, f0);
          ended := true;
        } else {
          ended := ApplyAndEnd(d, t, Item(d.op.item), v, f, v0, f0);
        }
      } else {
        EndApplied(d, v, f, v0, f0);
        ended := true;
      }
    }

    /** Completes an announced operation, whatever frames have done of it already. */
    method Help(d: Descriptor, ghost v: Memory, ghost f: Fields)
      requires Helping(d) && Since(d, v, f)
      modifies this, d
      ensures Helping(d) && Since(d, v, f) && Finished(View(), d, d.View())
      ensures arrivals <= old(arrivals)
      decreases arrivals, 9
    {
      ProposeIndex(d, v, f);
      CommitIndex(d, v, f);
      var h := d.index.value % |cells|;
      ProposeSlot(d, h, v, f);
      CommitSlot(d, v, f);
      if !Decisive(marker, d.View()) {
        ghost var g := d.View();
        var ended := false;
        while !ended
          invariant Helping(d) && Since(d, v, f) && Kept(g, d.View())
          invariant |cells| == |v.cells| && arrivals <= old(arrivals)
          invariant ended ==> Finished(View(), d, d.View())
          decreases arrivals, !ended
        {
          if d.op.Dequeue? {
            ended := TryDequeue(d, h, v, f);
          } else {
            ended := TryEnqueue(d, h, v, f);
          }
        }
      }
    }

    /** What a caller relies on when its operation returns: it took effect once, between the
        call and the return, and found `found`. */
    ghost predicate TookEffect(d: Descriptor, op: Op, found: Cell, v: Memory) reads this {
      && d in place && |v.log| <= place[d] < |log|
      && log[place[d]] == Entry(d, op, found)
    }

    /** No operation is under way, and p, announced when memory was v, is finished. */
    ghost predicate Completed(p: Descriptor?, v: Memory, f: Fields) reads this, p {
      && Consistent(View()) && Settled(View()) && Forward(v, View())
      && (p != null ==> Finished(View(), p, p.View()) && Kept(f, p.View()))
    }

    /** A caller completes the operation announced before its own. */
    method CompletePending(ghost v: Memory, ghost f: Fields)
      requires Inv() && View() == v && (pending != null ==> pending.View() == f)
      modifies this, pending
      ensures Inv() && Completed(old(pending), v, f)
      ensures pending == null || pending == old(pending)
      ensures arrivals <= old(arrivals)
      decreases arrivals, 10
    {
      Preempt(v, f);
      var op := pending;
      if op != null {
        Help(op, v, f);
      }
    }

    /** Preempt, once operation p is completed. */
    method Interfere(ghost p: Descriptor?, ghost v: Memory, ghost f: Fields)
      requires Completed(p, v, f) && (pending == null || pending == p)
      requires pending != null ==> Inv()
      modifies this, p
      ensures Completed(p, v, f) && Inv() && (pending == null || pending == p)
      ensures arrivals <= old(arrivals)
      decreases arrivals, 2
    {
      ghost var w, g := View(), if p == null then f else p.View();
      Preempt(w, g);
      ForwardTransitive(v, w, View());
    }

    /** Announces an operation and does it, or finds it done. */
    method Announce(op: Op, ghost p: Descriptor?, ghost v: Memory, ghost f: Fields) returns (des: Descriptor)
      requires Completed(p, v, f) && (pending == null || pending == p)
      modifies this
      ensures fresh(des) && Completed(p, v, f) && Inv() && (pending == null || pending == des)
      ensures des.op == op && Finished(View(), des, des.View()) && old(|log|) <= place[des]
      ensures arrivals <= old(arrivals)
      decreases arrivals, 10
    {
      des := new Descriptor(op);
      pending := des;
      ghost var w, g := View(), des.View();
      Help(des, w, g);
      ForwardTransitive(v, w, View());
    }

    /** The operation announced is completed, this one is announced and done, and the
        queue is left with none announced. */
    method Perform(op: Op, ghost v: Memory, ghost f: Fields) returns (found: Cell, d: Descriptor)
      requires Inv() && View() == v && (pending != null ==> pending.View() == f)
      modifies this, pending
      ensures Cleared(old(pending), v, f) && arrivals <= old(arrivals)
      ensures fresh(d) && TookEffect(d, op, found, v)
      decreases arrivals, 11
    {
      ghost var p := pending;
      CompletePending(v, f);
      Interfere(p, v, f);
      d := Announce(op, p, v, f);
      found := Retire(p, d, v, f);
    }

    /** The announcement of a finished operation is withdrawn. */
    method Withdraw(ghost p: Descriptor?, des: Descriptor, ghost v: Memory, ghost f: Fields)
      requires Completed(p, v, f) && Inv() && (pending == null || pending == des) && p != des
      requires Finished(View(), des, des.View())
      modifies this, des
      ensures Completed(p, v, f) && Inv() && pending == null && arrivals <= old(arrivals)
      ensures Finished(View(), des, des.View()) && Forward(old(View()), View())
      decreases arrivals, 9
    {
      ghost var w, g := View(), des.View();
      Interfere(des, w, g);
      pending := null;
      ForwardTransitive(v, w, View());
    }

    /** And its answer read. */
    method Retire(ghost p: Descriptor?, des: Descriptor, ghost v: Memory, ghost f: Fields)
      returns (found: Cell)
      requires Completed(p, v, f) && Inv() && (pending == null || pending == des) && p != des
      requires Finished(View(), des, des.View()) && |v.log| <= place[des]
      modifies this, des
      ensures Cleared(p, v, f) && arrivals <= old(arrivals)
      ensures TookEffect(des, des.op, found, v)
      decreases arrivals, 10
    {
      Withdraw(p, des, v, f);
      ghost var w := View();
      Interfere(null, w, f);
      ForwardTransitive(v, w, View());
      found := des.slotReturn.value;
      reserved := false;      // the return to the frame below clears it
    }

    /** FIFOEnqueue: the item is inserted unless a SIGNAL waits or the queue is full. The
        answer says, with marker Signal, whether it took a SIGNAL, with Null, whether it
        inserted the item. */
    method Enqueue(item: int, ghost v: Memory, ghost f: Fields)
      returns (answer: bool, ghost d: Descriptor, ghost found: Cell)
      requires Inv() && View() == v && (pending != null ==> pending.View() == f)
      modifies this, pending
      ensures Cleared(old(pending), v, f) && arrivals <= old(arrivals)
      ensures fresh(d) && TookEffect(d, Op.Enqueue(item), found, v) && answer == (found == marker)
      decreases arrivals, 12
    {
      var cell;
      cell, d := Perform(Op.Enqueue(item), v, f);
      found := cell;
      answer := cell == marker;
    }

    /** FIFODequeue: the oldest item, or Null. */
    method Dequeue(ghost v: Memory, ghost f: Fields)
      returns (item: Cell, ghost d: Descriptor, ghost found: Cell)
      requires Inv() && View() == v && (pending != null ==> pending.View() == f)
      modifies this, pending
      ensures Cleared(old(pending), v, f) && arrivals <= old(arrivals)
      ensures fresh(d) && TookEffect(d, Op.Dequeue, found, v)
      ensures item == if found == Signal then Null else found
      decreases arrivals, 12
    {
      var cell;
      cell, d := Perform(Op.Dequeue, v, f);
      found := cell;
      item := if cell == Signal then Null else cell;
    }

    /** In every state reached from a queue `start`: what went in comes out once, in order,
        and the rest is in the array; an event's signals that woke no task are at most one,
        the one the array shows. */
    lemma InOrder(start: Queue)
      requires Started(start)
      ensures start.items + Accepted(log) == Delivered(log) + abs.items
      ensures marker == Signal && start == EMPTY ==> SignalsPending(log) == if abs.signalled then 1 else 0
      ensures forall j, k :: 0 <= j < k < |log| ==> log[j].caller != log[k].caller
    {
      FirstInFirstOut(history, |cells|, marker, log, place, |log|);
      assert log[..|log|] == log;
      LegalCallersDiffer(history, |cells|, marker, log, place);
      if marker == Signal && start == EMPTY {
        SignalsConserved(history, |cells|, log, place, |log|);
      }
    }

    /** And every operation found what the ones before it determine. */
    lemma Determined(start: Queue, k: nat)
      requires Started(start) && k < |log| && if marker == Signal then start == EMPTY else !start.signalled
      ensures var all, out := start.items + Accepted(log[..k]), |Delivered(log[..k])|;
        && out <= |all| && |cells| > 0
        && log[k].found
           == Expected(all, out, marker == Signal && SignalsPending(log[..k]) > 0, |cells|, log[k].op)
    {
      AnswersAre(history, |cells|, marker, log, place, k);
    }

    /** What entry k of the log told its caller. */
    ghost predicate Answered(k: nat, op: Op, answer: Answer) reads this
      requires k < |log|
    {
      && log[k].op == op
      && match op
         case Enqueue(_) => answer == Told(log[k].found == marker)
         case Dequeue => answer == Got(if log[k].found == Signal then Null else log[k].found)
    }

    /** One operation, from one state reached from `start` to another. */
    method Call(op: Op, ghost start: Queue) returns (answer: Answer, ghost k: nat)
      requires Started(start) && pending == null
      modifies this
      ensures Started(start) && pending == null && old(log) <= log && |cells| == |old(cells)|
      ensures |old(log)| <= k < |log| && Answered(k, op, answer)
    {
      ghost var v := View();
      ghost var f := Fields(op, None, None, None, None, false);
      match op
      case Enqueue(x) =>
        var yes;
        ghost var d, found;
        yes, d, found := Enqueue(x, v, f);
        answer, k := Told(yes), place[d];
      case Dequeue =>
        var item;
        ghost var d, found;
        item, d, found := Dequeue(v, f);
        answer, k := Got(item), place[d];
    }

    /** Any operations one after the other, each preempted by any others at any access: each
        takes effect once, in the order called, and what it found is in the log. */
    method Calls(ops: seq<Op>, ghost start: Queue) returns (answers: seq<Answer>, ghost places: seq<nat>)
      requires Started(start) && pending == null
      modifies this
      ensures Started(start) && pending == null && old(log) <= log && |cells| == |old(cells)|
      ensures |answers| == |places| == |ops|
      ensures forall k :: 0 <= k < |ops| ==>
        |old(log)| <= places[k] < |log| && Answered(places[k], ops[k], answers[k])
      ensures forall j, k :: 0 <= j < k < |ops| ==> places[j] < places[k]
      ensures start.items + Accepted(log) == Delivered(log) + abs.items
      ensures marker == Signal && start == EMPTY ==> SignalsPending(log) == if abs.signalled then 1 else 0
    {
      answers, places := [], [];
      for i := 0 to |ops|
        invariant Started(start) && pending == null && old(log) <= log && |cells| == |old(cells)|
        invariant |answers| == |places| == i
        invariant forall k :: 0 <= k < i ==>
          |old(log)| <= places[k] < |log| && Answered(places[k], ops[k], answers[k])
        invariant forall j, k :: 0 <= j < k < i ==> places[j] < places[k]
      {
        var answer;
        ghost var k;
        answer, k := Call(ops[i], start);
        answers, places := answers + [answer], places + [k];
      }
      InOrder(start);
    }
  }

  /** A queue as its creation leaves it, used in any way: first in, first out, no signal lost. */
  method UseQueue(length: nat, marker: Cell, arrivals: nat, ops: seq<Op>)
    returns (q: FifoQueue, answers: seq<Answer>, ghost places: seq<nat>)
    requires length > 0 && (marker == Null || marker == Signal)
    ensures |answers| == |places| == |ops| && |q.cells| == length && q.Started(EMPTY)
    ensures forall k :: 0 <= k < |ops| ==>
      places[k] < |q.log| && q.Answered(places[k], ops[k], answers[k])
    ensures Accepted(q.log) == Delivered(q.log) + q.abs.items
    ensures marker == Signal ==> SignalsPending(q.log) == if q.abs.signalled then 1 else 0
  {
    q := new FifoQueue(length, marker, arrivals);
    answers, places := q.Calls(ops, EMPTY);
    assert [] + Accepted(q.log) == Accepted(q.log);
  }

  /** The same for a pool of free nodes, full at first. */
  method UsePool(nodes: seq<int>, arrivals: nat, ops: seq<Op>)
    returns (q: FifoQueue, answers: seq<Answer>, ghost places: seq<nat>)
    requires nodes != []
    ensures |answers| == |places| == |ops| && q.Started(Queue(nodes, false))
    ensures forall k :: 0 <= k < |ops| ==>
      places[k] < |q.log| && q.Answered(places[k], ops[k], answers[k])
    ensures nodes + Accepted(q.log) == Delivered(q.log) + q.abs.items
  {
    q := new FifoQueue.Full(nodes, arrivals);
    answers, places := q.Calls(ops, Queue(nodes, false));
  }
}
