/** The 3-slot buffer (Chen and Burns, 1997): one writer and one reader, on one core or two,
    each statement of OSWriteBuffer and GetReadyBuffer3Slot a step of its own, sequentially
    consistent. Each side has a reservation, taken by its LL of Reading, lost when the other
    stores into Reading, and lost at any time for no visible reason (an interrupt, a store
    near by): its SC then fails. */
module ThreeSlot {
  import opened BufferReads
  import opened Counting

  type Index = i: nat | i < 3

  /** Reading == 3: the reader asks for a slot. */
  const ASKING: nat := 3

  /** The table next[Reading][Latest] of OSWriteBuffer, row by row. */
  function NextSlot(reading: nat, latest: Index): (i: Index)
    requires reading <= ASKING
    ensures i != latest && i != reading
  {
    match reading
    case 0 => if latest == 1 then 2 else 1
    case 1 => if latest == 2 then 0 else 2
    case 2 => if latest == 0 then 1 else 0
    case _ => if latest == 0 then 1 else if latest == 1 then 2 else 0
  }

  datatype Slots = Slots(zero: Slot, one: Slot, two: Slot) {
    function At(i: Index): Slot { if i == 0 then zero else if i == 1 then one else two }

    function Put(i: Index, s: Slot): Slots {
      if i == 0 then this.(zero := s) else if i == 1 then this.(one := s) else this.(two := s)
    }
  }

  datatype WriterStep = Fill | StoreLatest | LoadLinked | StoreConditional | Choose | ClearSlot | SetStatus

  /** What the writer alone stores into: the slots, Latest, Status (`unread`), its slot and
      count. `published` observes the record Latest names. */
  datatype Writer = Writer(
    slots: Slots, latest: Index, unread: bool, slot: Index, written: nat, step: WriterStep, published: nat)
  {
    /** The writer's next statement, `reading` being what Reading holds and `linked` whether
        an SC would succeed; the bytes that fill a slot are one step, which ends them. */
    function Move(reading: nat, linked: bool): Writer
      requires reading <= ASKING
    {
      match step
      case Fill => this.(slots := slots.Put(slot, Record(written + 1)), written := written + 1, step := StoreLatest)
      case StoreLatest => this.(latest := slot, published := written, step := LoadLinked)
      case LoadLinked => this.(step := if reading == ASKING then StoreConditional else Choose)
      case StoreConditional => this.(step := if linked then Choose else LoadLinked)
      case Choose => this.(slot := NextSlot(reading, latest), step := ClearSlot)
      case ClearSlot => this.(slots := slots.Put(slot, Torn), step := SetStatus)
      case SetStatus => this.(unread := true, step := Fill)
    }

    predicate Filling() { step.ClearSlot? || step.SetStatus? || step.Fill? }

    predicate HandingOver() { step.LoadLinked? || step.StoreConditional? }

    predicate Valid() {
      && (Filling() || step.StoreLatest? ==> slot != latest)
      && (HandingOver() ==> slot == latest)
      && slots.At(latest) == Record(published)
      && (step.StoreLatest? ==> slots.At(slot) == Record(written))
      && published <= written
      && (!step.StoreLatest? ==> published == written)
    }
  }

  datatype Reader =
    | Away                       // nothing read yet
    | Asked                      // Reading = 3 stored, or the SC failed
    | Linked                     // LL found Reading == 3
    | HasLatest(latest: Index)   // Latest read, to be stored by the SC
    | Taken                      // out of the loop
    | Holds(slot: Index)         // the slot Reading names, the reader's until it reads again

  /** `reading` and the two reservations are shared. `floor` and `got` observe the record
      published when the read under way began, and the records read, in order. */
  datatype Buffer = Buffer(
    w: Writer, reading: nat, writerLinked: bool, readerLinked: bool, reader: Reader, floor: nat, got: seq<nat>)

  /** OSInitBuffer. */
  const START := Buffer(
    Writer(Slots(Record(0), Record(0), Torn), 0, false, 2, 0, Fill, 0), ASKING, false, false, Away, 0, [])

  /** A step of the writer, with what it does to Reading and the reservations. */
  function Write(b: Buffer): Buffer
    requires b.reading <= ASKING
  {
    var b' := b.(w := b.w.Move(b.reading, b.writerLinked));
    if b.w.step.LoadLinked? then b'.(writerLinked := true)
    else if b.w.step.StoreConditional? && b.writerLinked then
      b'.(reading := b.w.slot, writerLinked := false, readerLinked := false)
    else b'
  }

  /** The reader's next statement; it begins a read once a slot has been handed over. What
      the slot holds when taken is recorded as read. */
  function Read(b: Buffer): Buffer
    requires b.reader.Taken? ==> b.reading < ASKING
  {
    match b.reader
    case Asked => b.(readerLinked := true, reader := if b.reading == ASKING then Linked else Taken)
    case Linked => b.(reader := HasLatest(b.w.latest))
    case HasLatest(l) =>
      if b.readerLinked then b.(reading := l, readerLinked := false, writerLinked := false, reader := Taken)
      else b.(reader := Asked)
    case Taken => b.(reader := Holds(b.reading), got := b.got + [Number(b.w.slots.At(b.reading))])
    case _ =>
      if b.w.unread then b.(reading := ASKING, writerLinked := false, reader := Asked, floor := b.w.published) else b
  }

  ghost predicate Next(b: Buffer, b': Buffer) {
    || (b.reading <= ASKING && b' == Write(b))
    || ((b.reader.Taken? ==> b.reading < ASKING) && b' == Read(b))
    || b' == b.(writerLinked := false)
    || b' == b.(readerLinked := false)
  }

  /** A run: from the start, each state one step of either side, or the loss of a
      reservation, from the one before. */
  ghost predicate Run(run: seq<Buffer>) {
    && |run| > 0 && run[0] == START
    && forall k :: 0 <= k < |run| - 1 ==> Next(run[k], run[k + 1])
  }

  // The invariant

  /** A reservation still held means Reading unchanged since its LL. */
  predicate LinksInv(b: Buffer) {
    && b.reading <= ASKING
    && (b.w.step.StoreConditional? && b.writerLinked ==> b.reading == ASKING)
    && ((b.reader.Linked? || b.reader.HasLatest?) && b.readerLinked ==> b.reading == ASKING)
    && (b.reader.Taken? ==> b.reading < ASKING)
    && (b.reader.Holds? ==> b.reading == b.reader.slot)
  }

  /** The writer fills neither the slot Reading names, nor the one a reader still asking is
      about to store there. */
  predicate SlotsApart(b: Buffer) {
    && (b.w.Filling() || b.w.step.StoreLatest? ==> b.w.slot != b.reading)
    && (b.reader.HasLatest? && b.readerLinked ==> b.reader.latest == b.w.latest || b.w.HandingOver())
  }

  /** A record the reader may be given. */
  predicate Fresh(b: Buffer, s: Slot) {
    s.Record? && b.floor <= s.number <= b.w.published && Last(b.got) <= s.number
  }

  predicate ReadsRise(b: Buffer) {
    && Rising(b.got) && Last(b.got) <= b.w.published && b.floor <= b.w.published
    && ((b.reader.Asked? || b.reader.Linked? || b.reader.HasLatest? || b.reader.Taken?) && b.reading < ASKING ==>
          Fresh(b, b.w.slots.At(b.reading)))
    && (b.reader.HasLatest? && b.readerLinked ==> Fresh(b, b.w.slots.At(b.reader.latest)))
    && (b.reader.Holds? ==>
          b.got != [] && b.w.slots.At(b.reader.slot) == Record(Last(b.got)) && b.floor <= Last(b.got))
  }

  predicate Inv(b: Buffer) {
    b.w.Valid() && LinksInv(b) && SlotsApart(b) && ReadsRise(b)
  }

  lemma MoveKeepsValid(w: Writer, reading: nat, linked: bool)
    requires w.Valid() && reading <= ASKING
    ensures w.Move(reading, linked).Valid()
  {
  }

  lemma WriteKeepsSlots(b: Buffer)
    requires Inv(b)
    ensures LinksInv(Write(b)) && SlotsApart(Write(b))
  {
  }

  /** The slots the writer leaves alone. */
  lemma WriteKeepsSlot(b: Buffer, i: Index)
    requires b.reading <= ASKING && !(b.w.Filling() && b.w.slot == i)
    ensures Write(b).w.slots.At(i) == b.w.slots.At(i)
  {
  }

  /** No record the reader holds or may be given is written over. */
  lemma WriteKeepsReads(b: Buffer)
    requires Inv(b)
    ensures ReadsRise(Write(b))
  {
    if b.reading < ASKING {
      WriteKeepsSlot(b, b.reading);
    }
    if b.reader.HasLatest? && b.readerLinked {
      WriteKeepsSlot(b, b.reader.latest);
    }
    WriteKeepsSlot(b, b.w.latest);
  }

  lemma ReadKeepsSlots(b: Buffer)
    requires Inv(b)
    ensures LinksInv(Read(b)) && SlotsApart(Read(b))
  {
  }

  lemma ReadKeepsReads(b: Buffer)
    requires Inv(b)
    ensures ReadsRise(Read(b))
  {
  }

  lemma StepKeepsInv(b: Buffer, b': Buffer)
    requires Inv(b) && Next(b, b')
    ensures Inv(b')
  {
    if b' == Write(b) {
      MoveKeepsValid(b.w, b.reading, b.writerLinked);
      WriteKeepsSlots(b);
      WriteKeepsReads(b);
    } else if b' == Read(b) {
      ReadKeepsSlots(b);
      ReadKeepsReads(b);
    }
  }

  lemma RunSteps(run: seq<Buffer>, k: nat)
    requires Run(run) && k + 1 < |run|
    ensures Next(run[k], run[k + 1])
  {
  }

  lemma {:induction false} RunKeepsInv(run: seq<Buffer>, k: nat)
    requires Run(run) && k < |run|
    ensures Inv(run[k])
  {
    if k > 0 {
      var j := k - 1;
      RunKeepsInv(run, j);
      RunSteps(run, j);
      StepKeepsInv(run[j], run[j + 1]);
    }
  }

  // Over whole runs

  /** At any point of any run: the slot the writer stores into is neither the one the reader
      holds nor one it will be handed, which is whole; the records read never go backwards. */
  lemma ReadsAreWholeAndRise(run: seq<Buffer>, k: nat)
    requires Run(run) && k < |run|
    ensures Rising(run[k].got)
    ensures var b := run[k];
      && (b.reader.Holds? ==> b.got != [] && b.w.slots.At(b.reader.slot) == Record(Last(b.got)))
      && (b.w.Filling() ==>
            && b.w.slot != b.reading
            && !(b.reader.Holds? && b.w.slot == b.reader.slot)
            && !(b.reader.HasLatest? && b.readerLinked && b.w.slot == b.reader.latest))
  {
    RunKeepsInv(run, k);
  }

  /** The reader's step that begins a read. */
  predicate Begins(b: Buffer, b': Buffer) {
    (b.reader.Away? || b.reader.Holds?) && b'.reader.Asked?
  }

  /** The read under way, or last ended, at `j` began with the step after `i`. */
  ghost predicate BeganAt(run: seq<Buffer>, i: nat, j: nat)
    requires i < j < |run|
  {
    Begins(run[i], run[i + 1]) && forall k :: i < k < j ==> !Begins(run[k], run[k + 1])
  }

  lemma WriteKeepsFloor(b: Buffer)
    requires b.reading <= ASKING
    ensures Write(b).floor == b.floor && Write(b).reader == b.reader && Write(b).got == b.got
  {
  }

  lemma StepKeepsFloor(b: Buffer, b': Buffer)
    requires Next(b, b') && !Begins(b, b') && !b.reader.Away?
    ensures b'.floor == b.floor && !b'.reader.Away?
  {
    if b.reading <= ASKING && b' == Write(b) {
      WriteKeepsFloor(b);
    }
  }

  lemma BeginSetsFloor(b: Buffer, b': Buffer)
    requires Next(b, b') && Begins(b, b')
    ensures b'.floor == b.w.published
  {
    if b.reading <= ASKING && b' == Write(b) {
      WriteKeepsFloor(b);
    }
  }

  lemma {:induction false} FloorStays(run: seq<Buffer>, i: nat, j: nat)
    requires Run(run) && i < j < |run| && BeganAt(run, i, j)
    ensures run[j].floor == run[i].w.published && !run[j].reader.Away?
  {
    var k := j - 1;
    RunSteps(run, k);
    if i < k {
      FloorStays(run, i, k);
      assert !Begins(run[k], run[k + 1]);
      StepKeepsFloor(run[k], run[k + 1]);
    } else {
      BeginSetsFloor(run[k], run[k + 1]);
    }
  }

  /** A read returns a record at least as new as the last one published in Latest when it
      began, and so as that of the last completed write. */
  lemma ReadsAreFresh(run: seq<Buffer>, i: nat, j: nat)
    requires Run(run) && i < j < |run| && BeganAt(run, i, j) && run[j].reader.Holds?
    ensures run[j].got != [] && Last(run[j].got) >= run[i].w.published
    ensures !run[i].w.step.StoreLatest? ==> run[i].w.published == run[i].w.written
  {
    FloorStays(run, i, j);
    RunKeepsInv(run, j);
    RunKeepsInv(run, i);
  }

  /** Whatever mix of calls made the reads of a run: the read-only-once calls deliver, in the
      order written, each record they find and each once. */
  lemma RunDelivers(run: seq<Buffer>, k: nat, calls: seq<Call>)
    requires Run(run) && k < |run| && Numbers(calls) == run[k].got
    ensures StrictlyRising(Deliver(calls).delivered)
    ensures forall n: nat :: n in Deliver(calls).delivered <==> n > 0 && Call(n, true) in calls
  {
    RunKeepsInv(run, k);
    DeliveredOnce(calls);
    DeliveredAll(calls);
  }

  /** Once such a call ends, the last record delivered is at least as new as the last one
      published in Latest when the call began. */
  lemma RunDeliversFresh(run: seq<Buffer>, i: nat, j: nat, calls: seq<Call>)
    requires Run(run) && i < j < |run| && BeganAt(run, i, j) && run[j].reader.Holds?
    requires Numbers(calls) == run[j].got && calls != [] && calls[|calls| - 1].once
    ensures Last(Deliver(calls).delivered) == Last(run[j].got) >= run[i].w.published
  {
    ReadsAreFresh(run, i, j);
    RunKeepsInv(run, j);
    DeliveredOnce(calls);
    LastReadIs(calls);
  }

  // Every call once a write has ended

  /** The writes ended: the one under way, its slot published or not, is not. */
  function Ended(w: Writer): nat {
    if w.step.Fill? || w.written == 0 then w.written else w.written - 1
  }

  /** Before the first write has ended nothing is read; from then on a read begins. */
  predicate StatusTells(b: Buffer) {
    && (!b.w.step.Fill? ==> b.w.written > 0)
    && Ended(b.w) <= b.w.published
    && (if b.w.step.StoreLatest? then b.w.published + 1 == b.w.written else b.w.published == b.w.written)
    && (b.w.unread <==> Ended(b.w) > 0)
    && (!b.w.unread ==> b.reader.Away? && b.got == [])
  }

  lemma WriteKeepsStatus(b: Buffer)
    requires StatusTells(b) && b.reading <= ASKING
    ensures StatusTells(Write(b)) && Ended(b.w) <= Ended(Write(b).w)
  {
    match b.w.step case Fill => case StoreLatest => case LoadLinked => case StoreConditional =>
    case Choose => case ClearSlot => case SetStatus =>
  }

  lemma StepKeepsStatus(b: Buffer, b': Buffer)
    requires StatusTells(b) && Next(b, b')
    ensures StatusTells(b') && Ended(b.w) <= Ended(b'.w)
  {
    if b.reading <= ASKING && b' == Write(b) {
      WriteKeepsStatus(b);
    }
  }

  lemma {:induction false} RunKeepsStatus(run: seq<Buffer>, k: nat)
    requires Run(run) && k < |run|
    ensures StatusTells(run[k])
  {
    if k > 0 {
      RunKeepsStatus(run, k - 1);
      RunSteps(run, k - 1);
      StepKeepsStatus(run[k - 1], run[k]);
    }
  }

  lemma {:induction false} EndedRises(run: seq<Buffer>, i: nat, k: nat)
    requires Run(run) && i <= k < |run|
    ensures Ended(run[i].w) <= Ended(run[k].w)
  {
    if i < k {
      var last := k - 1;
      EndedRises(run, i, last);
      var b, b' := StepOf(run, last);
      StepKeepsStatus(b, b');
    }
  }

  /** Nothing is read before the first write has ended. */
  lemma NothingYet(run: seq<Buffer>, k: nat)
    requires Run(run) && k < |run| && Ended(run[k].w) == 0
    ensures run[k].got == [] && run[k].reader.Away?
  {
    RunKeepsStatus(run, k);
  }

  predicate ByReader(b: Buffer, b': Buffer) {
    (b.reader.Taken? ==> b.reading < ASKING) && b' == Read(b)
  }

  /** Its SC fails. */
  predicate Fails(b: Buffer, b': Buffer) {
    ByReader(b, b') && b.reader.HasLatest? && !b.readerLinked
  }

  /** The reader's steps between two states, and its SCs among them that fail. */
  function Turns(run: seq<Buffer>, i: nat, j: nat): nat
    requires i <= j < |run|
  {
    Steps(run, i, j, ByReader)
  }

  function Failures(run: seq<Buffer>, i: nat, j: nat): nat
    requires i <= j < |run|
  {
    Steps(run, i, j, Fails)
  }

  predicate Idle(b: Buffer) { b.reader.Away? || b.reader.Holds? }

  /** The steps a call takes, without failures, to get where it is. */
  function Stage(r: Reader): nat {
    match r case Asked => 1 case Linked => 2 case HasLatest(_) => 3 case Taken => 4 case _ => 0
  }

  /** Where a call begun with `got` is after some of its reader's steps, `done` writes having ended
      before it: through, or on its way, three more steps having come with each failure. */
  predicate Calling(b: Buffer, got: seq<nat>, done: nat, turns: nat, failures: nat) {
    || (|got| < |b.got| && got == b.got[..|got|] && done <= b.got[|got|])
    || (b.got == got && (turns == 0 <==> Idle(b)) && (turns > 0 ==> done <= b.floor)
        && turns <= Stage(b.reader) + 3 * failures)
  }

  lemma ReadCalls(b: Buffer, b': Buffer, got: seq<nat>, done: nat, turns: nat, failures: nat)
    requires Inv(b) && StatusTells(b) && ByReader(b, b') && 0 < done <= Ended(b.w)
    requires Calling(b, got, done, turns, failures)
    ensures Calling(b', got, done, turns + 1, failures + if Fails(b, b') then 1 else 0)
  {
    match b.reader
    case Taken => assert b'.got[..|b.got|] == b.got;
    case _ =>
  }

  lemma OtherCalls(b: Buffer, b': Buffer, got: seq<nat>, done: nat, turns: nat, failures: nat)
    requires Next(b, b') && !ByReader(b, b') && Calling(b, got, done, turns, failures)
    ensures Calling(b', got, done, turns, failures)
  {
    if b.reading <= ASKING && b' == Write(b) {
      WriteKeepsFloor(b);
    }
  }

  lemma StepCalls(b: Buffer, b': Buffer, got: seq<nat>, done: nat, turns: nat, failures: nat)
    requires Inv(b) && StatusTells(b) && Next(b, b') && 0 < done <= Ended(b.w)
    requires Calling(b, got, done, turns, failures)
    ensures Calling(b', got, done, turns + if ByReader(b, b') then 1 else 0, failures + if Fails(b, b') then 1 else 0)
  {
    if ByReader(b, b') {
      ReadCalls(b, b', got, done, turns, failures);
    } else {
      OtherCalls(b, b', got, done, turns, failures);
    }
  }

  lemma StepOf(run: seq<Buffer>, k: nat) returns (b: Buffer, b': Buffer)
    requires Run(run) && k + 1 < |run|
    ensures b == run[k] && b' == run[k + 1] && Inv(b) && StatusTells(b) && Next(b, b')
  {
    RunKeepsInv(run, k);
    RunKeepsStatus(run, k);
    RunSteps(run, k);
    b, b' := run[k], run[k + 1];
  }

  /** A step of a run once `done` writes have ended. */
  ghost function StepFrom(done: nat): (Buffer, Buffer) -> bool {
    (b: Buffer, b': Buffer) => Inv(b) && StatusTells(b) && Next(b, b') && 0 < done <= Ended(b.w)
  }

  ghost function CallingFrom(got: seq<nat>, done: nat): (Buffer, nat, nat) -> bool {
    (b: Buffer, turns: nat, failures: nat) => Calling(b, got, done, turns, failures)
  }

  lemma StepsFrom(run: seq<Buffer>, i: nat, j: nat)
    requires Run(run) && i <= j < |run| && Ended(run[i].w) > 0
    ensures forall k :: i <= k < j ==> StepFrom(Ended(run[i].w))(run[k], run[k + 1])
  {
    forall k | i <= k < j ensures StepFrom(Ended(run[i].w))(run[k], run[k + 1]) {
      EndedRises(run, i, k);
      var b, b' := StepOf(run, k);
    }
  }

  lemma CallsKept(got: seq<nat>, done: nat)
    ensures forall b, b', m: nat, n: nat :: StepFrom(done)(b, b') && CallingFrom(got, done)(b, m, n) ==>
      CallingFrom(got, done)(b', m + if ByReader(b, b') then 1 else 0, n + if Fails(b, b') then 1 else 0)
  {
    forall b, b', m: nat, n: nat | StepFrom(done)(b, b') && CallingFrom(got, done)(b, m, n)
      ensures CallingFrom(got, done)(b', m + if ByReader(b, b') then 1 else 0, n + if Fails(b, b') then 1 else 0)
    {
      StepCalls(b, b', got, done, m, n);
    }
  }

  /** A call made once a write has ended reads a record: after five steps of the reader and three
      more for each of its SCs that fails, whatever the writer does between, there is one more, no
      older than that of the last write ended when the call was made. */
  lemma CallReads(run: seq<Buffer>, i: nat, j: nat)
    requires Run(run) && i <= j < |run| && Idle(run[i]) && Ended(run[i].w) > 0
    requires Turns(run, i, j) >= 5 + 3 * Failures(run, i, j)
    ensures run[i].got < run[j].got && run[j].got[|run[i].got|] >= Ended(run[i].w)
  {
    var got, done := run[i].got, Ended(run[i].w);
    StepsFrom(run, i, j);
    CallsKept(got, done);
    StepsKeep(run, i, j, StepFrom(done), ByReader, Fails, CallingFrom(got, done));
  }

  // Every write

  /** The writer's steps up to here, without the turns of its loop. */
  function Done(w: Writer): int {
    7 * Ended(w) + match w.step
                   case Fill => 0 case StoreLatest => 1 case LoadLinked => 2 case StoreConditional => 3
                   case Choose => 4 case ClearSlot => 5 case SetStatus => 6
  }

  predicate ByWriter(b: Buffer, b': Buffer) { b.reading <= ASKING && b' == Write(b) }

  /** Its SC fails. */
  predicate WriterFails(b: Buffer, b': Buffer) {
    ByWriter(b, b') && b.w.step.StoreConditional? && !b.writerLinked
  }

  ghost function StatusStep(): (Buffer, Buffer) -> bool {
    (b: Buffer, b': Buffer) => StatusTells(b) && Next(b, b')
  }

  ghost function DoneFrom(start: int): (Buffer, nat, nat) -> bool {
    (b: Buffer, writes: nat, failures: nat) => start + writes <= Done(b.w) + 2 * failures
  }

  lemma WritesCount(start: int)
    ensures forall b, b', m: nat, n: nat :: StatusStep()(b, b') && DoneFrom(start)(b, m, n) ==>
      DoneFrom(start)(b', m + if ByWriter(b, b') then 1 else 0, n + if WriterFails(b, b') then 1 else 0)
  {
    forall b, b' | StatusTells(b) && Next(b, b')
      ensures Done(b.w) + (if ByWriter(b, b') then 1 else 0) <= Done(b'.w) + if WriterFails(b, b') then 2 else 0
    {
      DoneRises(b, b');
    }
  }

  lemma DoneRises(b: Buffer, b': Buffer)
    requires StatusTells(b) && Next(b, b')
    ensures Done(b.w) + (if ByWriter(b, b') then 1 else 0) <= Done(b'.w) + if WriterFails(b, b') then 2 else 0
  {
    if ByWriter(b, b') {
      match b.w.step case Fill => case StoreLatest => case LoadLinked => case StoreConditional =>
      case Choose => case ClearSlot => case SetStatus =>
    }
  }

  lemma StatusSteps(run: seq<Buffer>, i: nat, j: nat)
    requires Run(run) && i <= j < |run|
    ensures forall k :: i <= k < j ==> StatusStep()(run[k], run[k + 1])
  {
    forall k | i <= k < j ensures StatusStep()(run[k], run[k + 1]) {
      var b, b' := StepOf(run, k);
    }
  }

  /** After seven steps of the writer, and two more for each of its SCs that fails, one more write
      has ended, whatever the reader does. */
  lemma WriteEnds(run: seq<Buffer>, i: nat, j: nat)
    requires Run(run) && i <= j < |run| && Steps(run, i, j, ByWriter) >= 7 + 2 * Steps(run, i, j, WriterFails)
    ensures Ended(run[j].w) > Ended(run[i].w)
  {
    StatusSteps(run, i, j);
    WritesCount(Done(run[i].w));
    StepsKeep(run, i, j, StatusStep(), ByWriter, WriterFails, DoneFrom(Done(run[i].w)));
  }
}
