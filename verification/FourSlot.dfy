/** The 4-slot buffer (Simpson, 1990): one writer and one reader, on one core or two, each
    statement of OSWriteBuffer and GetReadyBuffer4Slot a step of its own, sequentially consistent. */
module FourSlot {
  import opened BufferReads
  import opened Counting

  /** The two slots of the two pairs. */
  datatype Slots = Slots(s00: Slot, s01: Slot, s10: Slot, s11: Slot) {
    function At(pair: bool, i: bool): Slot {
      if pair then (if i then s11 else s10) else (if i then s01 else s00)
    }

    function Put(pair: bool, i: bool, s: Slot): Slots {
      if pair then (if i then this.(s11 := s) else this.(s10 := s))
      else (if i then this.(s01 := s) else this.(s00 := s))
    }
  }

  /** The latest slot of each pair. */
  datatype Index = Index(zero: bool, one: bool) {
    function At(pair: bool): bool { if pair then one else zero }

    function Put(pair: bool, i: bool): Index {
      if pair then this.(one := i) else this.(zero := i)
    }
  }

  datatype WriterStep = Fill | StoreIndex | StoreLatest | ChoosePair | ChooseSlot | ClearSlot | SetStatus

  /** What the writer alone stores into: the slots, Index, Latest, Status (`unread`), its
      own pair, slot and count. `published` observes the record last named in Latest. */
  datatype Writer = Writer(
    slots: Slots, index: Index, latest: bool, unread: bool,
    pair: bool, slot: bool, written: nat, step: WriterStep, published: nat)
  {
    /** The writer's next statement, `reading` being what Reading holds; the bytes that fill
        a slot are one step, which ends them. */
    function Move(reading: bool): Writer {
      match step
      case Fill =>
        this.(slots := slots.Put(pair, slot, Record(written + 1)), written := written + 1, step := StoreIndex)
      case StoreIndex => this.(index := index.Put(pair, slot), step := StoreLatest)
      case StoreLatest => this.(latest := pair, published := written, step := ChoosePair)
      case ChoosePair => this.(pair := !reading, step := ChooseSlot)
      case ChooseSlot => this.(slot := !index.At(pair), step := ClearSlot)
      case ClearSlot => this.(slots := slots.Put(pair, slot, Torn), step := SetStatus)
      case SetStatus => this.(unread := true, step := Fill)
    }

    /** The slot and the record a pair names. */
    function Latest(p: bool): Slot { slots.At(p, index.At(p)) }

    function Named(p: bool): nat { Number(Latest(p)) }

    /** The writer fills its slot, or is about to. */
    predicate Filling() { step.ClearSlot? || step.SetStatus? || step.Fill? }

    /** The slot the writer fills is not the latest of its pair. */
    predicate SlotApart() {
      && (Filling() || step.StoreIndex? ==> slot == !index.At(pair))
      && (step.StoreLatest? ==> slot == index.At(pair))
      && Latest(false).Record? && Latest(true).Record?
    }

    /** The latest pair names the newest record but for the window between the stores of
        Index and Latest. */
    predicate NumbersRise() {
      && Named(false) <= written && Named(true) <= written
      && published <= Named(latest)
      && (step.StoreIndex? ==> slots.At(pair, slot) == Record(written))
      && (step.StoreLatest? ==> Named(pair) == written)
      && (!(step.StoreLatest? && pair != latest) ==> Named(!latest) <= Named(latest))
      && (step.ChoosePair? || step.ChooseSlot? || Filling() ==> Named(latest) == written)
    }
  }

  datatype Reader =
    | Away                              // nothing read yet
    | HasPair(pair: bool)               // Latest read
    | Announced(pair: bool)             // Reading stored
    | Holds(pair: bool, slot: bool)     // the slot chosen, the reader's until it reads again

  /** `floor` and `got` observe the record published when the read under way began, and the
      records read, in order. */
  datatype Buffer = Buffer(w: Writer, reading: bool, reader: Reader, floor: nat, got: seq<nat>) {
    function Held(): Slot requires reader.Holds? { w.slots.At(reader.pair, reader.slot) }
  }

  /** OSInitBuffer. */
  const START := Buffer(
    Writer(Slots(Record(0), Record(0), Record(0), Torn), Index(false, false), false, false, true, true, 0, Fill, 0),
    false, Away, 0, [])

  function Write(b: Buffer): Buffer {
    b.(w := b.w.Move(b.reading))
  }

  /** The reader's next statement; it begins a read once a slot has been handed over. What
      the slot holds when chosen is recorded as read. */
  function Read(b: Buffer): Buffer {
    match b.reader
    case HasPair(p) => b.(reading := p, reader := Announced(p))
    case Announced(p) => b.(reader := Holds(p, b.w.index.At(p)), got := b.got + [b.w.Named(p)])
    case _ => if b.w.unread then b.(reader := HasPair(b.w.latest), floor := b.w.published) else b
  }

  ghost predicate Next(b: Buffer, b': Buffer) {
    b' == Write(b) || b' == Read(b)
  }

  /** A run: from the start, each state one step of either side from the one before. */
  ghost predicate Run(run: seq<Buffer>) {
    && |run| > 0 && run[0] == START
    && forall k :: 0 <= k < |run| - 1 ==> Next(run[k], run[k + 1])
  }

  // The invariant

  predicate Coming(b: Buffer, pair: bool) {
    (b.reader.HasPair? || b.reader.Announced?) && b.reader.pair == pair
  }

  /** How the pair the reader announces and the one the writer takes alternate: a writer
      away from the latest pair has that pair to itself. */
  predicate PairsAlternate(b: Buffer) {
    var w := b.w;
    var waiting := b.reader == HasPair(!w.latest);
    && ((b.reader.Announced? || b.reader.Holds?) ==> b.reading == b.reader.pair)
    && (w.step.ChoosePair? ==> !(b.reading == w.latest && waiting))
    && (!w.step.ChoosePair? && w.pair != w.latest ==> b.reading != w.pair && !Coming(b, w.pair))
    && (!w.step.ChoosePair? && w.pair == w.latest && waiting ==> b.reading != w.latest)
  }

  /** The slot the writer fills is not the one the reader holds. */
  predicate SlotsApart(b: Buffer) {
    && b.w.SlotApart()
    && (b.reader.Holds? && b.reader.pair == b.w.pair
        && (b.w.step.ChooseSlot? || b.w.Filling() || b.w.step.StoreIndex?) ==>
          b.reader.slot == b.w.index.At(b.w.pair))
  }

  predicate ReadsRise(b: Buffer) {
    && Rising(b.got) && Last(b.got) <= b.w.Named(b.w.latest)
    && (b.reader.HasPair? || b.reader.Announced? ==>
          b.floor <= b.w.Named(b.reader.pair) && Last(b.got) <= b.w.Named(b.reader.pair))
    && (b.reader.Holds? ==>
          && b.got != [] && b.Held() == Record(Last(b.got)) && b.floor <= Last(b.got))
  }

  predicate Inv(b: Buffer) {
    PairsAlternate(b) && SlotsApart(b) && b.w.NumbersRise() && ReadsRise(b)
  }

  lemma WriteKeepsPairs(b: Buffer)
    requires PairsAlternate(b)
    ensures PairsAlternate(Write(b))
  {
    match b.w.step case Fill => case StoreIndex => case StoreLatest => case ChoosePair =>
    case ChooseSlot => case ClearSlot => case SetStatus =>
  }

  lemma ReadKeepsPairs(b: Buffer)
    requires PairsAlternate(b)
    ensures PairsAlternate(Read(b))
  {
    match b.reader case Away => case HasPair(p) => case Announced(p) => case Holds(p, i) =>
  }

  lemma MoveKeepsSlot(w: Writer, reading: bool)
    requires w.SlotApart() && w.NumbersRise()
    ensures w.Move(reading).SlotApart()
  {
    match w.step case Fill => case StoreIndex => case StoreLatest => case ChoosePair =>
    case ChooseSlot => case ClearSlot => case SetStatus =>
  }

  lemma WriteKeepsSlots(b: Buffer)
    requires Inv(b)
    ensures SlotsApart(Write(b))
  {
    MoveKeepsSlot(b.w, b.reading);
  }

  lemma ReadKeepsSlots(b: Buffer)
    requires PairsAlternate(b) && SlotsApart(b)
    ensures SlotsApart(Read(b))
  {
  }

  /** Only the store of Index changes what a pair names: the record just written. */
  lemma MoveNamed(w: Writer, reading: bool, p: bool)
    requires w.SlotApart() && w.NumbersRise()
    ensures w.Move(reading).Named(p) == if w.step.StoreIndex? && p == w.pair then w.written else w.Named(p)
  {
  }

  lemma MoveKeepsNumbers(w: Writer, reading: bool)
    requires w.SlotApart() && w.NumbersRise()
    ensures w.Move(reading).NumbersRise()
  {
    MoveNamed(w, reading, false);
    MoveNamed(w, reading, true);
    match w.step case Fill => case StoreIndex => case StoreLatest => case ChoosePair =>
    case ChooseSlot => case ClearSlot => case SetStatus =>
  }

  /** The slot the reader holds is not written. */
  lemma HeldSlotKept(b: Buffer)
    requires PairsAlternate(b) && SlotsApart(b) && b.reader.Holds?
    ensures Write(b).Held() == b.Held()
  {
  }

  lemma WriteKeepsReads(b: Buffer)
    requires Inv(b)
    ensures ReadsRise(Write(b))
  {
    MoveNamed(b.w, b.reading, false);
    MoveNamed(b.w, b.reading, true);
    if b.reader.Holds? {
      HeldSlotKept(b);
    }
  }

  lemma ReadKeepsReads(b: Buffer)
    requires Inv(b)
    ensures ReadsRise(Read(b))
  {
  }

  lemma StepKeepsInv(b: Buffer, b': Buffer)
    requires Inv(b) && Next(b, b')
    ensures Inv(b')
  {
    if b' == Write(b) {
      WriteKeepsPairs(b);
      WriteKeepsSlots(b);
      MoveKeepsNumbers(b.w, b.reading);
      WriteKeepsReads(b);
    } else {
      ReadKeepsPairs(b);
      ReadKeepsSlots(b);
      ReadKeepsReads(b);
    }
  }

  lemma {:induction false} RunKeepsInv(run: seq<Buffer>, k: nat)
    requires Run(run) && k < |run|
    ensures Inv(run[k])
  {
    if k > 0 {
      RunKeepsInv(run, k - 1);
      assert Next(run[k - 1], run[k]);
      StepKeepsInv(run[k - 1], run[k]);
    }
  }

  // Over whole runs

  /** At any point of any run: the slot the writer stores into is not the one the reader
      holds, which holds the record last read, whole; the records read never go backwards. */
  lemma ReadsAreWholeAndRise(run: seq<Buffer>, k: nat)
    requires Run(run) && k < |run|
    ensures Rising(run[k].got)
    ensures var b := run[k]; b.reader.Holds? ==>
          && b.got != [] && b.Held() == Record(Last(b.got))
          && (b.w.Filling() ==> !(b.w.pair == b.reader.pair && b.w.slot == b.reader.slot))
  {
    RunKeepsInv(run, k);
  }

  /** The reader's step that begins a read. */
  predicate Begins(b: Buffer, b': Buffer) {
    (b.reader.Away? || b.reader.Holds?) && b'.reader.HasPair?
  }

  /** The read under way, or last ended, at `j` began with the step after `i`. */
  ghost predicate BeganAt(run: seq<Buffer>, i: nat, j: nat)
    requires i < j < |run|
  {
    Begins(run[i], run[i + 1]) && forall k :: i < k < j ==> !Begins(run[k], run[k + 1])
  }

  lemma StepKeepsFloor(b: Buffer, b': Buffer)
    requires Next(b, b') && !Begins(b, b') && !b.reader.Away?
    ensures b'.floor == b.floor && !b'.reader.Away?
  {
  }

  lemma BeginSetsFloor(b: Buffer, b': Buffer)
    requires Next(b, b') && Begins(b, b')
    ensures b'.floor == b.w.published
  {
  }

  lemma {:induction false} FloorStays(run: seq<Buffer>, i: nat, j: nat)
    requires Run(run) && i < j < |run| && BeganAt(run, i, j)
    ensures run[j].floor == run[i].w.published && !run[j].reader.Away?
  {
    var k := j - 1;
    assert Next(run[k], run[k + 1]);
    if i < k {
      FloorStays(run, i, k);
      assert !Begins(run[k], run[k + 1]);
      StepKeepsFloor(run[k], run[k + 1]);
    } else {
      BeginSetsFloor(run[k], run[k + 1]);
    }
  }

  /** A read returns a record at least as new as the last one published in Latest when it
      began. */
  lemma ReadsAreFresh(run: seq<Buffer>, i: nat, j: nat)
    requires Run(run) && i < j < |run| && BeganAt(run, i, j) && run[j].reader.Holds?
    ensures run[j].got != [] && Last(run[j].got) >= run[i].w.published
  {
    FloorStays(run, i, j);
    RunKeepsInv(run, j);
  }

  /** Whatever mix of calls made the reads of a run: the read-only-once calls deliver, in the
      order written, each record they find and each once. */
  lemma RunDelivers(run: seq<Buffer>, k: nat, calls: seq<Call>)
    requires Run(run) && k < |run| && Numbers(calls) == run[k].got
    ensures StrictlyRising(Deliver(calls).delivered)
    ensures forall n: nat :: n in Deliver(calls).delivered <==> n > 0 && Call(n, true) in calls
  {
    RunKeepsInv(run, k);
    DeliveredOnce(calls);
    DeliveredAll(calls);
  }

  /** Once such a call ends, the last record delivered is at least as new as the last one
      published in Latest when the call began. */
  lemma RunDeliversFresh(run: seq<Buffer>, i: nat, j: nat, calls: seq<Call>)
    requires Run(run) && i < j < |run| && BeganAt(run, i, j) && run[j].reader.Holds?
    requires Numbers(calls) == run[j].got && calls != [] && calls[|calls| - 1].once
    ensures Last(Deliver(calls).delivered) == Last(run[j].got) >= run[i].w.published
  {
    ReadsAreFresh(run, i, j);
    RunKeepsInv(run, j);
    DeliveredOnce(calls);
    LastReadIs(calls);
  }

  // Every call once a write has ended

  /** The writes ended: the one under way, its slot published or not, is not. */
  function Ended(w: Writer): nat {
    if w.step.Fill? || w.written == 0 then w.written else w.written - 1
  }

  /** Before the first write has ended nothing is read; from then on a read begins. */
  predicate StatusTells(b: Buffer) {
    && (!b.w.step.Fill? ==> b.w.written > 0)
    && Ended(b.w) <= b.w.published
    && (b.w.step.StoreIndex? || b.w.step.StoreLatest? || b.w.published == b.w.written)
    && (b.w.unread <==> Ended(b.w) > 0)
    && (!b.w.unread ==> b.reader.Away? && b.got == [])
  }

  lemma StepKeepsStatus(b: Buffer, b': Buffer)
    requires StatusTells(b) && Next(b, b')
    ensures StatusTells(b') && Ended(b.w) <= Ended(b'.w)
  {
    match b.w.step case Fill => case StoreIndex => case StoreLatest => case ChoosePair =>
    case ChooseSlot => case ClearSlot => case SetStatus =>
  }

  lemma {:induction false} RunKeepsStatus(run: seq<Buffer>, k: nat)
    requires Run(run) && k < |run|
    ensures StatusTells(run[k])
  {
    if k > 0 {
      RunKeepsStatus(run, k - 1);
      assert Next(run[k - 1], run[k]);
      StepKeepsStatus(run[k - 1], run[k]);
    }
  }

  /** Nothing is read before the first write has ended. */
  lemma NothingYet(run: seq<Buffer>, k: nat)
    requires Run(run) && k < |run| && Ended(run[k].w) == 0
    ensures run[k].got == [] && run[k].reader.Away?
  {
    RunKeepsStatus(run, k);
  }

  predicate ByReader(b: Buffer, b': Buffer) { b' == Read(b) }

  /** The reader's steps between two states. */
  function Turns(run: seq<Buffer>, i: nat, j: nat): nat
    requires i <= j < |run|
  {
    Steps(run, i, j, ByReader)
  }

  predicate Idle(b: Buffer) { b.reader.Away? || b.reader.Holds? }

  /** Where a call begun with `got` is after some of its reader's steps, `done` writes having ended
      before it. */
  predicate Calling(b: Buffer, got: seq<nat>, done: nat, turns: nat) {
    if turns >= 3 then |got| < |b.got| && got == b.got[..|got|] && done <= b.got[|got|]
    else
      && b.got == got && (turns == 0 <==> Idle(b)) && (turns == 1 <==> b.reader.HasPair?)
      && (turns > 0 ==> done <= b.floor)
  }

  lemma StepCalls(b: Buffer, b': Buffer, got: seq<nat>, done: nat, turns: nat)
    requires Inv(b) && StatusTells(b) && Next(b, b') && Calling(b, got, done, turns) && 0 < done <= Ended(b.w)
    ensures Calling(b', got, done, turns + if ByReader(b, b') then 1 else 0) && done <= Ended(b'.w)
  {
    StepKeepsStatus(b, b');
    if b' == Read(b) {
      match b.reader case Away => case HasPair(p) => case Announced(p) => case Holds(p, i) =>
    }
  }

  lemma StepOf(run: seq<Buffer>, k: nat) returns (b: Buffer, b': Buffer)
    requires Run(run) && k + 1 < |run|
    ensures b == run[k] && b' == run[k + 1] && Inv(b) && StatusTells(b) && Next(b, b')
  {
    RunKeepsInv(run, k);
    RunKeepsStatus(run, k);
    b, b' := run[k], run[k + 1];
  }

  lemma {:induction false} CallGoesOn(run: seq<Buffer>, i: nat, j: nat)
    requires Run(run) && i <= j < |run| && Idle(run[i]) && Ended(run[i].w) > 0
    ensures Calling(run[j], run[i].got, Ended(run[i].w), Turns(run, i, j)) && Ended(run[i].w) <= Ended(run[j].w)
  {
    if i < j {
      var k := j - 1;
      CallGoesOn(run, i, k);
      var b, b' := StepOf(run, k);
      StepCalls(b, b', run[i].got, Ended(run[i].w), Turns(run, i, k));
    }
  }

  /** A call made once a write has ended reads a record: after three steps of the reader, whatever
      the writer does between, there is one more, no older than that of the last write ended when
      the call was made. */
  lemma CallReads(run: seq<Buffer>, i: nat, j: nat)
    requires Run(run) && i <= j < |run| && Idle(run[i]) && Ended(run[i].w) > 0 && Turns(run, i, j) >= 3
    ensures run[i].got < run[j].got && run[j].got[|run[i].got|] >= Ended(run[i].w)
  {
    CallGoesOn(run, i, j);
  }

  // Every write

  /** The writer's steps up to here. */
  function Done(w: Writer): int {
    7 * Ended(w) + match w.step
                   case Fill => 0 case StoreIndex => 1 case StoreLatest => 2 case ChoosePair => 3
                   case ChooseSlot => 4 case ClearSlot => 5 case SetStatus => 6
  }

  predicate ByWriter(b: Buffer, b': Buffer) { b' == Write(b) }

  ghost function StatusStep(): (Buffer, Buffer) -> bool {
    (b: Buffer, b': Buffer) => StatusTells(b) && Next(b, b')
  }

  ghost function DoneFrom(start: int): (Buffer, nat, nat) -> bool {
    (b: Buffer, writes: nat, none: nat) => Done(b.w) == start + writes
  }

  lemma WritesCount(start: int)
    ensures forall b, b', m: nat, n: nat :: StatusStep()(b, b') && DoneFrom(start)(b, m, n) ==>
      DoneFrom(start)(b', m + if ByWriter(b, b') then 1 else 0, n + if ByReader(b, b') then 1 else 0)
  {
    forall b, b' | StatusTells(b) && Next(b, b')
      ensures Done(b'.w) == Done(b.w) + if ByWriter(b, b') then 1 else 0
    {
      DoneRises(b, b');
    }
  }

  lemma DoneRises(b: Buffer, b': Buffer)
    requires StatusTells(b) && Next(b, b')
    ensures Done(b'.w) == Done(b.w) + if ByWriter(b, b') then 1 else 0
  {
    match b.w.step case Fill => case StoreIndex => case StoreLatest => case ChoosePair =>
    case ChooseSlot => case ClearSlot => case SetStatus =>
  }

  lemma StatusSteps(run: seq<Buffer>, i: nat, j: nat)
    requires Run(run) && i <= j < |run|
    ensures forall k :: i <= k < j ==> StatusStep()(run[k], run[k + 1])
  {
    forall k | i <= k < j ensures StatusStep()(run[k], run[k + 1]) {
      var b, b' := StepOf(run, k);
    }
  }

  lemma WriterSteps(run: seq<Buffer>, i: nat, j: nat)
    requires Run(run) && i <= j < |run|
    ensures Done(run[j].w) == Done(run[i].w) + Steps(run, i, j, ByWriter)
  {
    var start := Done(run[i].w);
    StatusSteps(run, i, j);
    WritesCount(start);
    StepsKeep(run, i, j, StatusStep(), ByWriter, ByReader, DoneFrom(start));
  }

  lemma MoreEnded(w: Writer, w': Writer)
    requires Done(w') >= Done(w) + 7
    ensures Ended(w') > Ended(w)
  {
  }

  /** After seven steps of the writer one more write has ended, whatever the reader does. */
  lemma WriteEnds(run: seq<Buffer>, i: nat, j: nat)
    requires Run(run) && i <= j < |run| && Steps(run, i, j, ByWriter) >= 7
    ensures Ended(run[j].w) > Ended(run[i].w)
  {
    WriterSteps(run, i, j);
    MoreEnded(run[i].w, run[j].w);
  }
}
