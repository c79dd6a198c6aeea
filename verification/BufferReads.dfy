/** What OSGetReferenceBuffer and OSGetCopyBuffer hand to their caller, given the numbers of
    the records the reads of a 3- or 4-slot buffer return. */
module BufferReads {

  /** A slot holds the number of the record written into it; one being filled, byte by byte,
      is Torn. */
  datatype Slot = Torn | Record(number: nat)

  function Number(s: Slot): nat {
    match s case Record(n) => n case Torn => 0
  }

  predicate Rising(s: seq<nat>) {
    forall j, k :: 0 <= j < k < |s| ==> s[j] <= s[k]
  }

  predicate StrictlyRising(s: seq<nat>) {
    forall j, k :: 0 <= j < k < |s| ==> s[j] < s[k]
  }

  function Last(s: seq<nat>): nat {
    if s == [] then 0 else s[|s| - 1]
  }

  /** One call: `once` for OS_READ_ONLY_ONCE. */
  datatype Call = Call(number: nat, once: bool)

  function Numbers(calls: seq<Call>): (r: seq<nat>)
    ensures |r| == |calls| && forall k :: 0 <= k < |r| ==> r[k] == calls[k].number
  {
    seq(|calls|, k requires 0 <= k < |calls| => calls[k].number)
  }

  /** LastRead after the calls, and the records delivered to those that read only once. */
  datatype Outcome = Outcome(lastRead: nat, delivered: seq<nat>)

  function Deliver(calls: seq<Call>): Outcome {
    if calls == [] then Outcome(0, [])
    else
      var o := Deliver(calls[..|calls| - 1]);
      var c := calls[|calls| - 1];
      if c.once && c.number != o.lastRead then Outcome(c.number, o.delivered + [c.number]) else o
  }

  /** Whatever the mix of the two kinds of call, a record is delivered once at most, in the
      order written. */
  lemma {:induction false} DeliveredOnce(calls: seq<Call>)
    requires Rising(Numbers(calls))
    ensures StrictlyRising(Deliver(calls).delivered)
    ensures Deliver(calls).lastRead == Last(Deliver(calls).delivered) <= Last(Numbers(calls))
  {
    if calls != [] {
      var before := calls[..|calls| - 1];
      assert Numbers(before) == Numbers(calls)[..|before|];
      DeliveredOnce(before);
      if before != [] {
        assert Last(Numbers(before)) == Numbers(calls)[|before| - 1] <= Numbers(calls)[|before|];
      }
    }
  }

  /** What is delivered is what the read-only-once calls find: no record is skipped. */
  lemma {:induction false} DeliveredAll(calls: seq<Call>)
    requires Rising(Numbers(calls))
    ensures forall n: nat :: n in Deliver(calls).delivered <==> n > 0 && Call(n, true) in calls
  {
    if calls != [] {
      var before, c := calls[..|calls| - 1], calls[|calls| - 1];
      assert calls == before + [c];
      assert Numbers(before) == Numbers(calls)[..|before|];
      DeliveredAll(before);
      DeliveredOnce(before);
      var d := Deliver(before).delivered;
      assert c.number == Last(d) && c.number > 0 ==> c.number in d;
    }
  }

  /** After a read-only-once call, LastRead is the record it found. */
  lemma LastReadIs(calls: seq<Call>)
    requires calls != [] && calls[|calls| - 1].once
    ensures Deliver(calls).lastRead == calls[|calls| - 1].number == Last(Numbers(calls))
  {
  }
}
