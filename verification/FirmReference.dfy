/** The admission test written apart from the kernel (tools/differential.py), over a clock that
    never wraps, from release instants and instance numbers alone, and the kernel's own view of
    its tasks at any turn of its clock: both tests give the same answer. */
module FirmReference {
  import opened Arith
  import opened Common
  import opened FirmPattern
  import opened FirmTask
  import opened Admission

  /** A task of the reference: released at `start` and every period from there. */
  datatype Decl = Decl(period: int, start: int, wcet: int, m: nat, k: nat)

  type Firm = d: Decl | FirmPattern.Firm(d.m, d.k) && d.period > 0
    witness Decl(1, 0, 0, 1, 1)

  /** The first release at or after a time. */
  function FirstRelease(d: Firm, now: int): nat {
    if now <= d.start then 0
    else
      QuotientBelow(now - d.start + d.period - 1, d.period);
      (now - d.start + d.period - 1) / d.period
  }

  function ReleaseAt(d: Firm, n: nat): int {
    d.start + n * d.period
  }

  function FirstMandatory(d: Firm, now: int): nat {
    NextMandatory(FirstRelease(d, now), d.m, d.k)
  }

  /** The reference's count for one task. */
  function Term(d: Firm, deadline: int, now: int): int {
    var n := FirstMandatory(d, now);
    var span := deadline - ReleaseAt(d, n);
    if span <= 0 then 0
    else
      var whole := span / d.period;
      Quota(whole, d.m, d.k) * d.wcet
      + if Mandatory(n + whole, d.m, d.k) then Min(d.wcet, span - whole * d.period) else 0
  }

  function Terms(tasks: seq<Firm>, deadline: int, now: int): int {
    if tasks == [] then 0
    else Terms(tasks[..|tasks| - 1], deadline, now) + Term(tasks[|tasks| - 1], deadline, now)
  }

  /** The reference's answer. */
  predicate Admits(tasks: seq<Firm>, wcet: int, deadline: int, now: int) {
    now < deadline - wcet && now + wcet + Terms(tasks, deadline, now) < deadline
  }

  /** The reference's loop over the releases of one task. */
  method ReferenceTerm(d: Firm, deadline: int, now: int) returns (work: int)
    ensures work == Term(d, deadline, now)
  {
    var p := d.period;
    var first := FirstRelease(d, now);
    ghost var n := FirstMandatory(d, now);
    NextMandatoryIsFirst(first, d.m, d.k);
    while d.start + first * p < deadline && !Mandatory(first, d.m, d.k)
      invariant first <= n
      decreases n - first
    {
      first := first + 1;
    }
    MulMonotone(first, n, p);
    if d.start + first * p >= deadline {
      return 0;
    }
    var whole := (deadline - d.start - first * p) / p;
    work := Quota(whole, d.m, d.k) * d.wcet;
    Distributes(first, whole, p);
    if Mandatory(first + whole, d.m, d.k) {
      work := work + Min(d.wcet, deadline - d.start - (first + whole) * p);
    }
  }

  /** admission_test. */
  method AdmissionTest(tasks: seq<Firm>, wcet: int, deadline: int, now: int) returns (admitted: bool)
    ensures admitted == Admits(tasks, wcet, deadline, now)
  {
    if deadline - wcet <= now {
      return false;
    }
    var work := wcet;
    for i := 0 to |tasks|
      invariant work == wcet + Terms(tasks[..i], deadline, now)
    {
      var term := ReferenceTerm(tasks[i], deadline, now);
      assert tasks[..i + 1][..i] == tasks[..i];
      work := work + term;
    }
    assert tasks[..|tasks|] == tasks;
    admitted := now + work < deadline;
  }

  // The kernel's tasks

  /** The TCB of a task as the kernel has it at a time, in turn `epoch` of its clock. */
  ghost predicate Sees(t: Task, d: Firm, epoch: int, now: int) {
    && t.period.Value() == d.period && t.wcet == d.wcet && t.m == d.m && t.k == d.k
    && epoch * WRAP + t.mandatory.Value() == ReleaseAt(d, FirstMandatory(d, now))
    && t.next == FirstMandatory(d, now) % d.k
  }

  /** The round's instance `next` stands for instance n. */
  lemma SameInRound(n: nat, next: nat, x: nat, m: nat, k: nat)
    requires FirmPattern.Firm(m, k) && next == n % k
    ensures Mandatory(n + x, m, k) == Mandatory(next + x, m, k)
  {
    Parts(n, k);
    Repeats(n / k, next + x, m, k);
  }

  lemma SameTerm(t: Task, d: Firm, epoch: int, deadline: int, now: int)
    requires Sees(t, d, epoch, now)
    ensures Interference(t, deadline - epoch * WRAP - t.mandatory.Value()) == Term(d, deadline, now)
  {
    var n := FirstMandatory(d, now);
    var span := deadline - ReleaseAt(d, n);
    if span > 0 {
      WholeSpan(t, span);
      SameInRound(n, t.next, span / d.period, d.m, d.k);
    }
  }

  lemma {:induction false} SameTerms(views: seq<Task>, tasks: seq<Firm>, epoch: int, deadline: int, now: int)
    requires |views| == |tasks| && forall i :: 0 <= i < |views| ==> Sees(views[i], tasks[i], epoch, now)
    ensures Demand(views, deadline - epoch * WRAP) == Terms(tasks, deadline, now)
  {
    if views != [] {
      var last := |views| - 1;
      SameTerms(views[..last], tasks[..last], epoch, deadline, now);
      SameTerm(views[last], tasks[last], epoch, deadline, now);
    }
  }

  /** The order of the tasks does not matter. */
  lemma {:induction false} DemandWithout(queue: seq<Task>, i: nat, deadline: int)
    requires i < |queue|
    ensures Demand(queue, deadline)
         == Demand(queue[..i] + queue[i + 1..], deadline)
           + Interference(queue[i], deadline - queue[i].mandatory.Value())
  {
    var last := |queue| - 1;
    if i < last {
      DemandWithout(queue[..last], i, deadline);
      var rest := queue[..i] + queue[i + 1..];
      assert rest[..|rest| - 1] == queue[..last][..i] + queue[..last][i + 1..];
      assert rest[|rest| - 1] == queue[last] && queue[..last][i] == queue[i];
    } else {
      assert queue[..i] + queue[i + 1..] == queue[..last];
    }
  }

  lemma FindIn(a: seq<Task>, t: Task, b: seq<Task>) returns (i: nat)
    requires multiset(a) + multiset{t} == multiset(b)
    ensures i < |b| && b[i] == t && multiset(b[..i] + b[i + 1..]) == multiset(a)
  {
    assert multiset(b)[t] > 0;
    i :| 0 <= i < |b| && b[i] == t;
    var rest := b[..i] + b[i + 1..];
    assert b == b[..i] + ([t] + b[i + 1..]);
    assert multiset(b) == multiset(rest) + multiset{t};
    assert multiset(a) == multiset(b) - multiset{t} == multiset(rest);
  }

  lemma {:induction false} DemandPermuted(a: seq<Task>, b: seq<Task>, deadline: int)
    requires multiset(a) == multiset(b)
    ensures Demand(a, deadline) == Demand(b, deadline)
    decreases |a|
  {
    if a == [] {
      assert |b| == |multiset(b)| == |multiset(a)|;
    } else {
      var last := |a| - 1;
      assert a == a[..last] + [a[last]];
      var i := FindIn(a[..last], a[last], b);
      DemandPermuted(a[..last], b[..i] + b[i + 1..], deadline);
      DemandWithout(b, i, deadline);
    }
  }

  /** ScheduleNextTask's condition for an optional instance: one whose deadline fell before a
      wraparound, below 0 now, is refused by the first comparison. */
  method KernelAdmits(queue: seq<Task>, wcet: int32, deadline: int32, now: int32) returns (admitted: bool)
    requires forall i :: 0 <= i < |queue| ==> queue[i].Valid(now as int)
    requires forall i, j :: 0 <= i <= j < |queue| ==> queue[i].arrival.Value() <= queue[j].arrival.Value()
    requires 0 <= now as int <= WRAP && 0 <= wcet
    requires -0x8000_0000 <= deadline as int - wcet as int && deadline as int <= now as int + LIMIT
    ensures admitted ==
      (now as int + wcet as int < deadline as int && Fits(queue, wcet as int, deadline as int, now as int))
  {
    if deadline - wcet <= now {
      return false;
    }
    admitted := IsTaskSchedulable(queue, wcet, deadline, now);
  }

  /** At any turn of the kernel's clock, the arrival queue in any order of the tasks' own, the
      kernel's answer is the reference's. */
  method SameAnswer(queue: seq<Task>, views: seq<Task>, tasks: seq<Firm>, epoch: int, wcet: int32, deadline: int32,
                    now: int32)
    returns (kernel: bool, reference: bool)
    requires forall i :: 0 <= i < |queue| ==> queue[i].Valid(now as int)
    requires forall i, j :: 0 <= i <= j < |queue| ==> queue[i].arrival.Value() <= queue[j].arrival.Value()
    requires 0 <= now as int <= WRAP && 0 <= wcet
    requires -0x8000_0000 <= deadline as int - wcet as int && deadline as int <= now as int + LIMIT
    requires |views| == |tasks| && multiset(queue) == multiset(views)
    requires forall i :: 0 <= i < |views| ==> Sees(views[i], tasks[i], epoch, epoch * WRAP + now as int)
    ensures kernel == reference == Admits(tasks, wcet as int, epoch * WRAP + deadline as int, epoch * WRAP + now as int)
  {
    kernel := KernelAdmits(queue, wcet, deadline, now);
    reference := AdmissionTest(tasks, wcet as int, epoch * WRAP + deadline as int, epoch * WRAP + now as int);
    DemandPermuted(queue, views, deadline as int);
    SameTerms(views, tasks, epoch, epoch * WRAP + deadline as int, epoch * WRAP + now as int);
  }

  // What the handler leaves

  /** What the admission test sees of a TCB. */
  function Seen(t: FirmTcb, wcet: int): Tcb
    reads t
  {
    Tcb(t.period, wcet, t.m, t.k, t.arrival, t.mandatory, t.nextMandatoryInstance)
  }

  ghost function Declared(t: FirmTcb, wcet: int): Decl {
    Decl(t.period.Value(), t.first, wcet, t.m, t.k)
  }

  /** The releases up to now served, and no mandatory instance released just now: it would be
      ready, and no optional one considered. */
  ghost predicate Quiet(t: FirmTcb, now: int)
    reads t
    requires t.Valid()
  {
    && now < t.ReleaseTime(t.released)
    && (t.released > 0 ==> t.ReleaseTime(t.released - 1) <= now)
    && (t.released > 0 && t.ReleaseTime(t.released - 1) == now ==> !Mandatory(t.released - 1, t.m, t.k))
  }

  /** The release after now, found from the time alone. */
  lemma FirstIs(d: Firm, now: int, released: nat)
    requires now < ReleaseAt(d, released) && (released > 0 ==> ReleaseAt(d, released - 1) <= now)
    ensures FirstRelease(d, now)
         == if released > 0 && ReleaseAt(d, released - 1) == now then released - 1 else released
  {
    var p := d.period;
    if released > 0 {
      var x := now - d.start;
      Distributes(released - 1, 1, p);
      MulMonotone(0, released - 1, p);
      if x > (released - 1) * p {
        DivModUnique(x + p - 1, p, released, x - (released - 1) * p - 1);
      } else if x > 0 {
        DivModUnique(x + p - 1, p, released - 1, p - 1);
      } else {
        MulCancels(released - 1, 1, p);
      }
    }
  }

  /** The TCBs as the handler leaves them are what the test needs, and the reference's tasks as
      the kernel sees them. */
  lemma SeenSees(t: FirmTcb, wcet: int, now: int)
    requires t.Valid() && t.InOrder() && t.period.Value() > 0 && 0 <= wcet < 0x8000_0000
    requires t.epoch * WRAP <= now && Quiet(t, now)
    ensures FirmPattern.Firm(t.m, t.k) && Seen(t, wcet).Valid(now - t.epoch * WRAP)
    ensures Sees(Seen(t, wcet), Declared(t, wcet), t.epoch, now)
  {
    var d: Firm := Declared(t, wcet);
    var n := NextMandatory(t.released, t.m, t.k);
    NextMandatoryIsFirst(t.released, t.m, t.k);
    SameInRound(n, t.nextMandatoryInstance, 0, t.m, t.k);
    t.MandatoryAfterArrival();
    FirstIs(d, now, t.released);
    if t.released > 0 && t.ReleaseTime(t.released - 1) == now {
      NextAfterOptional(t.released - 1, t.m, t.k);
    }
  }

  /** A release served late, after the wraparound that followed it, can leave the next mandatory
      one out of order: due 3 ticks before the next turn, it is counted as in it, and the test
      does not see it before a deadline there. */
  lemma LateUnseen()
    ensures var period, arrival := Split(0, 0x2000_0000), Split(0, -3);
      var product := Multiply(period, 2);
      var mandatory := product.(low := product.low + arrival.low).Carry();
      && mandatory.Value() == arrival.Value() + 2 * period.Value() == WRAP - 3
      && !mandatory.InOrder() && Missed(mandatory, 0x3FFF_FFFF) && SpanTo(mandatory, 0x3FFF_FFFF) == 0
  {
  }
}
