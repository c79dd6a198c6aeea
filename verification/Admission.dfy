/** The soft kernel's admission test of optional instances under EDF, without event-driven
    tasks, against its specification. */
module Admission {
  import opened Arith
  import opened Common
  import opened FirmPattern
  import opened FirmTask

  newtype int32 = x: int | -0x8000_0000 <= x < 0x8000_0000

  const LIMIT: int := 0x3FFF_FFFF

  /** A TCB in the arrival queue: the time of its next release and that of its next mandatory
      one, instance `next` of the round. */
  datatype Tcb = Tcb(period: Split, wcet: int, m: nat, k: nat, arrival: Split, mandatory: Split, next: nat) {
    /** As the handler leaves it: every release up to now served. */
    predicate Valid(now: int)
      requires Firm(m, k)
    {
      && k <= 255 && Period(period) && 0 <= wcet < 0x8000_0000
      && arrival.InOrder() && mandatory.InOrder()
      && now <= arrival.Value() <= mandatory.Value()
      && next < k && Mandatory(next, m, k)
    }
  }

  type Task = t: Tcb | Firm(t.m, t.k) && t.period.Value() > 0
    witness Tcb(Split(0, 1), 0, 1, 1, Split(0, 0), Split(0, 0), 0)

  function Min(a: int, b: int): int { if a < b then a else b }

  /** The time at most that a task's mandatory instances need in the `span` from the next of
      them to a deadline: of the whole periods in it, ceil(n m / k) instances, and the last. */
  function Interference(t: Task, span: int): int {
    if span <= 0 then 0
    else
      var whole := span / t.period.Value();
      Full(t, whole) + Last(t, whole, span - whole * t.period.Value())
  }

  /** The mandatory instances of whole periods, in full. */
  function Full(t: Task, whole: nat): int {
    Quota(whole, t.m, t.k) * t.wcet
  }

  /** Of the last, not a whole period, what there is before the deadline. */
  function Last(t: Task, whole: nat, rest: int): int {
    if Mandatory(t.next + whole, t.m, t.k) then Min(t.wcet, rest) else 0
  }

  function Demand(queue: seq<Task>, deadline: int): int {
    if queue == [] then 0
    else
      var t := queue[|queue| - 1];
      Demand(queue[..|queue| - 1], deadline) + Interference(t, deadline - t.mandatory.Value())
  }

  /** The specification: the instance's WCET and every mandatory instance before its
      deadline, each counted up to it, fit. */
  predicate Fits(queue: seq<Task>, wcet: int, deadline: int, now: int) {
    now + wcet + Demand(queue, deadline) < deadline
  }

  // MulDiv and MulDivUp

  /** a / c * b + a % c * b / c is a * b / c. */
  lemma DivideFirst(a: nat, b: nat, c: nat)
    requires 0 < c
    ensures a / c * b >= 0 && a % c * b >= 0
    ensures a / c * b + (a % c * b) / c == (a * b) / c
    ensures a / c * b + (a % c * b + c - 1) / c == (a * b + c - 1) / c
  {
    var q, r := a / c, a % c;
    assert a == q * c + r;
    Distributes(q * c, r, b);
    assert (q * c) * b == (q * b) * c;
    MulMonotone(0, q, b);
    MulMonotone(0, r, b);
    var low, up := r * b, r * b + c - 1;
    Distributes(q * b, low / c, c);
    Distributes(q * b, up / c, c);
    assert low == (low / c) * c + low % c && up == (up / c) * c + up % c;
    DivModUnique(a * b, c, q * b + low / c, low % c);
    DivModUnique(a * b + c - 1, c, q * b + up / c, up % c);
  }

  lemma QuotaSmall(a: nat, m: nat, k: nat)
    requires Firm(m, k)
    ensures Quota(a, m, k) <= a
  {
    QuotaBounds(a, m, k);
    MulMonotone(m, k, a);
    assert m * a == a * m && k * a == a * k;
    MulCancels(Quota(a, m, k) - 1, a, k);
  }

  lemma QuotientSmall(a: nat, m: nat, k: nat)
    requires Firm(m, k)
    ensures 0 <= a / k * m <= a
  {
    var q := a / k;
    MulMonotone(m, k, q);
    MulMonotone(0, q, m);
    assert m * q == q * m && k * q == q * k;
    assert a == q * k + a % k;
  }

  /** MulDivUp, in 32 bits: the quota of a instances. */
  function MulDivUp(a: int32, m: int32, k: int32): (r: int32)
    requires 0 <= a && 0 < m <= k <= 255
    ensures r as int == Quota(a as int, m as int, k as int)
  {
    DivideFirst(a as int, m as int, k as int);
    QuotaSmall(a as int, m as int, k as int);
    QuotientSmall(a as int, m as int, k as int);
    MulMonotone((a % k) as int, 254, m as int);
    a / k * m + (a % k * m + k - 1) / k
  }

  /** How far past an instance the next mandatory one can be. */
  lemma SpreadSmall(a: nat, m: nat, k: nat)
    requires Firm(m, k)
    ensures Spread(a, m, k) < a + k
  {
    QuotaBounds(a, m, k);
    SpreadBounds(a, m, k);
    Distributes(Quota(a, m, k), -1, k);
    Distributes(a, k, m);
    MulMonotone(1, m, k);
    assert k * m == m * k;
    MulCancels(Spread(a, m, k), a + k, m);
  }

  lemma SpreadTerms(q: nat, a: nat, m: nat, k: nat)
    requires Firm(m, k) && k <= 255 && q == Quota(a, m, k)
    ensures q / m * k + (q % m * k) / m == Spread(a, m, k) < a + k
    ensures 0 <= q / m * k && 0 <= q % m * k <= 0xFE01
  {
    DivideFirst(q, k, m);
    SpreadSmall(a, m, k);
    MulMonotone(q % m, 254, k);
  }

  function Divide(a: int32, b: int32): (r: int32)
    requires 0 <= a && 0 < b
    ensures 0 <= r <= a && r as int == (a as int) / (b as int)
  {
    QuotientBelow(a as int, b as int);
    a / b
  }

  function Modulo(a: int32, b: int32): (r: int32)
    requires 0 <= a && 0 < b
    ensures 0 <= r < b && r as int == (a as int) % (b as int)
  {
    a % b
  }

  function Multiply32(a: int32, b: int32): (r: int32)
    requires 0 <= a as int * b as int < 0x8000_0000
    ensures r as int == a as int * b as int
  {
    a * b
  }

  /** MulDiv, in 32 bits: a / c * b + a % c * b / c. */
  function MulDiv(a: int32, b: int32, c: int32): (r: int32)
    requires 0 <= a && 0 < c && 0 <= b
    requires 0 <= (a as int / c as int) * b as int && 0 <= (a as int % c as int) * b as int <= 0xFE01
    requires (a as int / c as int) * b as int + ((a as int % c as int) * b as int) / c as int < 0x8000_0000
    ensures r as int == (a as int / c as int) * b as int + ((a as int % c as int) * b as int) / c as int
  {
    Multiply32(Divide(a, c), b) + Divide(Multiply32(Modulo(a, c), b), c)
  }

  /** MulDiv of that quota: the expression of the pattern. */
  function SpreadOf(a: int32, m: int32, k: int32): (r: int32)
    requires 0 <= a < 0x4000_0100 && 0 < m <= k <= 255
    ensures r as int == Spread(a as int, m as int, k as int)
  {
    var q := MulDivUp(a, m, k);
    SpreadTerms(q as int, a as int, m as int, k as int);
    MulDiv(q, k, m)
  }

  // IsTaskSchedulable

  lemma WholeSpan(t: Task, span: int)
    requires 0 < span
    ensures var p, whole := t.period.Value(), span / t.period.Value();
      0 <= whole <= span && 0 <= whole * p <= span && (span < p ==> whole == 0)
  {
    var p, whole := t.period.Value(), span / t.period.Value();
    assert span == whole * p + span % p;
    MulMonotone(0, whole, p);
    MulMonotone(1, p, whole);
    assert p * whole == whole * p && 1 * whole == whole;
  }

  lemma InterferenceLasts(t: Task, span: int)
    requires 0 <= t.wcet
    ensures 0 <= Interference(t, span)
  {
    if span > 0 {
      WholeSpan(t, span);
      MulMonotone(0, Quota(span / t.period.Value(), t.m, t.k), t.wcet);
    }
  }

  lemma {:induction false} DemandGrows(queue: seq<Task>, i: nat, deadline: int)
    requires i <= |queue| && forall j :: 0 <= j < |queue| ==> queue[j].wcet >= 0
    ensures Demand(queue[..i], deadline) <= Demand(queue, deadline)
  {
    if i < |queue| {
      var t, rest := queue[|queue| - 1], queue[..|queue| - 1];
      DemandGrows(rest, i, deadline);
      assert rest[..i] == queue[..i];
      InterferenceLasts(t, deadline - t.mandatory.Value());
    } else {
      assert queue[..i] == queue;
    }
  }

  /** Past the first task released at the deadline or later, none is counted. */
  lemma {:induction false} NoneLeft(queue: seq<Task>, i: nat, deadline: int)
    requires i <= |queue| && forall j :: i <= j < |queue| ==> queue[j].mandatory.Value() >= deadline
    ensures Demand(queue[..i], deadline) == Demand(queue, deadline)
  {
    if i < |queue| {
      NoneLeft(queue[..|queue| - 1], i, deadline);
      assert queue[..|queue| - 1][..i] == queue[..i];
    } else {
      assert queue[..i] == queue;
    }
  }

  /** The whole periods: MulDivUp instances, unless they are too much. */
  method AddWhole(t: Task, whole: int32, totalWork: int32) returns (work: int32, over: bool)
    requires Firm(t.m, t.k) && t.k <= 255 && 0 <= t.wcet < 0x8000_0000
    requires 0 <= whole && 0 <= totalWork as int <= LIMIT
    ensures var sum := totalWork as int + Full(t, whole as int);
      (over <==> sum > LIMIT) && (!over ==> work as int == sum)
  {
    var wcet := t.wcet as int32;
    var mandatory := MulDivUp(whole, t.m as int32, t.k as int32);
    if wcet > 0 && mandatory > (0x3FFF_FFFF - totalWork) / wcet {
      TooMuch(mandatory as int, wcet as int, LIMIT - totalWork as int);
      return totalWork, true;
    }
    if wcet > 0 {
      Enough(mandatory as int, wcet as int, LIMIT - totalWork as int);
    }
    MulMonotone(0, mandatory as int, wcet as int);
    return totalWork + mandatory * wcet, false;
  }

  /** The last period, up to the deadline. */
  method AddLast(t: Task, whole: int32, rest: int32, totalWork: int32) returns (work: int32)
    requires Firm(t.m, t.k) && t.k <= 255 && t.next < t.k && 0 <= t.wcet < 0x8000_0000
    requires 0 <= whole as int <= LIMIT && 0 <= rest as int <= LIMIT && 0 <= totalWork as int <= LIMIT
    ensures work as int == totalWork as int + Last(t, whole as int, rest as int)
  {
    var partial := whole + t.next as int32;
    SpreadFixed(partial as int, t.m, t.k);
    MandatoryRises(partial as int, t.m, t.k);
    work := totalWork;
    if partial == SpreadOf(partial, t.m as int32, t.k as int32) {
      work := work + if rest > t.wcet as int32 then t.wcet as int32 else rest;
    }
  }

  /** The whole periods in a span: none of one of 2^30 or more. */
  method WholePeriods(t: Task, span: int32) returns (whole: int32, rest: int32)
    requires Period(t.period) && 0 < span as int <= LIMIT
    ensures 0 <= whole <= span && 0 <= rest <= span
    ensures whole as int == span as int / t.period.Value()
    ensures rest as int == span as int - whole as int * t.period.Value()
  {
    WholeSpan(t, span as int);
    whole, rest := 0, span;
    if t.period.high == 0 {
      var low := t.period.low as int32;
      whole := Divide(span, low);
      rest := span - whole * low;
    }
  }

  lemma InterferenceIs(t: Task, span: int, whole: nat, rest: nat)
    requires 0 < span && 0 <= t.wcet && t.next < t.k && Mandatory(t.next, t.m, t.k)
    requires whole == span / t.period.Value() && rest == span - whole * t.period.Value()
    ensures Interference(t, span) == Full(t, whole) + Last(t, whole, rest)
    ensures 0 <= Full(t, whole) && 0 <= Last(t, whole, rest) <= rest
    ensures whole == 0 ==> Interference(t, span) == Min(t.wcet, span)
  {
    QuotaUnique(0, t.m, t.k, 0);
    MulMonotone(0, Quota(whole, t.m, t.k), t.wcet);
  }

  /** The work of a task before the deadline, in 32 bits, on top of what was counted. */
  method AddTask(t: Task, now: int, span: int32, totalWork: int32) returns (work: int32, over: bool)
    requires t.Valid(now) && 0 < span as int <= LIMIT && 0 <= totalWork as int <= LIMIT
    ensures over <==> totalWork as int + Interference(t, span as int) > LIMIT
    ensures !over ==> work as int == totalWork as int + Interference(t, span as int)
  {
    var whole, rest := WholePeriods(t, span);
    InterferenceIs(t, span as int, whole as int, rest as int);
    if whole > 0 {
      work, over := AddWhole(t, whole, totalWork);
      if over {
        return;
      }
      work := AddLast(t, whole, rest, work);
    } else {
      var wcet := t.wcet as int32;
      work := totalWork + if span > wcet then wcet else span;
    }
    over := work > 0x3FFF_FFFF;
  }

  lemma TooMuch(a: int, b: int, limit: int)
    requires 0 < b && a > limit / b && 0 <= limit
    ensures a * b > limit
  {
    MulMonotone(limit / b + 1, a, b);
    Distributes(limit / b, 1, b);
  }

  lemma Enough(a: int, b: int, limit: int)
    requires 0 < b && a <= limit / b && 0 <= limit
    ensures a * b <= limit
  {
    MulMonotone(a, limit / b, b);
  }

  /** The comparison of a split time with the deadline, taken apart at 2^30. */
  function NotBefore(t: Split, deadline: int32): (r: bool)
    requires t.InOrder() && 0 <= deadline
    ensures r <==> t.Value() >= deadline as int
  {
    var deadlineHigh := if deadline > 0x3FFF_FFFF then 1 else 0;
    t.high > deadlineHigh || (t.high == deadlineHigh && t.low >= deadline as int % WRAP)
  }

  /** A time before the deadline that its high part alone puts after it. */
  predicate Missed(t: Split, deadline: int32) {
    t.Value() < deadline as int && t.high > if deadline > 0x3FFF_FFFF then 1 else 0
  }

  /** The time from a split one to the deadline, not above 0 when there is none: what the test
      sees of it. It is right unless it misses the time, which needs parts out of order. */
  function SpanTo(t: Split, deadline: int32): (span: int32)
    requires 0 <= t.high && -WRAP <= t.low < WRAP && 0 <= deadline
    requires deadline as int - t.low < 0x8000_0000
    ensures (if t.Value() < deadline as int then span as int == deadline as int - t.Value() else span <= 0)
       <==> !Missed(t, deadline)
    ensures t.InOrder() ==> !Missed(t, deadline)
  {
    var deadlineHigh := if deadline > 0x3FFF_FFFF then 1 else 0;
    if t.high > deadlineHigh then 0
    else if t.high > 0 then deadline - t.low as int32 - 0x4000_0000
    else deadline - t.low as int32
  }

  /** IsTaskSchedulable: the answer is that of the specification, whatever it returns early,
      and no value leaves 32 bits. */
  method IsTaskSchedulable(queue: seq<Task>, wcet: int32, deadline: int32, now: int32) returns (admitted: bool)
    requires forall i :: 0 <= i < |queue| ==> queue[i].Valid(now as int)
    requires forall i, j :: 0 <= i <= j < |queue| ==> queue[i].arrival.Value() <= queue[j].arrival.Value()
    requires 0 <= now as int <= WRAP && 0 <= wcet && now as int + wcet as int < deadline as int <= now as int + LIMIT
    ensures admitted == Fits(queue, wcet as int, deadline as int, now as int)
  {
    var totalWork := wcet;
    var i := 0;
    while i < |queue|
      invariant 0 <= i <= |queue|
      invariant 0 <= totalWork as int <= LIMIT
      invariant totalWork as int == wcet as int + Demand(queue[..i], deadline as int)
    {
      if NotBefore(queue[i].arrival, deadline) {
        break;
      }
      assert queue[..i + 1][..i] == queue[..i];
      var tmp := SpanTo(queue[i].mandatory, deadline);
      if tmp > 0 {
        InterferenceLasts(queue[i], tmp as int);
        var over;
        totalWork, over := AddTask(queue[i], now as int, tmp, totalWork);
        if over {
          DemandGrows(queue, i + 1, deadline as int);
          return false;
        }
      }
      i := i + 1;
    }
    NoneLeft(queue, i, deadline as int);
    admitted := totalWork + now < deadline;
  }
}
