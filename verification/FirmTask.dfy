/** The soft kernel's bookkeeping of an (m,k)-firm task: the handler finds each release
    mandatory or not, and the time of the next mandatory one, from counters it keeps. */
module FirmTask {
  import opened Arith
  import opened Common
  import opened FirmPattern

  /** A time kept split at 2^30. */
  datatype Split = Split(high: int, low: int) {
    function Value(): int { high * WRAP + low }

    /** The parts as the comparison of times expects them. */
    predicate InOrder() { 0 <= high && 0 <= low < WRAP }

    /** What each wraparound of the clock does to it. */
    function Shift(): Split {
      if high > 0 then Split(high - 1, low) else Split(high, low - WRAP)
    }

    /** The carry after an addition to the low part. */
    function Carry(): Split {
      if low > 0x3FFF_FFFF then Split(high + 1, low % WRAP) else this
    }
  }

  /** Multiply46_16, its shifts and masks quotients and remainders: sixteen bits at a time. */
  function Multiply(a: Split, b: nat): Split {
    if b == 0 then Split(0, 0)
    else
      var low := (a.low % 0x1_0000) * b;
      var rest := low / 0x1_0000 + (a.low / 0x1_0000) * b;
      Split(a.high * b + rest / 0x4000, (rest % 0x4000) * 0x1_0000 + low % 0x1_0000)
  }

  /** A period as ValidTiming has it: 16 bits high, below 2^30 low. */
  predicate Period(a: Split) {
    0 <= a.high < 0x1_0000 && 0 <= a.low < WRAP
  }

  /** The product is exact, its low part below 2^30. */
  lemma MultiplyExact(a: Split, b: nat)
    requires Period(a)
    ensures Multiply(a, b).Value() == a.Value() * b && 0 <= Multiply(a, b).low < WRAP
    ensures 0 <= Multiply(a, b).high
  {
    var lo, hi := a.low % 0x1_0000, a.low / 0x1_0000;
    assert a.low == hi * 0x1_0000 + lo;
    Distributes(a.high * WRAP, a.low, b);
    Distributes(hi * 0x1_0000, lo, b);
    assert (a.high * WRAP) * b == (a.high * b) * WRAP;
    assert (hi * 0x1_0000) * b == (hi * b) * 0x1_0000;
    MulMonotone(0, lo, b);
    MulMonotone(0, hi, b);
    MulMonotone(0, a.high, b);
  }

  /** With a multiplier of eight bits no intermediate value leaves 31. */
  lemma MultiplyFits(a: Split, b: nat)
    requires Period(a) && b <= 255
    ensures 0 <= (a.low % 0x1_0000) * b < 0x8000_0000
    ensures 0 <= ((a.low % 0x1_0000) * b) / 0x1_0000 + (a.low / 0x1_0000) * b < 0x8000_0000
    ensures 0 <= a.high * b && Multiply(a, b).high < 0x8000_0000
  {
    var lo, hi := a.low % 0x1_0000, a.low / 0x1_0000;
    MulMonotone(lo, 0xFFFF, b);
    MulMonotone(hi, 0x3FFF, b);
    MulMonotone(a.high, 0xFFFF, b);
    MulMonotone(0, lo, b);
    MulMonotone(0, hi, b);
    MulMonotone(0, a.high, b);
  }

  // The next mandatory instance

  /** The first mandatory instance from j on. */
  function NextMandatory(j: nat, m: nat, k: nat): nat
    requires Firm(m, k)
  {
    ModAtMost(j, k);
    j - j % k + Spread(j % k, m, k)
  }

  /** The pattern repeats every k instances. */
  lemma Repeats(t: nat, i: nat, m: nat, k: nat)
    requires Firm(m, k)
    ensures t * k + i >= 0 && (t * k + i) % k == i % k
    ensures Mandatory(t * k + i, m, k) == Mandatory(i, m, k)
  {
    var a, b := i / k, i % k;
    assert i == a * k + b;
    Distributes(t, a, k);
    MulMonotone(0, t, k);
    DivModUnique(t * k + i, k, t + a, b);
  }

  lemma SpreadZero(m: nat, k: nat)
    requires Firm(m, k)
    ensures Spread(0, m, k) == 0 && Mandatory(0, m, k) && Mandatory(k, m, k)
  {
    QuotaUnique(0, m, k, 0);
    Repeats(1, 0, m, k);
  }

  lemma Parts(j: nat, k: nat)
    requires 0 < k
    ensures j == (j / k) * k + j % k && (j / k) * k >= 0
  {
    MulMonotone(0, j / k, k);
  }

  lemma NextMandatoryIsFirst(j: nat, m: nat, k: nat)
    requires Firm(m, k)
    ensures var n := NextMandatory(j, m, k);
      j <= n && Mandatory(n, m, k) && forall i :: j <= i < n ==> !Mandatory(i, m, k)
  {
    var i, t := j % k, j / k;
    Parts(j, k);
    SpreadIsNext(i, m, k);
    var base, s := t * k, Spread(i, m, k);
    Repeats(t, s, m, k);
    forall x | j <= x < base + s ensures !Mandatory(x, m, k) {
      Repeats(t, x - base, m, k);
    }
  }

  /** The next mandatory instance, the round and the place in it given apart. */
  lemma NextParts(t: nat, i: nat, m: nat, k: nat)
    requires Firm(m, k) && i <= k
    ensures t * k + i >= 0 && NextMandatory(t * k + i, m, k) == t * k + Spread(i, m, k)
  {
    MulMonotone(0, t, k);
    if i < k {
      DivModUnique(t * k + i, k, t, i);
    } else {
      Distributes(t, 1, k);
      DivModUnique(t * k + i, k, t + 1, 0);
      SpreadZero(m, k);
      SpreadIsNext(k, m, k);
    }
  }

  lemma SpreadMod(t: nat, s: nat, k: nat)
    requires 0 < k && s <= k
    ensures t * k + s >= 0 && (t * k + s) % k == if s >= k then 0 else s
  {
    MulMonotone(0, t, k);
    if s < k {
      DivModUnique(t * k + s, k, t, s);
    } else {
      Distributes(t, 1, k);
      DivModUnique(t * k + s, k, t + 1, 0);
    }
  }

  /** From a mandatory instance the next is the first after it, the counter modulo k. */
  lemma NextAfterMandatory(j: nat, m: nat, k: nat)
    requires Firm(m, k)
    ensures var i, s, n := j % k, Spread(j % k + 1, m, k), NextMandatory(j + 1, m, k);
      i < s <= k && n == j - i + s && n % k == if s >= k then 0 else s
  {
    var i, t := j % k, j / k;
    Parts(j, k);
    NextParts(t, i + 1, m, k);
    SpreadIsNext(i + 1, m, k);
    SpreadMod(t, Spread(i + 1, m, k), k);
  }

  /** A place that is not mandatory has the quota, and the next mandatory, of the one after. */
  lemma SpreadAfter(i: nat, m: nat, k: nat)
    requires Firm(m, k) && i < k && i != Spread(i, m, k)
    ensures Spread(i + 1, m, k) == Spread(i, m, k)
  {
    SpreadFixed(i, m, k);
    QuotaStep(i, m, k);
  }

  lemma NextAfterOptional(j: nat, m: nat, k: nat)
    requires Firm(m, k) && !Mandatory(j, m, k)
    ensures NextMandatory(j + 1, m, k) == NextMandatory(j, m, k)
  {
    var i, t := j % k, j / k;
    Parts(j, k);
    NextParts(t, i + 1, m, k);
    NextParts(t, i, m, k);
    SpreadAfter(i, m, k);
  }

  lemma InstanceMoves(j: nat, k: nat)
    requires 0 < k
    ensures (j + 1) % k == if j % k + 1 >= k then 0 else j % k + 1
  {
    var i, t := j % k, j / k;
    Parts(j, k);
    Distributes(t, 1, k);
    if i + 1 < k {
      DivModUnique(j + 1, k, t, i + 1);
    } else {
      DivModUnique(j + 1, k, t + 1, 0);
    }
  }

  /** An instance is mandatory when the counter of the next mandatory one is its own. */
  lemma MandatoryByCounter(j: nat, m: nat, k: nat)
    requires Firm(m, k)
    ensures Mandatory(j, m, k) <==> NextMandatory(j, m, k) % k == j % k
  {
    var i := j % k;
    Parts(j, k);
    SpreadIsNext(i, m, k);
    SpreadZero(m, k);
    Repeats(j / k, Spread(i, m, k), m, k);
  }

  class FirmTcb {
    const m: nat
    const k: nat
    const period: Split
    var instance: nat                   // Instance
    var nextMandatoryInstance: nat
    var nextInstanceMandatory: bool
    var arrival: Split                  // NextArrivalTimeHigh and Low
    var mandatory: Split                // NextMandatoryArrivalTimeHigh and Low

    // Releases so far, wraparounds so far, and the absolute time of the first release
    ghost var released: nat
    ghost var epoch: nat
    ghost const first: int

    ghost function Absolute(t: Split): int
      reads this
    {
      epoch * WRAP + t.Value()
    }

    ghost function ReleaseTime(j: nat): int {
      first + j * period.Value()
    }

    ghost predicate Valid()
      reads this
    {
      && Firm(m, k) && k <= 255 && Period(period)
      && instance == (released + k - 1) % k
      && nextInstanceMandatory == Mandatory(released, m, k)
      && nextMandatoryInstance == NextMandatory(released, m, k) % k
      && Absolute(arrival) == ReleaseTime(released)
      && Absolute(mandatory) == ReleaseTime(NextMandatory(released, m, k))
      && arrival.high >= 0 && arrival.low < WRAP && mandatory.high >= 0 && mandatory.low < WRAP
    }

    /** The parts of both times in order. */
    predicate InOrder()
      reads this
    {
      arrival.InOrder() && mandatory.InOrder()
    }

    /** OSCreateTask, the first release `start` after now. */
    constructor (m: nat, k: nat, period: Split, start: Split)
      requires Firm(m, k) && k <= 255 && Period(period) && start.high >= 0 && start.low < WRAP
      ensures Valid() && released == 0 && epoch == 0 && first == start.Value()
      ensures this.m == m && this.k == k && this.period == period
      ensures start.InOrder() ==> InOrder()
    {
      this.m, this.k, this.period, first := m, k, period, start.Value();
      instance, nextInstanceMandatory, nextMandatoryInstance := k - 1, true, 0;
      arrival, mandatory := start, start;
      released, epoch := 0, 0;
      new;
      SpreadZero(m, k);
      InstanceIs(0, k);
    }

    /** The instance number of this release. */
    method CountInstance()
      requires 0 < k && instance == (released + k - 1) % k
      modifies this`instance
      ensures instance == released % k
    {
      InstanceIs(released, k);
      instance := instance + 1;
      if instance >= k {
        instance := 0;
      }
    }

    /** The next mandatory instance and its arrival, from the one after this release. */
    method MoveMandatory()
      requires Valid() && arrival.high == 0
      modifies this`mandatory, this`nextMandatoryInstance
      ensures nextMandatoryInstance == NextMandatory(released + 1, m, k) % k
      ensures Absolute(mandatory) == ReleaseTime(NextMandatory(released + 1, m, k))
      ensures mandatory.high >= 0 && mandatory.low < WRAP && (old(InOrder()) ==> mandatory.InOrder())
    {
      if nextInstanceMandatory {
        NextAfterMandatory(released, m, k);
        MandatoryByCounter(released, m, k);
        var next := Spread(nextMandatoryInstance + 1, m, k);
        mandatory := Advance(next - nextMandatoryInstance);
        nextMandatoryInstance := if next >= k then 0 else next;
      } else {
        NextAfterOptional(released, m, k);
      }
    }

    /** Whether the release after this one is mandatory. */
    method MarkNext()
      requires Firm(m, k) && instance == released % k
      requires nextMandatoryInstance == NextMandatory(released + 1, m, k) % k
      modifies this`nextInstanceMandatory
      ensures nextInstanceMandatory == Mandatory(released + 1, m, k)
    {
      InstanceMoves(released, k);
      MandatoryByCounter(released + 1, m, k);
      if instance + 1 >= k {
        nextInstanceMandatory := nextMandatoryInstance == 0;
      } else {
        nextInstanceMandatory := nextMandatoryInstance == instance + 1;
      }
    }

    /** The next arrival, one period on. */
    method MoveArrival()
      requires Period(period) && arrival.high == 0 && arrival.low < WRAP
      requires Absolute(arrival) == ReleaseTime(released)
      modifies this`arrival
      ensures Absolute(arrival) == ReleaseTime(released + 1) == old(Absolute(arrival)) + period.Value()
      ensures arrival.high >= 0 && arrival.low < WRAP && (old(arrival).InOrder() ==> arrival.InOrder())
    {
      Later(released, 1);
      arrival := Split(period.high, arrival.low + period.low).Carry();
    }

    /** The handler's bookkeeping of a release, whether or not the instance is skipped. */
    method Release() returns (isMandatory: bool)
      requires Valid() && arrival.high == 0
      modifies this
      ensures Valid() && released == old(released) + 1 && epoch == old(epoch)
      ensures isMandatory == Mandatory(old(released), m, k)
      ensures Absolute(arrival) == old(Absolute(arrival)) + period.Value()
      ensures old(InOrder()) ==> InOrder()
    {
      isMandatory := nextInstanceMandatory;
      MoveMandatory();
      CountInstance();
      MarkNext();
      MoveArrival();
      InstanceMoves(released, k);
      InstanceIs(released + 1, k);
      released := released + 1;
    }

    /** The time `n` periods after the arrival due. */
    method Advance(n: nat) returns (t: Split)
      requires Period(period) && arrival.high == 0 && arrival.low < WRAP
      requires Absolute(arrival) == ReleaseTime(released)
      ensures Absolute(t) == ReleaseTime(released + n) && t.high >= 0 && t.low < WRAP
      ensures arrival.InOrder() ==> t.InOrder()
    {
      MultiplyExact(period, n);
      Later(released, n);
      t := Multiply(period, n);
      t := t.(low := t.low + arrival.low).Carry();
    }

    /** The handler's shift at a wraparound. */
    method Wrap()
      requires Valid()
      modifies this`arrival, this`mandatory, this`epoch
      ensures Valid() && epoch == old(epoch) + 1
      ensures Absolute(arrival) == old(Absolute(arrival)) && Absolute(mandatory) == old(Absolute(mandatory))
      ensures old(InOrder()) ==> (InOrder() <==> old(arrival).high > 0)
    {
      MandatoryAfterArrival();
      arrival, mandatory := arrival.Shift(), mandatory.Shift();
      epoch := epoch + 1;
    }

    /** The handler from turn `turn` of the clock up to a time of a clock that never wraps, each
        release served at its time and each wraparound at its own. */
    method ServeUntil(now: int, turn: nat)
      requires Valid() && InOrder() && period.Value() > 0 && turn == epoch && epoch * WRAP <= now
      modifies this
      ensures Valid() && InOrder() && epoch * WRAP <= now < (epoch + 1) * WRAP
      ensures now < ReleaseTime(released) && old(released) <= released
      ensures released > old(released) ==> ReleaseTime(released - 1) <= now
    {
      var e: int := turn;
      while e * WRAP + arrival.Value() <= now || (e + 1) * WRAP <= now
        invariant Valid() && InOrder() && e == epoch && epoch * WRAP <= now && old(released) <= released
        invariant released > old(released) ==> ReleaseTime(released - 1) <= now
        decreases Max0(now + 1 - Absolute(arrival)) + Max0(now - epoch * WRAP)
      {
        if e * WRAP + arrival.Value() <= now && arrival.Value() < WRAP {
          var _ := Release();
        } else {
          Wrap();
          e := e + 1;
        }
      }
    }

    lemma MandatoryAfterArrival()
      requires Valid()
      ensures arrival.Value() <= mandatory.Value()
    {
      NextMandatoryIsFirst(released, m, k);
      var n := NextMandatory(released, m, k) - released;
      Later(released, n);
      MulMonotone(0, n, period.Value());
      assert period.Value() * n == n * period.Value();
    }

    lemma Later(j: nat, n: nat)
      ensures ReleaseTime(j + n) == ReleaseTime(j) + period.Value() * n
    {
      Distributes(j, n, period.Value());
    }
  }

  /** Instance is that of the release before. */
  lemma InstanceIs(released: nat, k: nat)
    requires 0 < k
    ensures (released + k - 1) % k == if released % k == 0 then k - 1 else released % k - 1
  {
    var t, i := released / k, released % k;
    assert released == t * k + i;
    if i == 0 {
      DivModUnique(released + k - 1, k, t, k - 1);
    } else {
      assert (t + 1) * k == t * k + k;
      DivModUnique(released + k - 1, k, t + 1, i - 1);
    }
  }
}
