/** The total bandwidth server of the EDF kernels, which gives event-driven tasks their
    deadlines (GetSuspendedSchedulingDeadline), across the wraparounds of the clock. */
module Server {
  import opened Common

  datatype Event =
    | Grant(now: int, workload: nat)   // an instance released at a time of the current turn
    | Wrap                             // the clock passes 2^30, SynchronousTaskDeadlines shifted

  /** The kernel's variable, the turns of the clock so far and the absolute time last seen;
      the absolute release and deadline of each instance granted, with its workload. */
  datatype Granted = Granted(release: int, deadline: int, workload: nat)
  datatype State = State(deadlines: int, epoch: nat, seen: int, granted: seq<Granted>)

  const START := State(0, 0, 0, [])

  function Max(a: int, b: int): int { if a > b then a else b }

  /** GetSuspendedSchedulingDeadline. */
  function NextDeadline(deadlines: int, now: int, workload: nat): int {
    if deadlines > now then deadlines + workload else now + workload
  }

  /** SubOrZeroIfNeg. */
  function SubOrZero(x: int, y: int): int {
    if x - y < 0 then 0 else x - y
  }

  /** Times within a turn, and never going back. */
  predicate Possible(s: State, e: Event) {
    match e
    case Grant(now, _) => 0 <= now && s.seen <= s.epoch * WRAP + now
    case Wrap => true
  }

  function Step(s: State, e: Event): State {
    match e
    case Grant(now, w) =>
      var d := NextDeadline(s.deadlines, now, w);
      s.(deadlines := d, seen := s.epoch * WRAP + now,
         granted := s.granted + [Granted(s.epoch * WRAP + now, s.epoch * WRAP + d, w)])
    case Wrap =>
      s.(deadlines := SubOrZero(s.deadlines, WRAP), epoch := s.epoch + 1, seen := Max(s.seen, (s.epoch + 1) * WRAP))
  }

  predicate Runs(events: seq<Event>)
    decreases |events|, 0
  {
    events == [] ||
    (var last := |events| - 1;
     assert |events[..last]| < |events|;
     Runs(events[..last]) && Possible(After(events[..last]), events[last]))
  }

  function After(events: seq<Event>): State
    decreases |events|, 1
  {
    if events == [] then START else Step(After(events[..|events| - 1]), events[|events| - 1])
  }

  /** The deadline an unclamped server, in absolute time, would have reached. */
  function LastDeadline(granted: seq<Granted>): int {
    if granted == [] then 0 else granted[|granted| - 1].deadline
  }

  /** Each deadline is what the server gives in absolute time, without wraparound. */
  ghost predicate Absolute(granted: seq<Granted>) {
    forall n :: 0 <= n < |granted| ==>
      granted[n].deadline == Max(LastDeadline(granted[..n]), granted[n].release) + granted[n].workload
  }

  ghost predicate Ordered(granted: seq<Granted>) {
    forall m, n :: 0 <= m <= n < |granted| ==> granted[m].release <= granted[n].release
  }

  /** The clamp at zero is harmless: kernel and absolute server agree, or both are past. */
  ghost predicate Inv(s: State) {
    && Absolute(s.granted) && Ordered(s.granted)
    && s.epoch * WRAP <= s.seen
    && (forall n :: 0 <= n < |s.granted| ==> 0 <= s.granted[n].release <= s.seen)
    && (s.epoch * WRAP + s.deadlines == LastDeadline(s.granted)
        || (s.deadlines <= 0 && LastDeadline(s.granted) <= s.epoch * WRAP))
  }

  lemma StepKeepsInv(s: State, e: Event)
    requires Inv(s) && Possible(s, e)
    ensures Inv(Step(s, e))
  {
    match e
    case Grant(now, w) =>
      var g := s.granted;
      var g' := Step(s, e).granted;
      forall n | 0 <= n < |g'|
        ensures g'[n].deadline == Max(LastDeadline(g'[..n]), g'[n].release) + g'[n].workload
      {
        assert g'[..n] == g[..n];
        assert g[..|g|] == g;
      }
    case Wrap =>
  }

  lemma {:induction false} RunKeepsInv(events: seq<Event>)
    requires Runs(events)
    ensures Inv(After(events))
  {
    if events != [] {
      RunKeepsInv(events[..|events| - 1]);
      StepKeepsInv(After(events[..|events| - 1]), events[|events| - 1]);
    }
  }

  // The bandwidth

  /** The workloads released from t1 on with a deadline by t2. */
  function Workload(granted: seq<Granted>, t1: int, t2: int): nat {
    if granted == [] then 0
    else
      var g := granted[|granted| - 1];
      Workload(granted[..|granted| - 1], t1, t2) + if t1 <= g.release && g.deadline <= t2 then g.workload else 0
  }

  lemma Prefix(granted: seq<Granted>)
    requires Absolute(granted) && Ordered(granted) && granted != []
    ensures var rest := granted[..|granted| - 1]; Absolute(rest) && Ordered(rest)
    ensures var rest, g := granted[..|granted| - 1], granted[|granted| - 1];
      g.deadline == Max(LastDeadline(rest), g.release) + g.workload
    ensures forall n :: 0 <= n < |granted| - 1 ==> granted[n].release <= granted[|granted| - 1].release
  {
    var rest := granted[..|granted| - 1];
    forall n | 0 <= n < |rest|
      ensures rest[n].deadline == Max(LastDeadline(rest[..n]), rest[n].release) + rest[n].workload
    {
      assert rest[..n] == granted[..n];
    }
  }

  /** Up to the last grant, they fit before its deadline. */
  lemma {:induction false} FitsBefore(granted: seq<Granted>, t1: int, t2: int)
    requires Absolute(granted) && Ordered(granted)
    requires granted != [] && t1 <= granted[|granted| - 1].release
    ensures Workload(granted, t1, t2) <= granted[|granted| - 1].deadline - t1
  {
    var rest := granted[..|granted| - 1];
    Prefix(granted);
    if rest != [] {
      if t1 <= rest[|rest| - 1].release {
        FitsBefore(rest, t1, t2);
      } else {
        NoneFrom(rest, t1, t2);
      }
    }
  }

  lemma {:induction false} NoneFrom(granted: seq<Granted>, t1: int, t2: int)
    requires forall n :: 0 <= n < |granted| ==> granted[n].release < t1
    ensures Workload(granted, t1, t2) == 0
  {
    if granted != [] {
      NoneFrom(granted[..|granted| - 1], t1, t2);
    }
  }

  lemma {:induction false} Fits(granted: seq<Granted>, t1: int, t2: int)
    requires Absolute(granted) && Ordered(granted) && t1 <= t2
    ensures Workload(granted, t1, t2) <= t2 - t1
  {
    if granted != [] {
      var rest, g := granted[..|granted| - 1], granted[|granted| - 1];
      Prefix(granted);
      if t1 <= g.release && g.deadline <= t2 {
        FitsBefore(granted, t1, t2);
      } else {
        Fits(rest, t1, t2);
      }
    }
  }

  /** In every run, across any wraparounds, event-driven instances ask for no more than the
      whole of any interval, and their deadlines are those of a clock that never wraps. */
  lemma BandwidthKept(events: seq<Event>, t1: int, t2: int)
    requires Runs(events) && t1 <= t2
    ensures Workload(After(events).granted, t1, t2) <= t2 - t1
    ensures Absolute(After(events).granted)
  {
    RunKeepsInv(events);
    Fits(After(events).granted, t1, t2);
  }

  lemma {:induction false} WorkloadRises(granted: seq<Granted>, t1: int, t2: int, t3: int)
    requires t2 <= t3
    ensures Workload(granted, t1, t2) <= Workload(granted, t1, t3)
  {
    if granted != [] {
      WorkloadRises(granted[..|granted| - 1], t1, t2, t3);
    }
  }

  /** No deadline is later than it must be: the interval that ends there, from some release on,
      is wholly asked for. */
  lemma {:induction false} DeadlineTight(granted: seq<Granted>) returns (t1: int)
    requires Absolute(granted) && Ordered(granted) && granted != [] && granted[0].release >= 0
    ensures var g := granted[|granted| - 1];
      t1 <= g.release && Workload(granted, t1, g.deadline) == g.deadline - t1
  {
    var rest, g := granted[..|granted| - 1], granted[|granted| - 1];
    Prefix(granted);
    t1 := g.release;
    if rest != [] && g.release < LastDeadline(rest) {
      t1 := DeadlineTight(rest);
      WorkloadRises(rest, t1, LastDeadline(rest), g.deadline);
    }
    FitsBefore(granted, t1, g.deadline);
  }

  /** So of every grant of a run. */
  lemma BandwidthUsed(events: seq<Event>, n: nat) returns (t1: int)
    requires Runs(events) && n < |After(events).granted|
    ensures var granted := After(events).granted;
      && t1 <= granted[n].release
      && Workload(granted[..n + 1], t1, granted[n].deadline) == granted[n].deadline - t1
  {
    RunKeepsInv(events);
    t1 := GrantTight(After(events).granted, n);
  }

  lemma GrantTight(granted: seq<Granted>, n: nat) returns (t1: int)
    requires Absolute(granted) && Ordered(granted) && n < |granted| && granted[0].release >= 0
    ensures t1 <= granted[n].release
    ensures Workload(granted[..n + 1], t1, granted[n].deadline) == granted[n].deadline - t1
  {
    var first := granted[..n + 1];
    FirstGrants(granted, n + 1);
    assert first[|first| - 1] == granted[n];
    t1 := DeadlineTight(first);
  }

  lemma FirstGrants(granted: seq<Granted>, n: nat)
    requires Absolute(granted) && Ordered(granted) && n <= |granted|
    ensures Absolute(granted[..n]) && Ordered(granted[..n])
  {
    var first := granted[..n];
    forall k | 0 <= k < n
      ensures first[k].deadline == Max(LastDeadline(first[..k]), first[k].release) + first[k].workload
    {
      assert first[..k] == granted[..k];
    }
  }
}
