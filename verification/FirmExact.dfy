/** What the admission test promises, each mandatory instance from now on and before the deadline
    counted up to it, and how far the count it makes is from that: never below, and never above by
    more than a WCET for each task. */
module FirmExact {
  import opened Arith
  import opened FirmPattern
  import opened FirmTask
  import opened Admission
  import opened FirmReference

  lemma NextRelease(d: Firm, n: nat)
    ensures ReleaseAt(d, n + 1) == ReleaseAt(d, n) + d.period
  {
    Distributes(n, 1, d.period);
  }

  /** The mandatory instances from the n-th on released before the deadline, each up to it. */
  function Promised(d: Firm, n: nat, deadline: int): int
    decreases if ReleaseAt(d, n) < deadline then deadline - ReleaseAt(d, n) else 0
  {
    if ReleaseAt(d, n) >= deadline then 0
    else
      NextRelease(d, n);
      (if Mandatory(n, d.m, d.k) then Min(d.wcet, deadline - ReleaseAt(d, n)) else 0) + Promised(d, n + 1, deadline)
  }

  function AllPromised(tasks: seq<Firm>, deadline: int, now: int): int {
    if tasks == [] then 0
    else
      var d := tasks[|tasks| - 1];
      AllPromised(tasks[..|tasks| - 1], deadline, now) + Promised(d, FirstRelease(d, now), deadline)
  }

  function AllWcets(tasks: seq<Firm>): int {
    if tasks == [] then 0 else AllWcets(tasks[..|tasks| - 1]) + tasks[|tasks| - 1].wcet
  }

  lemma {:induction false} CountFront(a: nat, b: nat, m: nat, k: nat)
    requires FirmPattern.Firm(m, k) && a < b
    ensures Count(a, b, m, k) == (if Mandatory(a, m, k) then 1 else 0) + Count(a + 1, b, m, k)
  {
    if a + 1 < b {
      CountFront(a, b - 1, m, k);
    }
  }

  /** Optional instances add nothing. */
  lemma {:induction false} SkipOptional(d: Firm, n: nat, j: nat, deadline: int)
    requires n <= j && forall i: nat :: n <= i < j ==> !Mandatory(i, d.m, d.k)
    ensures Promised(d, n, deadline) == Promised(d, j, deadline)
    decreases j - n
  {
    NextRelease(d, n);
    if n < j {
      if ReleaseAt(d, n) >= deadline {
        MulMonotone(n, j, d.period);
      } else {
        SkipOptional(d, n + 1, j, deadline);
      }
    }
  }

  /** What is counted of `whole` periods and what is left of the time. */
  function Parts(count: nat, wcet: int, last: int): int { count * wcet + last }

  function LastPart(d: Firm, n: nat, rest: int): int {
    if Mandatory(n, d.m, d.k) then Min(d.wcet, rest) else 0
  }

  lemma {:induction false} PromisedParts(d: Firm, n: nat, whole: nat, rest: int)
    requires 0 <= d.wcet && 0 <= rest < d.period
    ensures var deadline := ReleaseAt(d, n + whole) + rest;
      var parts := Parts(Count(n, n + whole, d.m, d.k), d.wcet, LastPart(d, n + whole, rest));
      Promised(d, n, deadline) <= parts && (d.wcet <= d.period ==> Promised(d, n, deadline) == parts)
    decreases whole
  {
    NextRelease(d, n);
    if whole > 0 {
      PromisedParts(d, n + 1, whole - 1, rest);
      assert n + 1 + (whole - 1) == n + whole;
      CountFront(n, n + whole, d.m, d.k);
      MulMonotone(n + 1, n + whole, d.period);
      Distributes(if Mandatory(n, d.m, d.k) then 1 else 0, Count(n + 1, n + whole, d.m, d.k), d.wcet);
    }
  }

  /** The quota of n instances is what any n one after the other hold, or one more. */
  lemma QuotaNear(a: nat, n: nat, m: nat, k: nat)
    requires FirmPattern.Firm(m, k)
    ensures Count(a, a + n, m, k) <= Quota(n, m, k) <= Count(a, a + n, m, k) + 1
  {
    NeverUndercounts(a, n, m, k);
    CountIsQuota(a, a + n, m, k);
    QuotaBounds(a, m, k);
    QuotaBounds(n, m, k);
    QuotaBounds(a + n, m, k);
    Distributes(a, n, m);
    NearSum(Quota(a, m, k), Quota(n, m, k), Quota(a + n, m, k), k, a * m, n * m);
  }

  lemma NearSum(x: int, y: int, z: int, k: nat, u: int, v: int)
    requires (x - 1) * k < u && (y - 1) * k < v && u + v <= z * k
    ensures x + y <= z + 1
  {
    Distributes(x - 1, y - 1, k);
    MulCancels(x - 1 + (y - 1), z, k);
  }

  lemma PartsNear(count: nat, quota: nat, wcet: int, last: int)
    requires count <= quota <= count + 1 && 0 <= wcet
    ensures Parts(count, wcet, last) <= Parts(quota, wcet, last) <= Parts(count, wcet, last) + wcet
  {
    MulMonotone(count, quota, wcet);
    MulMonotone(quota, count + 1, wcet);
    Distributes(count, 1, wcet);
  }

  lemma TermParts(d: Firm, deadline: int, now: int) returns (whole: nat, rest: int)
    requires ReleaseAt(d, FirstMandatory(d, now)) < deadline
    ensures var n := FirstMandatory(d, now);
      && 0 <= rest < d.period && deadline == ReleaseAt(d, n + whole) + rest
      && Term(d, deadline, now) == Parts(Quota(whole, d.m, d.k), d.wcet, LastPart(d, n + whole, rest))
  {
    var n := FirstMandatory(d, now);
    var span := deadline - ReleaseAt(d, n);
    whole, rest := span / d.period, span % d.period;
    assert span == whole * d.period + rest;
    Distributes(n, whole, d.period);
  }

  /** One task's count, between what is promised of it and a WCET more. */
  lemma TermNear(d: Firm, deadline: int, now: int)
    requires 0 <= d.wcet
    ensures Promised(d, FirstRelease(d, now), deadline) <= Term(d, deadline, now)
    ensures d.wcet <= d.period ==> Term(d, deadline, now) <= Promised(d, FirstRelease(d, now), deadline) + d.wcet
  {
    var first, n := FirstRelease(d, now), FirstMandatory(d, now);
    NextMandatoryIsFirst(first, d.m, d.k);
    SkipOptional(d, first, n, deadline);
    if ReleaseAt(d, n) < deadline {
      var whole, rest := TermParts(d, deadline, now);
      PromisedParts(d, n, whole, rest);
      QuotaNear(n, whole, d.m, d.k);
      PartsNear(Count(n, n + whole, d.m, d.k), Quota(whole, d.m, d.k), d.wcet, LastPart(d, n + whole, rest));
    }
  }

  lemma {:induction false} TermsNear(tasks: seq<Firm>, deadline: int, now: int)
    requires forall i :: 0 <= i < |tasks| ==> 0 <= tasks[i].wcet <= tasks[i].period
    ensures AllPromised(tasks, deadline, now) <= Terms(tasks, deadline, now)
    ensures Terms(tasks, deadline, now) <= AllPromised(tasks, deadline, now) + AllWcets(tasks)
  {
    if tasks != [] {
      TermsNear(tasks[..|tasks| - 1], deadline, now);
      TermNear(tasks[|tasks| - 1], deadline, now);
    }
  }

  /** The instance starts only if its WCET and all that is promised come before its deadline, and
      starts whenever they do with a WCET of each task to spare. */
  lemma AdmitsNear(tasks: seq<Firm>, wcet: int, deadline: int, now: int)
    requires forall i :: 0 <= i < |tasks| ==> 0 <= tasks[i].wcet <= tasks[i].period
    ensures Admits(tasks, wcet, deadline, now) ==>
      now < deadline - wcet && now + wcet + AllPromised(tasks, deadline, now) < deadline
    ensures now < deadline - wcet && now + wcet + AllPromised(tasks, deadline, now) + AllWcets(tasks) < deadline ==>
      Admits(tasks, wcet, deadline, now)
  {
    TermsNear(tasks, deadline, now);
  }
}
