/** The pattern of (m,k)-firm tasks (P. Ramanathan, IEEE TPDS 10(6), 1999): of every k
    instances, m mandatory, evenly spread. */
module FirmPattern {
  import opened Arith

  /** m and k as a task has them. */
  predicate Firm(m: nat, k: nat) {
    0 < m <= k
  }

  /** The mandatory instances among the first n: ceil(n m / k). */
  function Quota(n: nat, m: nat, k: nat): nat
    requires Firm(m, k)
  {
    assert n * m >= 0;
    (n * m + k - 1) / k
  }

  /** The expression of the handler and of the admission test. */
  function Spread(n: nat, m: nat, k: nat): nat
    requires Firm(m, k)
  {
    assert Quota(n, m, k) * k >= 0;
    (Quota(n, m, k) * k) / m
  }

  /** Whether instance j is mandatory. */
  predicate Mandatory(j: nat, m: nat, k: nat)
    requires Firm(m, k)
  {
    j % k == Spread(j % k, m, k)
  }

  lemma QuotaBounds(n: nat, m: nat, k: nat)
    requires Firm(m, k)
    ensures (Quota(n, m, k) - 1) * k < n * m <= Quota(n, m, k) * k
  {
    var q, r := Quota(n, m, k), (n * m + k - 1) % k;
    assert n * m + k - 1 == q * k + r;
    assert (q - 1) * k == q * k - k;
  }

  /** A count with these bounds is the quota. */
  lemma QuotaUnique(n: nat, m: nat, k: nat, q: int)
    requires Firm(m, k) && (q - 1) * k < n * m <= q * k
    ensures Quota(n, m, k) == q
  {
    var r := n * m + k - 1 - q * k;
    assert (q - 1) * k == q * k - k;
    DivModUnique(n * m + k - 1, k, q, r);
  }

  lemma SpreadBounds(n: nat, m: nat, k: nat)
    requires Firm(m, k)
    ensures Spread(n, m, k) * m <= Quota(n, m, k) * k < (Spread(n, m, k) + 1) * m
  {
    var x, s := Quota(n, m, k) * k, Spread(n, m, k);
    assert x == s * m + x % m;
    assert (s + 1) * m == s * m + m;
  }

  /** One more instance adds one to the quota or none. */
  lemma QuotaStep(n: nat, m: nat, k: nat)
    requires Firm(m, k)
    ensures var q := Quota(n, m, k);
      Quota(n + 1, m, k) == if q * k < (n + 1) * m then q + 1 else q
  {
    QuotaBounds(n, m, k);
    var q := Quota(n, m, k);
    assert (n + 1) * m == n * m + m;
    assert (q + 1) * k == q * k + k && (q - 1) * k == q * k - k;
    QuotaUnique(n + 1, m, k, if q * k < (n + 1) * m then q + 1 else q);
  }

  /** k more instances add m. */
  lemma QuotaPeriod(n: nat, m: nat, k: nat)
    requires Firm(m, k)
    ensures Quota(n + k, m, k) == Quota(n, m, k) + m
  {
    QuotaBounds(n, m, k);
    var q := Quota(n, m, k);
    assert (n + k) * m == n * m + k * m;
    assert (q + m) * k == q * k + m * k && (q + m - 1) * k == (q - 1) * k + m * k;
    QuotaUnique(n + k, m, k, q + m);
  }

  lemma {:induction false} QuotaPeriods(n: nat, t: nat, m: nat, k: nat)
    requires Firm(m, k)
    ensures t * k >= 0 && t * m >= 0 && Quota(n + t * k, m, k) == Quota(n, m, k) + t * m
  {
    if t > 0 {
      QuotaPeriods(n, t - 1, m, k);
      assert t * k == (t - 1) * k + k && t * m == (t - 1) * m + m;
      QuotaPeriod(n + (t - 1) * k, m, k);
    }
  }

  /** Where the quota rises the expression gives the instance itself. */
  lemma SpreadFixed(j: nat, m: nat, k: nat)
    requires Firm(m, k)
    ensures j <= Spread(j, m, k)
    ensures j == Spread(j, m, k) <==> Quota(j + 1, m, k) == Quota(j, m, k) + 1
  {
    QuotaBounds(j, m, k);
    SpreadBounds(j, m, k);
    QuotaStep(j, m, k);
    var s := Spread(j, m, k);
    if s < j {
      MulMonotone(s + 1, j, m);
    }
    if j < s {
      MulMonotone(j + 1, s, m);
    }
  }

  /** The mandatory instances are those at which the quota rises. */
  lemma MandatoryRises(j: nat, m: nat, k: nat)
    requires Firm(m, k)
    ensures Quota(j + 1, m, k) == Quota(j, m, k) + if Mandatory(j, m, k) then 1 else 0
  {
    var i, t := j % k, j / k;
    assert j == i + t * k;
    SpreadFixed(i, m, k);
    QuotaStep(i, m, k);
    QuotaPeriods(i, t, m, k);
    QuotaPeriods(i + 1, t, m, k);
  }

  /** The mandatory instances among those from a on and before b. */
  function Count(a: nat, b: nat, m: nat, k: nat): nat
    requires Firm(m, k) && a <= b
  {
    if a == b then 0 else Count(a, b - 1, m, k) + if Mandatory(b - 1, m, k) then 1 else 0
  }

  lemma {:induction false} CountIsQuota(a: nat, b: nat, m: nat, k: nat)
    requires Firm(m, k) && a <= b
    ensures Count(a, b, m, k) == Quota(b, m, k) - Quota(a, m, k)
  {
    if a < b {
      CountIsQuota(a, b - 1, m, k);
      MandatoryRises(b - 1, m, k);
    }
  }

  /** Any k consecutive instances hold exactly m mandatory ones. */
  lemma ExactlyM(a: nat, m: nat, k: nat)
    requires Firm(m, k)
    ensures Count(a, a + k, m, k) == m
  {
    CountIsQuota(a, a + k, m, k);
    QuotaPeriod(a, m, k);
  }

  /** Any n consecutive instances hold no more mandatory ones than ceil(n m / k). */
  lemma NeverUndercounts(a: nat, n: nat, m: nat, k: nat)
    requires Firm(m, k)
    ensures Count(a, a + n, m, k) <= Quota(n, m, k)
  {
    CountIsQuota(a, a + n, m, k);
    QuotaBounds(a, m, k);
    QuotaBounds(n, m, k);
    QuotaBounds(a + n, m, k);
    var x, y, z := Quota(a, m, k), Quota(n, m, k), Quota(a + n, m, k);
    Distributes(a, n, m);
    Distributes(x, y, k);
    if z > x + y {
      MulMonotone(x + y, z - 1, k);
    }
  }

  lemma SpreadWithin(n: nat, m: nat, k: nat)
    requires Firm(m, k) && n <= k
    ensures Spread(n, m, k) <= k
  {
    var q, s := Quota(n, m, k), Spread(n, m, k);
    QuotaBounds(n, m, k);
    SpreadBounds(n, m, k);
    MulMonotone(n, k, m);
    if q > m {
      MulMonotone(m, q - 1, k);
    }
    MulMonotone(q, m, k);
    if s > k {
      MulMonotone(k + 1, s, m);
    }
  }

  /** The quota of every instance up to the one the expression gives is that of n. */
  lemma SameQuota(n: nat, j: nat, m: nat, k: nat)
    requires Firm(m, k) && n <= j <= Spread(n, m, k)
    ensures Quota(j, m, k) == Quota(n, m, k)
  {
    QuotaBounds(n, m, k);
    SpreadBounds(n, m, k);
    MulMonotone(n, j, m);
    MulMonotone(j, Spread(n, m, k), m);
    QuotaUnique(j, m, k, Quota(n, m, k));
  }

  /** And the next one has one more. */
  lemma NextRises(n: nat, m: nat, k: nat)
    requires Firm(m, k)
    ensures var s := Spread(n, m, k); n <= s && Quota(s + 1, m, k) == Quota(s, m, k) + 1
  {
    var s := Spread(n, m, k);
    SpreadFixed(n, m, k);
    SpreadBounds(n, m, k);
    SameQuota(n, s, m, k);
    QuotaStep(s, m, k);
    QuotaBounds(s + 1, m, k);
  }

  lemma NotMandatory(n: nat, j: nat, m: nat, k: nat)
    requires Firm(m, k) && n <= j < Spread(n, m, k)
    ensures !Mandatory(j, m, k)
  {
    MandatoryRises(j, m, k);
    SameQuota(n, j, m, k);
    SameQuota(n, j + 1, m, k);
  }

  /** The expression gives the first mandatory instance at or after n, below k the next
      round's first at most. */
  lemma SpreadIsNext(n: nat, m: nat, k: nat)
    requires Firm(m, k) && n <= k
    ensures var s := Spread(n, m, k);
      n <= s <= k && Mandatory(s, m, k) && forall j :: n <= j < s ==> !Mandatory(j, m, k)
  {
    SpreadWithin(n, m, k);
    NextRises(n, m, k);
    MandatoryRises(Spread(n, m, k), m, k);
    forall j | n <= j < Spread(n, m, k) ensures !Mandatory(j, m, k) {
      NotMandatory(n, j, m, k);
    }
  }
}
