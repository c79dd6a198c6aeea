/** Integer division and products, as far as the solver needs them spelled out. */
module Arith {

  lemma MulMonotone(a: int, b: int, n: int)
    requires a <= b && 0 <= n
    ensures a * n <= b * n
  {
    assert b * n - a * n == (b - a) * n;
  }

  /** A quotient and a remainder below the divisor are the quotient and the remainder. */
  lemma DivModUnique(x: int, n: int, q: int, r: int)
    requires 0 < n && 0 <= r < n && x == q * n + r
    ensures x / n == q && x % n == r
  {
    var q', r' := x / n, x % n;
    assert x == q' * n + r';
    if q < q' {
      MulMonotone(q + 1, q', n);
    } else if q' < q {
      MulMonotone(q' + 1, q, n);
    }
  }

  lemma ModAtMost(j: nat, k: nat)
    requires 0 < k
    ensures 0 <= j % k < k && j % k <= j
  {
    MulMonotone(0, j / k, k);
    assert j == (j / k) * k + j % k;
  }

  lemma MulAssociates(a: int, b: int, c: int)
    ensures a * (b * c) == (a * b) * c
  {
  }

  lemma Distributes(a: int, b: int, n: int)
    ensures (a + b) * n == a * n + b * n
  {
  }

  lemma MulCancels(a: int, b: int, n: int)
    requires a * n < b * n && 0 <= n
    ensures a < b
  {
    if b <= a {
      MulMonotone(b, a, n);
    }
  }

  lemma QuotientBelow(a: nat, b: nat)
    requires 0 < b
    ensures 0 <= a / b <= a
  {
    MulMonotone(1, b, a / b);
    assert a == b * (a / b) + a % b;
  }
}
