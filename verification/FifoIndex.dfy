/** The 32-bit indices of the FIFO queue: they wrap around at a multiple of the queue's
    length, which the proofs of AnnouncedFifo, over indices that never wrap, rely on. */
module FifoIndex {
  import opened Arith

  const UNSET: nat := 0xFFFF_FFFF

  /** GetFIFOArrayMaxIndex: where Head and Tail wrap around. */
  function MaxIndex(length: nat): (max: nat)
    requires 0 < length < 0x1_0000
    ensures max % length == 0 && UNSET - length <= max < UNSET
  {
    var max := UNSET - length;
    var r := max % length;
    if r != 0 then
      assert max == max / length * length + r;
      assert max + length - r == (max / length + 1) * length;
      DivModUnique(max + length - r, length, max / length + 1, 0);
      max + (length - r)
    else max
  }

  /** IncrementFifoQueueIndex: what the SC stores. */
  function Next(index: nat, length: nat): nat
    requires 0 < length < 0x1_0000
  {
    if index + 1 == MaxIndex(length) then 0 else index + 1
  }

  /** No multiple of the length between the bound and the index: the smallest is taken. */
  lemma MaxIndexIsSmallest(length: nat, m: nat)
    requires 0 < length < 0x1_0000 && m % length == 0 && UNSET - length <= m
    ensures MaxIndex(length) <= m
  {
    var max := MaxIndex(length);
    assert m == m / length * length;
    if m < max {
      DivModUnique(max, length, m / length, max - m);
    }
  }

  lemma NextWraps(n: nat, length: nat)
    requires 0 < length < 0x1_0000
    ensures Next(n % MaxIndex(length), length) == (n + 1) % MaxIndex(length)
  {
    var max := MaxIndex(length);
    var q, r := n / max, n % max;
    if r + 1 == max {
      DivModUnique(n + 1, max, q + 1, 0);
    } else {
      DivModUnique(n + 1, max, q, r + 1);
    }
  }

  lemma SameEntry(n: nat, length: nat)
    requires 0 < length < 0x1_0000
    ensures (n % MaxIndex(length)) % length == n % length
  {
    var max := MaxIndex(length);
    var q, r, turns := n / max, n % max, max / length;
    MulAssociates(q, turns, length);
    assert max == turns * length;
    var p := r / length;
    assert r == p * length + r % length;
    assert n == (q * turns + p) * length + r % length by {
      assert (q * turns + p) * length == (q * turns) * length + p * length;
    }
    DivModUnique(n, length, q * turns + p, r % length);
  }

  lemma TurnsApart(n: nat, seen: nat, max: nat)
    requires 0 < max && seen <= n < seen + max && n % max == seen % max
    ensures n == seen
  {
    var d := n / max - seen / max;
    assert d * max == n - seen;
    if d >= 1 {
      MulMonotone(1, d, max);
    } else {
      MulMonotone(d, 0, max);
    }
  }

  /** A stored index is the unbounded one modulo MaxIndex: it advances with it, names the
      same array entry, never is the marker of an unread index, and tells two unbounded
      indices apart as long as one is not a whole turn ahead of the other. */
  lemma WrappedIndex(n: nat, seen: nat, length: nat)
    requires 0 < length < 0x1_0000
    ensures var max := MaxIndex(length);
            && Next(n % max, length) == (n + 1) % max
            && (n % max) % length == n % length
            && n % max != UNSET
            && (seen <= n < seen + max ==> (n % max == seen % max <==> n == seen))
  {
    var max := MaxIndex(length);
    NextWraps(n, length);
    SameEntry(n, length);
    if seen <= n < seen + max && n % max == seen % max {
      TurnsApart(n, seen, max);
    }
  }
}
