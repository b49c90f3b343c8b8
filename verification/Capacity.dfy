/** How the item array of the selector grows. */
module Capacity {
  import opened SelectorTable

  function Pow2(k: nat): (p: nat)
    ensures p >= 1
  {
    if k == 0 then 1 else 2 * Pow2(k - 1)
  }

  ghost predicate IsPow2(p: nat) {
    exists k: nat :: p == Pow2(k)
  }

  /** `p` is the least power of two strictly above `n`. */
  ghost predicate LeastPowerAbove(p: nat, n: nat) {
    IsPow2(p) && n < p && forall q: nat :: IsPow2(q) && n < q ==> p <= q
  }

  lemma {:induction false} Pow2Grows(j: nat, k: nat)
    requires j < k
    ensures Pow2(j) < Pow2(k)
    decreases k
  {
    if j < k - 1 { Pow2Grows(j, k - 1); }
  }

  lemma LeastByNeighbours(k: nat, n: nat)
    requires n < Pow2(k) && (k == 0 || Pow2(k - 1) <= n)
    ensures LeastPowerAbove(Pow2(k), n)
  {
    forall q: nat | IsPow2(q) && n < q
      ensures Pow2(k) <= q
    {
      var j: nat :| q == Pow2(j);
      if j < k - 1 { Pow2Grows(j, k - 1); }
      if k < j { Pow2Grows(k, j); }
    }
  }

  /** `tmp` is what is left of `n` after shifting `bits` times, and all of those were needed. */
  ghost predicate Shifted(tmp: nat, bits: nat, n: nat) {
    && tmp * Pow2(bits) <= n < (tmp + 1) * Pow2(bits)
    && (tmp == 0 ==> bits == 0 || Pow2(bits - 1) <= n)
  }

  lemma ShiftOnce(tmp: nat, bits: nat, n: nat)
    requires tmp != 0 && Shifted(tmp, bits, n)
    ensures Shifted(tmp / 2, bits + 1, n)
  {
    HalfBounds(tmp, Pow2(bits), n);
    if tmp / 2 == 0 {
      assert tmp == 1;
      assert 1 * Pow2(bits) <= n;
    }
  }

  /** From 2^63 on the source shifts by the full width of the word, which C leaves undefined. */
  method NextCapacity(n: nat) returns (capacity: nat)
    requires n < 0x8000_0000_0000_0000
    ensures exists p: nat :: LeastPowerAbove(p, n) && capacity == (if p > ITEMS_MAX_SIZE then ITEMS_MAX_SIZE else p) + 1
    ensures n <= ITEMS_MAX_SIZE ==> n < capacity <= ITEMS_MAX_SIZE + 1
  {
    var bits: nat, tmp: nat := 0, n;
    while tmp != 0
      invariant Shifted(tmp, bits, n)
      decreases tmp
    {
      ShiftOnce(tmp, bits, n);
      tmp := tmp / 2;
      bits := bits + 1;
    }
    tmp := Pow2(bits);
    LeastByNeighbours(bits, n);
    assert LeastPowerAbove(tmp, n);
    assert tmp >= n;
    if tmp > ITEMS_MAX_SIZE {
      tmp := ITEMS_MAX_SIZE;
    }
    capacity := tmp + 1;
  }

  lemma HalfBounds(tmp: nat, unit: nat, n: nat)
    requires tmp * unit <= n < (tmp + 1) * unit
    ensures (tmp / 2) * (2 * unit) <= n < (tmp / 2 + 1) * (2 * unit)
  {
    var half := tmp / 2;
    assert tmp == 2 * half || tmp == 2 * half + 1;
    assert half * (2 * unit) == (2 * half) * unit;
    assert (half + 1) * (2 * unit) == (2 * half + 2) * unit;
    assert (2 * half) * unit <= tmp * unit by { MulMonotone(2 * half, tmp, unit); }
    assert (tmp + 1) * unit <= (2 * half + 2) * unit by { MulMonotone(tmp + 1, 2 * half + 2, unit); }
  }

  lemma MulMonotone(a: nat, b: nat, unit: nat)
    requires a <= b
    ensures a * unit <= b * unit
  {
    assert b * unit == a * unit + (b - a) * unit;
  }

  /** The array sizes that can occur: none yet, or one more than a power of two up to the limit. */
  ghost predicate IsSize(size: nat) {
    size == 0 || exists k: nat :: k <= 10 && size == Pow2(k) + 1
  }

  /** A bound on the number of allocations that can lead to an array of this size. */
  ghost function AllocationBound(size: nat): (bound: nat)
    requires IsSize(size)
    ensures bound <= 10
  {
    if size == 0 then 0 else
    var k: nat :| k <= 10 && size == Pow2(k) + 1;
    if k == 0 then 1 else k
  }

  lemma {:induction false} Pow2Ten()
    ensures Pow2(10) == 1024
  {
    assert Pow2(5) == 32;
    assert Pow2(10) == 1024;
  }

  lemma CapacityIsSize(n: nat, p: nat, capacity: nat)
    requires n <= ITEMS_MAX_SIZE && LeastPowerAbove(p, n)
    requires capacity == (if p > ITEMS_MAX_SIZE then ITEMS_MAX_SIZE else p) + 1
    ensures IsSize(capacity)
  {
    Pow2Ten();
    var k: nat :| p == Pow2(k);
    if k > 10 {
      Pow2Grows(10, k);
      assert capacity == Pow2(10) + 1;
    }
  }

  lemma SizeDeterminesExponent(j: nat, k: nat)
    requires Pow2(j) == Pow2(k)
    ensures j == k
  {
    if j < k { Pow2Grows(j, k); }
    if k < j { Pow2Grows(k, j); }
  }

  lemma BoundIs(size: nat, k: nat)
    requires k <= 10 && size == Pow2(k) + 1
    ensures IsSize(size) && AllocationBound(size) == if k == 0 then 1 else k
  {
    var j: nat :| j <= 10 && size == Pow2(j) + 1 && AllocationBound(size) == if j == 0 then 1 else j;
    SizeDeterminesExponent(j, k);
  }

  lemma SizeLimit(size: nat)
    requires IsSize(size)
    ensures size <= ITEMS_MAX_SIZE + 1
  {
    Pow2Ten();
    if size != 0 {
      var k: nat :| k <= 10 && size == Pow2(k) + 1;
      if k < 10 { Pow2Grows(k, 10); }
    }
  }

  /** Growing past `n`, which the old size did not cover, raises the bound by one at
      least; no run of growths makes more than ten allocations. */
  lemma GrowthRaisesBound(size: nat, n: nat, p: nat, capacity: nat)
    requires IsSize(size) && size <= n <= ITEMS_MAX_SIZE && LeastPowerAbove(p, n)
    requires capacity == (if p > ITEMS_MAX_SIZE then ITEMS_MAX_SIZE else p) + 1
    ensures IsSize(capacity) && AllocationBound(size) < AllocationBound(capacity) <= 10
    ensures size < capacity
  {
    CapacityIsSize(n, p, capacity);
    Pow2Ten();
    var k: nat :| k <= 10 && capacity == Pow2(k) + 1;
    BoundIs(capacity, k);
    if size != 0 {
      var j: nat :| j <= 10 && size == Pow2(j) + 1;
      BoundIs(size, j);
      if k < j { Pow2Grows(k, j); }
      assert Pow2(0) == 1 && Pow2(1) == 2;
      if j == 0 && k == 1 {
        assert false;
      }
    }
  }
}
