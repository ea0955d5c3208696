/**
 * src/dyn_capacity.rs: choosing the smallest `SizedVEBTree<n>` for a
 * requested capacity or bit count. The source unrolls a chain of
 * `if capacity <= SizedVEBTree::<n>::CAPACITY` tests for n = 4, 5, ..., 49
 * with a macro and panics when none fits; here the chain is a loop, the
 * chosen `n` is specified by `BitsForCapacity`, and a panic is `None`.
 */
module DynCapacity {
  import opened Wrappers
  import opened Bitwise
  import opened Sizes
  import opened Outer

  /** The largest `n` the chain of `new_with_capacity` tries. */
  const MAX_BITS: nat := 49
  /** `size_of::<usize>() * 8` on the 64-bit platform modelled here. */
  const USIZE_BITS: nat := 64

  /** `capacity <= SizedVEBTree::<n>::CAPACITY`: the test of each link of the chain. */
  predicate Fits(capacity: nat, n: nat)
  {
    capacity <= Pow2(n)
  }

  /**
   * The candidates n, n + 1, ..., MAX_BITS in order: the first whose capacity
   * `1 << n` is at least `capacity`, or None when the chain runs out.
   */
  function FirstFitting(capacity: nat, n: nat): (r: Option<nat>)
    requires 4 <= n <= MAX_BITS + 1
    ensures r.Some? ==> n <= r.value <= MAX_BITS && Fits(capacity, r.value)
    ensures r.Some? ==> forall k :: n <= k < r.value ==> !Fits(capacity, k)
    ensures r.None? ==> forall k :: n <= k <= MAX_BITS ==> !Fits(capacity, k)
    decreases MAX_BITS + 1 - n
  {
    if n > MAX_BITS then None
    else if Fits(capacity, n) then Some(n)
    else FirstFitting(capacity, n + 1)
  }

  /**
   * The bit count of the type `new_with_capacity(capacity)` returns: the
   * smallest n in 4..=49 with `capacity <= 1 << n`; None where it panics.
   */
  function BitsForCapacity(capacity: nat): (r: Option<nat>)
    ensures r.Some? ==> 4 <= r.value <= MAX_BITS && Fits(capacity, r.value)
    ensures r.Some? ==> forall k :: 4 <= k < r.value ==> !Fits(capacity, k)
  {
    FirstFitting(capacity, 4)
  }

  /** `1 << n` grows strictly with n. */
  lemma Pow2Strict(a: nat, b: nat)
    requires a < b
    ensures Pow2(a) < Pow2(b)
  {
    Pow2Monotone(a, b - 1);
  }

  /** `1 << 4 == 16`. */
  lemma Pow2At4()
    ensures Pow2(4) == 16
  {
    assert Pow2(2) == 4;
    Pow2Add(2, 2);
  }

  /** `new_with_capacity` panics exactly when the capacity exceeds `1 << 49`. */
  lemma PanicsExactlyAbove(capacity: nat)
    ensures BitsForCapacity(capacity).None? <==> capacity > Pow2(MAX_BITS)
  {
    if BitsForCapacity(capacity).Some? {
      Pow2Monotone(BitsForCapacity(capacity).value, MAX_BITS);
    } else {
      assert !Fits(capacity, MAX_BITS);
    }
  }

  /** A capacity that fits in `SizedVEBTree<n>`, n in range, gets at most n bits. */
  lemma FitsBy(capacity: nat, n: nat)
    requires 4 <= n <= MAX_BITS && capacity <= Pow2(n)
    ensures BitsForCapacity(capacity).Some? && BitsForCapacity(capacity).value <= n
  {
    assert Fits(capacity, n);
  }

  /** Any capacity up to 16 gets the smallest type, `SizedVEBTree<4>`. */
  lemma SmallCapacities(capacity: nat)
    requires capacity <= 16
    ensures BitsForCapacity(capacity) == Some(4)
  {
    Pow2At4();
  }

  /** A power of two in range gets exactly that many bits: no larger type is chosen. */
  lemma ExactPowerOfTwo(n: nat)
    requires 4 <= n <= MAX_BITS
    ensures BitsForCapacity(Pow2(n)) == Some(n)
  {
    FitsBy(Pow2(n), n);
    var m := BitsForCapacity(Pow2(n)).value;
    if m < n {
      Pow2Strict(m, n);
    }
  }

  /**
   * `new_with_bits(bits)` for bits below 64: fewer than 4 bits get
   * `SizedVEBTree<4>`, 4..=49 bits exactly that type, and more than 49 panic
   * in `new_with_capacity`.
   */
  lemma BitsRequestExact(bits: nat)
    requires bits < USIZE_BITS
    ensures BitsForCapacity(Pow2(bits)) == if bits > MAX_BITS then None else Some(if bits < 4 then 4 else bits)
  {
    if bits < 4 {
      Pow2Monotone(bits, 4);
      Pow2At4();
      SmallCapacities(Pow2(bits));
    } else if bits <= MAX_BITS {
      ExactPowerOfTwo(bits);
    } else {
      Pow2Strict(MAX_BITS, bits);
      PanicsExactlyAbove(Pow2(bits));
    }
  }

  /**
   * `new_with_capacity`: a new empty set of the smallest type whose capacity
   * is at least `capacity`; None where the source panics.
   */
  method NewWithCapacity(capacity: nat) returns (r: Option<VEBTree>)
    ensures r.None? <==> BitsForCapacity(capacity).None?
    ensures r.Some? ==> r.value.Valid() && fresh(r.value.Footprint()) && r.value.Contents == {}
    ensures r.Some? ==> r.value.BITS == BitsForCapacity(capacity).value
  {
    var n := 4;
    while n <= MAX_BITS && !Fits(capacity, n)
      invariant 4 <= n <= MAX_BITS + 1
      invariant FirstFitting(capacity, n) == BitsForCapacity(capacity)
    {
      n := n + 1;
    }
    if n > MAX_BITS {
      return None;
    }
    SizedBits(n);
    var t := VEBTree.Build(SizedVEBTree(n));
    return Some(t);
  }

  /**
   * `new_with_bits`: the assertion `bits < 64` and then
   * `new_with_capacity(1 << bits)`; None where either panics.
   */
  method NewWithBits(bits: nat) returns (r: Option<VEBTree>)
    ensures r.Some? <==> bits <= MAX_BITS
    ensures r.Some? ==> r.value.Valid() && fresh(r.value.Footprint()) && r.value.Contents == {}
    ensures r.Some? ==> r.value.BITS == if bits < 4 then 4 else bits
  {
    if bits >= USIZE_BITS {
      return None;
    }
    BitsRequestExact(bits);
    r := NewWithCapacity(Pow2(bits));
  }

  /** The test in tests/constants.rs: `new_with_capacity(1 << 30)` has capacity `1 << 30`. */
  method CapacityOfTwoTo30() returns (cap: Option<nat>)
    ensures cap == Some(Pow2(30))
  {
    var t := NewWithCapacity(Pow2(30));
    ExactPowerOfTwo(30);
    cap := Some(t.value.Capacity());
  }
}
