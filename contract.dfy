/**
 * The `VEBTree` trait of src/lib.rs: what every set implementation promises.
 *
 * A set with `BITS` bits holds naturals below `CAPACITY == 1 << BITS`; the
 * queries are specified here against the abstract contents, a `set<nat>`.
 */
module Contract {
  import opened Wrappers
  import opened Bitwise

  /** `CAPACITY = 1 << BITS`: the set holds values in [0, CAPACITY). */
  function Capacity(bits: nat): (c: nat)
    ensures c == Pow2(bits) && c >= 1
  {
    Pow2(bits)
  }

  /** `CAPACITY = 1 << BITS` is the word with bit BITS set and no other. */
  lemma CapacityIsOneBit(bits: nat)
    ensures forall i :: 0 <= i ==> (Bit(Capacity(bits), i) <==> i == bits)
  {
    forall i | 0 <= i ensures Bit(Capacity(bits), i) <==> i == bits {
      BitPow2(bits, i);
    }
  }

  /** `MASK = CAPACITY - 1`. */
  function Mask(bits: nat): nat
  {
    Capacity(bits) - 1
  }

  /** `MASK` selects exactly the low `BITS` bits: `x & MASK == x % CAPACITY`. */
  lemma MaskSelectsLowBits(bits: nat, x: nat)
    ensures And(x, Mask(bits)) == x % Capacity(bits)
    ensures forall i :: 0 <= i ==> (Bit(Mask(bits), i) <==> i < bits)
  {
    AndLowMaskIsMod(x, bits);
    forall i | 0 <= i ensures Bit(Mask(bits), i) <==> i < bits {
      BitLowMask(bits, i);
    }
  }

  /** `next(x)`: the first element of s that is greater than or equal to x, if any. */
  ghost predicate IsNext(s: set<nat>, x: nat, r: Option<nat>)
  {
    match r
    case None => forall y :: y in s ==> y < x
    case Some(v) => v in s && x <= v && forall y :: y in s && x <= y ==> v <= y
  }

  /** `prev(x)`: the last element of s that is smaller than or equal to x, if any. */
  ghost predicate IsPrev(s: set<nat>, x: nat, r: Option<nat>)
  {
    match r
    case None => forall y :: y in s ==> x < y
    case Some(v) => v in s && v <= x && forall y :: y in s && y <= x ==> y <= v
  }

  /** `first()`: the minimum of s, if s is not empty. */
  ghost predicate IsFirst(s: set<nat>, r: Option<nat>)
  {
    match r
    case None => s == {}
    case Some(v) => v in s && forall y :: y in s ==> v <= y
  }

  /** `last()`: the maximum of s, if s is not empty. */
  ghost predicate IsLast(s: set<nat>, r: Option<nat>)
  {
    match r
    case None => s == {}
    case Some(v) => v in s && forall y :: y in s ==> y <= v
  }

  /** The contract of `next` leaves no choice: at most one answer satisfies it. */
  lemma NextUnique(s: set<nat>, x: nat, r1: Option<nat>, r2: Option<nat>)
    requires IsNext(s, x, r1) && IsNext(s, x, r2)
    ensures r1 == r2
  {
  }

  /** The contract of `prev` leaves no choice either. */
  lemma PrevUnique(s: set<nat>, x: nat, r1: Option<nat>, r2: Option<nat>)
    requires IsPrev(s, x, r1) && IsPrev(s, x, r2)
    ensures r1 == r2
  {
  }

  /** `first()` is `next(0)`. */
  lemma FirstIsNextOfZero(s: set<nat>, r: Option<nat>)
    ensures IsFirst(s, r) <==> IsNext(s, 0, r)
  {
  }

  /** `last()` is `prev(CAPACITY - 1)` for a set below CAPACITY. */
  lemma LastIsPrevOfMask(s: set<nat>, bits: nat, r: Option<nat>)
    requires forall y :: y in s ==> y < Capacity(bits)
    ensures IsLast(s, r) <==> IsPrev(s, Mask(bits), r)
  {
  }
}
