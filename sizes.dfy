/**
 * The size table of src/sizes.rs: which concrete set type holds integers of
 * `n` bits. The source builds it at the type level (`GetVEBTreeSize<n>`); here
 * the resolved type is a value of `Shape`.
 */
module Sizes {
  import opened Bitwise

  /** A concrete set type: a leaf bitset or a composite node over two smaller types. */
  datatype Shape =
    | Small(bits: nat, width: nat)          // SmallSet<bits, u{width}>
    | Composite(upper: Shape, lower: Shape)  // outer::VEBTree<Upper, Lower>

  /** `InnerVEBTree::BITS`: a leaf has its own BITS, a composite `Upper::BITS + Lower::BITS`. */
  function Bits(s: Shape): nat
  {
    match s
    case Small(b, _) => b
    case Composite(u, l) => Bits(u) + Bits(l)
  }

  /** Every leaf is one of the four bitsets, whose word width is 2^BITS. */
  ghost predicate WellFormed(s: Shape)
  {
    match s
    case Small(b, w) => 4 <= b <= 7 && w == Pow2(b)
    case Composite(u, l) => WellFormed(u) && WellFormed(l)
  }

  /** `SizedVEBTree<n>`: leaves for 4..7 bits, otherwise upper = n/2 bits and lower = (n+1)/2 bits. */
  function SizedVEBTree(n: nat): Shape
    requires 4 <= n <= 57
    decreases n
  {
    if n == 4 then Small(4, 16)
    else if n == 5 then Small(5, 32)
    else if n == 6 then Small(6, 64)
    else if n == 7 then Small(7, 128)
    else Composite(SizedVEBTree(n / 2), SizedVEBTree((n + 1) / 2))
  }

  /** Bit widths 4..7 are the leaves with 16-, 32-, 64- and 128-bit words. */
  lemma LeafSizes(n: nat)
    requires 4 <= n <= 7
    ensures SizedVEBTree(n) == Small(n, Pow2(n))
  {
  }

  /**
   * From 8 bits on the shape is a composite whose halves have n/2 and (n+1)/2
   * bits; both halves stay within the table and are strictly smaller than n.
   */
  lemma CompositeHalves(n: nat)
    requires 8 <= n <= 57
    ensures SizedVEBTree(n).Composite?
    ensures 4 <= n / 2 <= (n + 1) / 2 < n
    ensures SizedVEBTree(n).upper == SizedVEBTree(n / 2)
    ensures SizedVEBTree(n).lower == SizedVEBTree((n + 1) / 2)
  {
  }

  /** `SizedVEBTree<n>::BITS == n`, and the resolved type bottoms out in valid leaves. */
  lemma {:induction false} SizedBits(n: nat)
    requires 4 <= n <= 57
    ensures Bits(SizedVEBTree(n)) == n
    ensures WellFormed(SizedVEBTree(n))
    decreases n
  {
    if n >= 8 {
      SizedBits(n / 2);
      SizedBits((n + 1) / 2);
    }
  }

  /** `CAPACITY == 1 << n`, and a composite's capacity is the product of its halves' capacities. */
  lemma SizedCapacity(n: nat)
    requires 4 <= n <= 57
    ensures Pow2(Bits(SizedVEBTree(n))) == Pow2(n)
    ensures n >= 8 ==> Pow2(n) == Pow2(Bits(SizedVEBTree(n).upper)) * Pow2(Bits(SizedVEBTree(n).lower))
  {
    SizedBits(n);
    if n >= 8 {
      SizedBits(n / 2);
      SizedBits((n + 1) / 2);
      Pow2Add(n / 2, (n + 1) / 2);
    }
  }
}
