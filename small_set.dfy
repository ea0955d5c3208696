/**
 * The base case of the recursion (src/small_set.rs): a set of naturals below
 * `CAPACITY = 1 << BITS` kept as one flag word of `WIDTH` bits, bit i set
 * exactly when i is in the set. `WIDTH` is the width of the word type the
 * size table picks (u16, u32, u64 or u128), which equals `CAPACITY`.
 */
module SmallSets {
  import opened Wrappers
  import opened Bitwise
  import Contract

  class SmallSet {
    /** The set holds values with `BITS` bits. */
    const BITS: nat
    /** Width of the flag word type. */
    const WIDTH: nat
    /** The flag word. */
    var bits: nat

    ghost predicate Valid()
      reads this
    {
      4 <= BITS <= 7 && WIDTH == Contract.Capacity(BITS) && bits < Pow2(WIDTH)
    }

    /** The abstract contents: the positions of the set flags. */
    ghost function Elements(): set<nat>
      reads this
    {
      set i: nat | i < WIDTH && Bit(bits, i)
    }

    /** `1 << BITS`. */
    function Capacity(): nat
    {
      Contract.Capacity(BITS)
    }

    constructor (BITS: nat, WIDTH: nat)
      requires 4 <= BITS <= 7 && WIDTH == Contract.Capacity(BITS)
      ensures Valid() && Elements() == {}
      ensures this.BITS == BITS && this.WIDTH == WIDTH
    {
      this.BITS := BITS;
      this.WIDTH := WIDTH;
      bits := 0;
      new;
      forall i: nat ensures !Bit(bits, i) {
        BitZero(i);
      }
    }

    /** Every element is below the capacity. */
    lemma ElementsBelowCapacity()
      requires Valid()
      ensures forall y :: y in Elements() ==> y < Capacity()
    {
    }

    /** The word is zero exactly when the set is empty. */
    lemma EmptyIffZero()
      requires Valid()
      ensures Elements() == {} <==> bits == 0
    {
      if bits != 0 {
        TrailingZerosLowest(bits);
        var k := TrailingZeros(bits);
        if k >= WIDTH {
          BitAbove(bits, WIDTH, k);
        }
        assert k in Elements();
      } else {
        forall i: nat ensures !Bit(bits, i) {
          BitZero(i);
        }
      }
    }

    method Clear()
      requires Valid()
      modifies this
      ensures Valid() && Elements() == {}
    {
      bits := 0;
      EmptyIffZero();
    }

    function IsEmpty(): (r: bool)
      reads this
      requires Valid()
      ensures r <==> Elements() == {}
    {
      EmptyIffZero();
      bits == 0
    }

    function Contains(x: nat): (r: bool)
      reads this
      requires Valid() && x < Capacity()
      ensures r <==> x in Elements()
    {
      Shr(bits, x) % 2 != 0
    }

    method Insert(x: nat) returns (r: bool)
      requires Valid() && x < Capacity()
      modifies this
      ensures Valid()
      ensures r <==> x !in old(Elements())
      ensures Elements() == old(Elements()) + {x}
    {
      var was := Contains(x);
      ghost var before := bits;
      Pow2Monotone(x + 1, WIDTH);
      OrBound(bits, Pow2(x), WIDTH);
      bits := Or(bits, Pow2(x));
      forall i: nat ensures Bit(bits, i) <==> i == x || Bit(before, i) {
        BitOr(before, Pow2(x), i);
        BitPow2(x, i);
      }
      r := !was;
    }

    method Remove(x: nat) returns (r: bool)
      requires Valid() && x < Capacity()
      modifies this
      ensures Valid()
      ensures r <==> x in old(Elements())
      ensures Elements() == old(Elements()) - {x}
    {
      var was := Contains(x);
      ghost var before := bits;
      AndBound(bits, Not(Pow2(x), WIDTH));
      bits := And(bits, Not(Pow2(x), WIDTH));
      forall i: nat ensures Bit(bits, i) <==> i != x && i < WIDTH && Bit(before, i) {
        BitAnd(before, Not(Pow2(x), WIDTH), i);
        BitNot(Pow2(x), WIDTH, i);
        BitPow2(x, i);
      }
      r := was;
    }

    /** The bits of `bits & !((1 << x) - 1)` are the set bits at x and above. */
    lemma BitsAtOrAbove(x: nat, big: nat)
      requires Valid() && x < WIDTH
      requires big == And(bits, Not(Pow2(x) - 1, WIDTH))
      ensures big < Pow2(WIDTH)
      ensures forall i :: 0 <= i ==> (Bit(big, i) <==> x <= i < WIDTH && Bit(bits, i))
    {
      AndBound(bits, Not(Pow2(x) - 1, WIDTH));
      forall i | 0 <= i ensures Bit(big, i) <==> x <= i < WIDTH && Bit(bits, i) {
        BitAnd(bits, Not(Pow2(x) - 1, WIDTH), i);
        BitNot(Pow2(x) - 1, WIDTH, i);
        BitLowMask(x, i);
      }
    }

    /** The bits of the masked word `prev` searches are the set bits at x and below. */
    lemma BitsAtOrBelow(x: nat, small: nat)
      requires Valid() && x < WIDTH
      requires small == if x == Capacity() - 1 then bits else And(bits, Pow2(x + 1) - 1)
      ensures small < Pow2(WIDTH)
      ensures forall i :: 0 <= i ==> (Bit(small, i) <==> i <= x && Bit(bits, i))
    {
      if x == Capacity() - 1 {
        NoBitsAbove(bits, WIDTH);
      } else {
        MaskedAtOrBelow(bits, WIDTH, x, small);
      }
    }

    /** A word below 2^width has no bit at width - 1 or above except those below width. */
    static lemma NoBitsAbove(w: nat, width: nat)
      requires w < Pow2(width) && width >= 1
      ensures forall i :: 0 <= i ==> (Bit(w, i) <==> i <= width - 1 && Bit(w, i))
    {
      forall i | width - 1 < i ensures !Bit(w, i) {
        BitAbove(w, width, i);
      }
    }

    /** Masking with `(1 << (x + 1)) - 1` keeps exactly the bits at x and below. */
    static lemma MaskedAtOrBelow(w: nat, width: nat, x: nat, small: nat)
      requires w < Pow2(width) && small == And(w, Pow2(x + 1) - 1)
      ensures small < Pow2(width)
      ensures forall i :: 0 <= i ==> (Bit(small, i) <==> i <= x && Bit(w, i))
    {
      AndBound(w, Pow2(x + 1) - 1);
      forall i | 0 <= i ensures Bit(small, i) <==> i <= x && Bit(w, i) {
        BitAnd(w, Pow2(x + 1) - 1, i);
        BitLowMask(x + 1, i);
      }
    }

    /** The lowest set bit of a word that fits the flag word. */
    lemma Lowest(w: nat)
      requires Valid() && w != 0 && w < Pow2(WIDTH)
      ensures TrailingZeros(w) < WIDTH && Bit(w, TrailingZeros(w))
      ensures forall i :: 0 <= i < TrailingZeros(w) ==> !Bit(w, i)
    {
      TrailingZerosLowest(w);
      if TrailingZeros(w) >= WIDTH {
        BitAbove(w, WIDTH, TrailingZeros(w));
      }
    }

    /** `CAPACITY - 1 - leading_zeros` is the highest set bit of a non-zero word. */
    lemma Highest(w: nat)
      requires Valid() && w != 0 && w < Pow2(WIDTH)
      ensures LeadingZeros(w, WIDTH) < Capacity()
      ensures Capacity() - 1 - LeadingZeros(w, WIDTH) < WIDTH
      ensures Bit(w, Capacity() - 1 - LeadingZeros(w, WIDTH))
      ensures forall i :: Capacity() - 1 - LeadingZeros(w, WIDTH) < i ==> !Bit(w, i)
    {
      Lowest(w);
      LeadingZerosHighest(w, WIDTH, TrailingZeros(w));
    }

    function Next(x: nat): (r: Option<nat>)
      reads this
      requires Valid() && x < Capacity()
      ensures Contract.IsNext(Elements(), x, r)
    {
      var bigEnough := And(bits, Not(Pow2(x) - 1, WIDTH));
      BitsAtOrAbove(x, bigEnough);
      if bigEnough != 0 then
        Lowest(bigEnough);
        Some(TrailingZeros(bigEnough))
      else
        BitZeroEverywhere();
        None
    }

    function Prev(x: nat): (r: Option<nat>)
      reads this
      requires Valid() && x < Capacity()
      ensures Contract.IsPrev(Elements(), x, r)
    {
      var smallEnough := if x == Capacity() - 1 then bits else And(bits, Pow2(x + 1) - 1);
      BitsAtOrBelow(x, smallEnough);
      if smallEnough != 0 then
        Highest(smallEnough);
        Some(Capacity() - 1 - LeadingZeros(smallEnough, WIDTH))
      else
        BitZeroEverywhere();
        None
    }

    function First(): (r: Option<nat>)
      reads this
      requires Valid()
      ensures Contract.IsFirst(Elements(), r)
    {
      EmptyIffZero();
      if bits != 0 then
        Lowest(bits);
        Some(TrailingZeros(bits))
      else
        None
    }

    function Last(): (r: Option<nat>)
      reads this
      requires Valid()
      ensures Contract.IsLast(Elements(), r)
    {
      EmptyIffZero();
      if bits != 0 then
        Highest(bits);
        Some(Capacity() - 1 - LeadingZeros(bits, WIDTH))
      else
        None
    }

    static lemma BitZeroEverywhere()
      ensures forall i :: 0 <= i ==> !Bit(0, i)
    {
      forall i | 0 <= i ensures !Bit(0, i) {
        BitZero(i);
      }
    }
  }
}
