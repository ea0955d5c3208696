/**
 * The word operations the leaf bitset is written with (the `Bits` trait of
 * src/small_set.rs, implemented there for u16, u32, u64 and u128).
 *
 * A word of width W is a natural number below 2^W. Shifts, bitwise and/or and
 * the complement within W bits are defined digit by digit (by halving), and
 * `trailing_zeros`/`leading_zeros` by counting, so that every property below is
 * proved from the bit positions they touch.
 */
module Bitwise {

  /** 2^n, i.e. `1 << n`. */
  function Pow2(n: nat): (r: nat)
    ensures r >= 1
  {
    if n == 0 then 1 else 2 * Pow2(n - 1)
  }

  /** `w >> n`: n halvings. */
  function Shr(w: nat, n: nat): nat
  {
    if n == 0 then w else Shr(w / 2, n - 1)
  }

  /** Bit i of w is set: `w >> i & 1 != 0`. */
  predicate Bit(w: nat, i: nat)
  {
    Shr(w, i) % 2 == 1
  }

  /** `a & b`. */
  function And(a: nat, b: nat): nat
    decreases a
  {
    if a == 0 || b == 0 then 0
    else 2 * And(a / 2, b / 2) + (if a % 2 == 1 && b % 2 == 1 then 1 else 0)
  }

  /** `a | b`. */
  function Or(a: nat, b: nat): nat
    decreases a + b
  {
    if a == 0 then b
    else if b == 0 then a
    else 2 * Or(a / 2, b / 2) + (if a % 2 == 1 || b % 2 == 1 then 1 else 0)
  }

  /** `!a` on a word of `width` bits. */
  function Not(a: nat, width: nat): nat
  {
    if width == 0 then 0 else 2 * Not(a / 2, width - 1) + (1 - a % 2)
  }

  /** `trailing_zeros` of a non-zero word: the number of clear bits below the lowest set bit. */
  function TrailingZeros(w: nat): nat
    requires w != 0
  {
    if w % 2 == 1 then 0 else 1 + TrailingZeros(w / 2)
  }

  /** `leading_zeros` of a word of `width` bits: the number of clear bits above the highest set bit. */
  function LeadingZeros(w: nat, width: nat): nat
  {
    if width == 0 then 0
    else if Bit(w, width - 1) then 0
    else 1 + LeadingZeros(w, width - 1)
  }

  // ---------------------------------------------------------------------------
  // Bit-level meaning of each operation

  lemma BitHalf(w: nat, i: nat)
    requires i > 0
    ensures Bit(w, i) == Bit(w / 2, i - 1)
  {
  }

  lemma {:induction false} BitZero(i: nat)
    ensures !Bit(0, i)
  {
    if i > 0 {
      BitZero(i - 1);
    }
  }

  lemma {:induction false} BitAnd(a: nat, b: nat, i: nat)
    ensures Bit(And(a, b), i) == (Bit(a, i) && Bit(b, i))
    decreases i
  {
    if a == 0 || b == 0 {
      BitZero(i);
    } else if i > 0 {
      BitAnd(a / 2, b / 2, i - 1);
      BitHalf(And(a, b), i);
      BitHalf(a, i);
      BitHalf(b, i);
    }
  }

  lemma {:induction false} BitOr(a: nat, b: nat, i: nat)
    ensures Bit(Or(a, b), i) == (Bit(a, i) || Bit(b, i))
    decreases i
  {
    if a == 0 {
      BitZero(i);
    } else if b == 0 {
      BitZero(i);
    } else if i > 0 {
      BitOr(a / 2, b / 2, i - 1);
      BitHalf(Or(a, b), i);
      BitHalf(a, i);
      BitHalf(b, i);
    }
  }

  lemma {:induction false} BitNot(a: nat, width: nat, i: nat)
    ensures Bit(Not(a, width), i) == (i < width && !Bit(a, i))
    decreases width
  {
    if width == 0 {
      BitZero(i);
    } else if i > 0 {
      BitNot(a / 2, width - 1, i - 1);
      BitHalf(Not(a, width), i);
      BitHalf(a, i);
    }
  }

  /** `1 << x` has exactly bit x set. */
  lemma {:induction false} BitPow2(x: nat, i: nat)
    ensures Bit(Pow2(x), i) == (i == x)
    decreases x
  {
    if x == 0 {
      if i > 0 {
        BitHalf(1, i);
        BitZero(i - 1);
      }
    } else if i == 0 {
    } else {
      BitPow2(x - 1, i - 1);
      BitHalf(Pow2(x), i);
    }
  }

  /** `(1 << x) - 1` has exactly the bits below x set. */
  lemma {:induction false} BitLowMask(x: nat, i: nat)
    ensures Bit(Pow2(x) - 1, i) == (i < x)
    decreases x
  {
    if x == 0 {
      BitZero(i);
    } else if i > 0 {
      assert (Pow2(x) - 1) / 2 == Pow2(x - 1) - 1;
      BitLowMask(x - 1, i - 1);
      BitHalf(Pow2(x) - 1, i);
    }
  }

  /** A word below 2^n has no bit at position n or above. */
  lemma {:induction false} BitAbove(w: nat, n: nat, i: nat)
    requires w < Pow2(n) && i >= n
    ensures !Bit(w, i)
    decreases n
  {
    if n == 0 {
      assert w == 0;
      BitZero(i);
    } else {
      BitAbove(w / 2, n - 1, i - 1);
      BitHalf(w, i);
    }
  }

  /** `shr` is division by a power of two. */
  lemma {:induction false} ShrIsDiv(w: nat, n: nat)
    ensures Shr(w, n) == w / Pow2(n)
    decreases n
  {
    if n > 0 {
      ShrIsDiv(w / 2, n - 1);
      DivHalf(w, Pow2(n - 1));
    }
  }

  lemma DivHalf(w: nat, p: nat)
    requires p >= 1
    ensures (w / 2) / p == w / (2 * p)
  {
    var q := w / (2 * p);
    var r := w % (2 * p);
    assert w == (2 * p) * q + r;
    assert (2 * p) * q == 2 * (p * q);
    DivUnique(w, 2, p * q + r / 2, w % 2);
    DivUnique(w / 2, p, q, r / 2);
  }

  /** The quotient and remainder of a division are unique. */
  lemma DivUnique(a: nat, d: nat, q: nat, s: nat)
    requires d >= 1 && s < d && a == q * d + s
    ensures a / d == q && a % d == s
  {
    if a / d > q {
      MulMonotone(q + 1, a / d, d);
      assert false;
    } else if a / d < q {
      MulMonotone(a / d + 1, q, d);
      assert false;
    }
  }

  lemma MulMonotone(a: nat, b: nat, d: nat)
    requires a <= b
    ensures a * d <= b * d
  {
  }

  /** `x & ((1 << n) - 1)` keeps the low n bits: it is `x % 2^n`. */
  lemma {:induction false} AndLowMaskIsMod(x: nat, n: nat)
    ensures And(x, Pow2(n) - 1) == x % Pow2(n)
    decreases n
  {
    if n == 0 {
    } else if x == 0 {
    } else {
      var m := Pow2(n) - 1;
      assert m / 2 == Pow2(n - 1) - 1 && m % 2 == 1;
      AndLowMaskIsMod(x / 2, n - 1);
      ModDouble(x, Pow2(n - 1));
    }
  }

  lemma ModDouble(x: nat, p: nat)
    requires p >= 1
    ensures x % (2 * p) == 2 * ((x / 2) % p) + x % 2
  {
    DivHalf(x, p);
    var q := x / (2 * p);
    assert (x / 2) / p == q;
    assert x / 2 == q * p + (x / 2) % p;
    assert x == 2 * (x / 2) + x % 2;
    assert x == q * (2 * p) + (2 * ((x / 2) % p) + x % 2);
  }

  // ---------------------------------------------------------------------------
  // Sizes

  lemma {:induction false} AndBound(a: nat, b: nat)
    ensures And(a, b) <= a
    decreases a
  {
    if a != 0 && b != 0 {
      AndBound(a / 2, b / 2);
    }
  }

  lemma {:induction false} OrBound(a: nat, b: nat, n: nat)
    requires a < Pow2(n) && b < Pow2(n)
    ensures Or(a, b) < Pow2(n)
    decreases n
  {
    if a != 0 && b != 0 {
      OrBound(a / 2, b / 2, n - 1);
    }
  }

  lemma {:induction false} Pow2Monotone(a: nat, b: nat)
    requires a <= b
    ensures Pow2(a) <= Pow2(b)
    decreases b
  {
    if a < b {
      Pow2Monotone(a, b - 1);
    }
  }

  lemma {:induction false} Pow2Add(a: nat, b: nat)
    ensures Pow2(a + b) == Pow2(a) * Pow2(b)
    decreases a
  {
    if a > 0 {
      Pow2Add(a - 1, b);
    }
  }

  // ---------------------------------------------------------------------------
  // Counting zeros

  /** The lowest set bit of a non-zero word is at `trailing_zeros`. */
  lemma {:induction false} TrailingZerosLowest(w: nat)
    requires w != 0
    ensures Bit(w, TrailingZeros(w))
    ensures forall i :: 0 <= i < TrailingZeros(w) ==> !Bit(w, i)
    decreases w
  {
    if w % 2 == 0 {
      TrailingZerosLowest(w / 2);
      BitHalf(w, TrailingZeros(w));
      forall i | 0 < i < TrailingZeros(w) ensures !Bit(w, i) {
        BitHalf(w, i);
      }
    }
  }

  /** A non-zero word has a set bit. */
  lemma NonZeroHasBit(w: nat)
    requires w != 0
    ensures exists i :: 0 <= i && Bit(w, i)
  {
    TrailingZerosLowest(w);
  }

  /**
   * In a word of `width` bits, `width - 1 - leading_zeros` is the highest set
   * bit, provided some bit is set.
   */
  lemma {:induction false} LeadingZerosHighest(w: nat, width: nat, k: nat)
    requires w < Pow2(width) && k < width && Bit(w, k)
    ensures LeadingZeros(w, width) < width
    ensures Bit(w, width - 1 - LeadingZeros(w, width))
    ensures forall i :: width - 1 - LeadingZeros(w, width) < i ==> !Bit(w, i)
    decreases width
  {
    forall i | width <= i ensures !Bit(w, i) {
      BitAbove(w, width, i);
    }
    if !Bit(w, width - 1) {
      assert k < width - 1;
      Pow2Monotone(width - 1, width);
      // the word also fits in width - 1 bits
      LowerWidth(w, width - 1);
      LeadingZerosHighest(w, width - 1, k);
    }
  }

  /** A word whose bit n is clear and that fits in n + 1 bits fits in n bits. */
  lemma {:induction false} LowerWidth(w: nat, n: nat)
    requires w < Pow2(n + 1) && !Bit(w, n)
    ensures w < Pow2(n)
    decreases n
  {
    if n > 0 {
      BitHalf(w, n);
      LowerWidth(w / 2, n - 1);
    }
  }

  /** A word that fits in n bits and has no set bit below n is zero. */
  lemma {:induction false} NoBitsIsZero(w: nat, n: nat)
    requires w < Pow2(n)
    requires forall i :: 0 <= i < n ==> !Bit(w, i)
    ensures w == 0
    decreases n
  {
    if n > 0 {
      assert !Bit(w, n - 1);
      LowerWidth(w, n - 1);
      NoBitsIsZero(w, n - 1);
    }
  }
}
