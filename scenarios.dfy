/**
 * The usage example of the module documentation and the tests of src/lib.rs,
 * restated as verified methods: each method's postcondition is what the
 * corresponding `assert!`/`assert_eq!` lines check.
 */
module Scenarios {
  import opened Wrappers
  import opened Bitwise
  import opened Sizes
  import opened Outer
  import opened Iteration
  import Contract

  /** A set of at least 4 bits holds 0..15. */
  lemma CapacityAtLeast16(bits: nat)
    requires 4 <= bits
    ensures Pow2(bits) >= 16
  {
    assert Pow2(2) == 4;
    Pow2Add(2, 2);
    Pow2Monotone(4, bits);
  }

  /** `VEBTree24` holds 0..2^24 - 1, so 1337 fits. */
  lemma Capacity24()
    ensures Pow2(24) == 0x100_0000
  {
    assert Pow2(2) == 4;
    Pow2Add(2, 2);
    assert Pow2(4) == 16;
    Pow2Add(4, 4);
    assert Pow2(8) == 0x100;
    Pow2Add(8, 8);
    assert Pow2(16) == 0x1_0000;
    Pow2Add(16, 8);
  }

  /**
   * The module documentation's example on `VEBTree24` (any well-formed shape
   * of 24 bits, `SizedVEBTree(24)` among them): inserting 123, 1337 and 123
   * again; membership of 123 and 42; `next` of 42, 123 and 124; removing 1337
   * twice; `next(124)` afterwards.
   */
  method DocExample(shape: Shape) returns (inserted: seq<bool>, contained: seq<bool>, found: seq<Option<nat>>,
                                           removed: seq<bool>, after: Option<nat>)
    requires WellFormed(shape) && Bits(shape) == 24
    ensures inserted == [true, true, false]
    ensures contained == [true, false]
    ensures found == [Some(123), Some(123), Some(1337)]
    ensures removed == [true, false]
    ensures after == None
  {
    Capacity24();
    var tree := VEBTree.Build(shape);
    inserted := InsertDocValues(tree);
    contained := [tree.Contains(123), tree.Contains(42)];
    var n1, n2, n3 := tree.Next(42), tree.Next(123), tree.Next(124);
    NextOfDocSet(n1, n2, n3);
    found := [n1, n2, n3];
    removed := RemoveDocValue(tree);
    after := tree.Next(124);
    NothingAfter123(after);
  }

  /** The inserts of the documentation example: 123, 1337, then 123 again. */
  method InsertDocValues(tree: VEBTree) returns (inserted: seq<bool>)
    requires tree.Valid() && tree.Contents == {} && tree.Capacity() > 1337
    modifies tree, tree.Repr
    ensures tree.Valid() && tree.Contents == {123, 1337}
    ensures inserted == [true, true, false]
  {
    var a := tree.Insert(123);
    var b := tree.Insert(1337);
    var c := tree.Insert(123);
    inserted := [a, b, c];
  }

  /** The removals of the documentation example: 1337 twice. */
  method RemoveDocValue(tree: VEBTree) returns (removed: seq<bool>)
    requires tree.Valid() && tree.Contents == {123, 1337} && tree.Capacity() > 1337
    modifies tree, tree.Repr
    ensures tree.Valid() && tree.Contents == {123}
    ensures removed == [true, false]
  {
    var d := tree.Remove(1337);
    var e := tree.Remove(1337);
    removed := [d, e];
  }

  /** `next` of 42, 123 and 124 in {123, 1337}. */
  lemma NextOfDocSet(n1: Option<nat>, n2: Option<nat>, n3: Option<nat>)
    requires Contract.IsNext({123, 1337}, 42, n1)
    requires Contract.IsNext({123, 1337}, 123, n2)
    requires Contract.IsNext({123, 1337}, 124, n3)
    ensures n1 == Some(123) && n2 == Some(123) && n3 == Some(1337)
  {
  }

  /** Once 1337 is gone, nothing in {123} is at or after 124. */
  lemma NothingAfter123(r: Option<nat>)
    requires Contract.IsNext({123}, 124, r)
    ensures r == None
  {
  }

  /**
   * `empty_works`: a new set is empty, still empty after `clear`, and
   * contains none of the values below `min(CAPACITY, 1000)`.
   */
  method EmptyWorks(shape: Shape) returns (emptyNew: bool, emptyCleared: bool, anyContained: bool)
    requires WellFormed(shape) && Bits(shape) < 64
    ensures emptyNew && emptyCleared && !anyContained
  {
    var s := VEBTree.Build(shape);
    emptyNew := s.IsEmpty();
    s.Clear();
    emptyCleared := s.IsEmpty();
    anyContained := false;
    var bound := if s.Capacity() < 1000 then s.Capacity() else 1000;
    var x := 0;
    while x < bound
      invariant x <= bound && !anyContained
    {
      if s.Contains(x) {
        anyContained := true;
      }
      x := x + 1;
    }
  }

  /**
   * `small_collect`: after inserting 2, 4 and 6, the iterator returns 2, 4, 6
   * and then None.
   */
  method SmallCollect(shape: Shape) returns (first: Option<nat>, second: Option<nat>, third: Option<nat>, fourth: Option<nat>)
    requires WellFormed(shape) && 4 <= Bits(shape) < 64
    ensures first == Some(2) && second == Some(4) && third == Some(6) && fourth == None
  {
    CapacityAtLeast16(Bits(shape));
    var s := VEBTree.Build(shape);
    var _ := s.Insert(2);
    var _ := s.Insert(4);
    var _ := s.Insert(6);
    assert s.Contents == {2, 4, 6};
    var it := new VEBIterator(s);
    first := it.Next();
    NextOf246(0, first);
    second := it.Next();
    NextOf246(3, second);
    third := it.Next();
    NextOf246(5, third);
    fourth := it.Next();
    NextOf246(7, fourth);
  }

  /** `next` on {2, 4, 6} from the cursor positions `small_collect` reaches. */
  lemma NextOf246(x: nat, r: Option<nat>)
    requires Contract.IsNext({2, 4, 6}, x, r)
    ensures x == 0 ==> r == Some(2)
    ensures x == 3 ==> r == Some(4)
    ensures x == 5 ==> r == Some(6)
    ensures x == 7 ==> r == None
  {
  }

  /** The values from, from + step, from + 2 * step, ... below cap. */
  function Multiples(step: nat, from: nat, cap: nat): seq<nat>
    requires step >= 1
    decreases cap - from
  {
    if from >= cap then [] else [from] + Multiples(step, from + step, cap)
  }

  /** The multiples lie in [from, cap) and ascend strictly. */
  lemma {:induction false} MultiplesAscend(step: nat, from: nat, cap: nat)
    requires step >= 1
    ensures forall i :: 0 <= i < |Multiples(step, from, cap)| ==> from <= Multiples(step, from, cap)[i] < cap
    ensures forall i, j :: 0 <= i < j < |Multiples(step, from, cap)| ==>
      Multiples(step, from, cap)[i] < Multiples(step, from, cap)[j]
    decreases cap - from
  {
    if from < cap {
      MultiplesAscend(step, from + step, cap);
      var r := Multiples(step, from, cap);
      assert forall i :: 1 <= i < |r| ==> r[i] == Multiples(step, from + step, cap)[i - 1];
    }
  }

  /** A non-empty sequence holds its first element. */
  lemma HeadIn(q: seq<nat>)
    ensures q == [] || q[0] in q
  {
  }

  /** Two strictly ascending sequences with the same elements are equal. */
  lemma {:induction false} AscendingUnique(a: seq<nat>, b: seq<nat>)
    requires forall i, j :: 0 <= i < j < |a| ==> a[i] < a[j]
    requires forall i, j :: 0 <= i < j < |b| ==> b[i] < b[j]
    requires forall y :: y in a <==> y in b
    ensures a == b
    decreases |a|
  {
    if a == [] {
      HeadIn(b);
    } else {
      assert b != [] by {
        assert a[0] in b;
      }
      assert a[0] == b[0] by {
        assert a[0] in b && b[0] in a;
      }
      forall y
        ensures y in a[1..] <==> y in b[1..]
      {
        if y in a[1..] {
          assert y in b;
        }
        if y in b[1..] {
          assert y in a;
        }
      }
      AscendingUnique(a[1..], b[1..]);
      assert a == [a[0]] + a[1..] && b == [b[0]] + b[1..];
    }
  }

  /**
   * `spaced_collect`: inserting every `spacing`-th value, spacing being
   * `max(CAPACITY / 20, 2)`, and iterating returns exactly those values in
   * order.
   */
  method SpacedCollect(shape: Shape) returns (out: seq<nat>)
    requires WellFormed(shape) && Bits(shape) < 64
    ensures var cap := Pow2(Bits(shape)); out == Multiples(if cap / 20 > 2 then cap / 20 else 2, 0, cap)
  {
    var s := VEBTree.Build(shape);
    var cap := s.Capacity();
    var spacing := if cap / 20 > 2 then cap / 20 else 2;
    InsertMultiples(s, spacing);
    out := Collect(s);
    MultiplesAscend(spacing, 0, cap);
    AscendingUnique(out, Multiples(spacing, 0, cap));
  }

  /** The insert loop of `spaced_collect`: every `spacing`-th value from 0. */
  method InsertMultiples(s: VEBTree, spacing: nat)
    requires s.Valid() && s.Contents == {} && spacing >= 1
    modifies s, s.Repr
    ensures s.Valid()
    ensures s.Contents == ValuesOf(Multiples(spacing, 0, s.Capacity()))
  {
    var cap := s.Capacity();
    var x := 0;
    ghost var all := Multiples(spacing, 0, cap);
    ghost var done: seq<nat> := [];
    ghost var rest := all;
    while x < cap
      invariant s.Valid()
      invariant rest == Multiples(spacing, x, cap)
      invariant done + rest == all
      invariant s.Contents == ValuesOf(done)
      decreases if x <= cap then cap - x else 0
    {
      InsertNext(s, x, done);
      MultiplesStep(spacing, cap, x, rest, done);
      done, rest := done + [x], rest[1..];
      x := x + spacing;
    }
    MultiplesDone(spacing, cap, x, rest, done);
  }

  /** One `s.insert(x)` of the loop: the set now also holds x. */
  method InsertNext(s: VEBTree, x: nat, ghost done: seq<nat>)
    requires s.Valid() && s.Contents == ValuesOf(done) && x < s.Capacity()
    modifies s, s.Repr
    ensures s.Valid() && s.Contents == ValuesOf(done + [x])
  {
    var _ := s.Insert(x);
    assert ValuesOf(done + [x]) == ValuesOf(done) + {x};
  }

  /** The values of a sequence, as a set. */
  ghost function ValuesOf(q: seq<nat>): set<nat>
  {
    set y | y in q
  }

  /** One turn of the insert loop: x moves from the remaining multiples to the inserted ones. */
  lemma MultiplesStep(step: nat, cap: nat, x: nat, rest: seq<nat>, done: seq<nat>)
    requires step >= 1 && x < cap
    requires rest == Multiples(step, x, cap)
    ensures rest != [] && rest[1..] == Multiples(step, x + step, cap)
    ensures (done + [x]) + rest[1..] == done + rest
  {
    assert rest == [x] + Multiples(step, x + step, cap);
  }

  /** Once x is past cap, nothing remains. */
  lemma MultiplesDone(step: nat, cap: nat, x: nat, rest: seq<nat>, done: seq<nat>)
    requires step >= 1 && x >= cap
    requires rest == Multiples(step, x, cap)
    ensures rest == [] && done + rest == done
  {
  }
}
