/**
 * `VEBIterator` of src/lib.rs: a cursor over a set that asks `next` for the
 * first element at or after the cursor and moves the cursor just past it.
 */
module Iteration {
  import opened Wrappers
  import opened Outer
  import Contract

  class VEBIterator {
    /** The set iterated over; the iterator only reads it. */
    const tree: VEBTree
    /** `next_start`: where the next search begins. */
    var nextStart: nat
    /** The values returned so far, in order. */
    ghost var Yielded: seq<nat>

    /**
     * The values returned so far are strictly ascending, and they are exactly
     * the elements of the set below the cursor.
     */
    ghost predicate Valid()
      reads this, tree, tree.Repr
    {
      && tree.Valid()
      && this !in tree.Repr
      && nextStart <= tree.Capacity()
      && (forall i, j :: 0 <= i < j < |Yielded| ==> Yielded[i] < Yielded[j])
      && (forall i :: 0 <= i < |Yielded| ==> Yielded[i] in tree.Contents && Yielded[i] < nextStart)
      && (forall y :: y in tree.Contents && y < nextStart ==> y in Yielded)
    }

    /** `iter()`: a cursor at 0 that has returned nothing. */
    constructor (t: VEBTree)
      requires t.Valid()
      ensures Valid() && tree == t && nextStart == 0 && Yielded == []
    {
      tree := t;
      nextStart := 0;
      Yielded := [];
    }

    /**
     * `next`: None once the cursor is at `CAPACITY`; otherwise the first
     * element at or after the cursor, after which the cursor moves past it.
     * Returning None means every element has been returned.
     */
    method Next() returns (r: Option<nat>)
      requires Valid()
      modifies this
      ensures Valid()
      ensures old(nextStart) < tree.Capacity() ==> Contract.IsNext(tree.Contents, old(nextStart), r)
      ensures old(nextStart) == tree.Capacity() ==> r == None
      ensures r.Some? ==> nextStart == r.value + 1 && Yielded == old(Yielded) + [r.value]
      ensures r.None? ==> nextStart == old(nextStart) && Yielded == old(Yielded)
      ensures r.None? ==> forall y :: y in tree.Contents ==> y in Yielded
    {
      if nextStart == tree.Capacity() {
        tree.InRange();
        return None;
      }
      r := tree.Next(nextStart);
      if r.Some? {
        tree.InRange();
        nextStart := r.value + 1;
        Yielded := Yielded + [r.value];
      }
    }
  }

  /**
   * Draining a new iterator: `iter().collect()`. The values come out strictly
   * ascending and are exactly the elements of the set.
   */
  method Collect(t: VEBTree) returns (out: seq<nat>)
    requires t.Valid()
    ensures forall i, j :: 0 <= i < j < |out| ==> out[i] < out[j]
    ensures forall y :: y in out <==> y in t.Contents
  {
    var it := new VEBIterator(t);
    out := [];
    var r := it.Next();
    while r.Some?
      invariant it.Valid() && it.tree == t
      invariant r.Some? ==> it.Yielded == out + [r.value]
      invariant r.None? ==> it.Yielded == out && forall y :: y in t.Contents ==> y in out
      decreases t.Capacity() - it.nextStart + (if r.Some? then 1 else 0)
    {
      out := out + [r.value];
      r := it.Next();
    }
  }
}
