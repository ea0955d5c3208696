/**
 * `remove` of src/outer.rs as written, seen through what it reads and writes
 * of a composite node: the cached `min` and `max` and the set of values its
 * clusters hold. Removing the only element leaves `max` at 0 rather than at
 * `usize::MAX`; a later `remove(0)` then reaches `debug_assert!(x != self.max)`
 * with `x == self.max`. The verified node (`Outer.VEBTree.RemoveFromSingleton`)
 * resets both fields to `usize::MAX` instead.
 */
module EmptyState {
  import opened Wrappers
  import Outer

  /** The cached fields of a composite node and the values stored in its clusters. */
  datatype Node = Node(min: nat, max: nat, clusters: set<nat>)

  /** A call either returns (with the node after it) or stops at a failed `expect` or `debug_assert!`. */
  datatype Outcome = Returned(removed: bool, node: Node) | Panicked

  /** The node invariant on these fields: empty nodes have both fields at `usize::MAX`. */
  ghost predicate Coherent(n: Node)
  {
    && (n.min == Outer.SENTINEL ==> n.max == Outer.SENTINEL && n.clusters == {})
    && (n.min != Outer.SENTINEL ==>
          && (forall y :: y in n.clusters ==> n.min < y <= n.max)
          && (n.max == n.min || n.max in n.clusters))
  }

  /** The least value of s in [x, cap): the cluster part of `next`. */
  function LeastFrom(s: set<nat>, x: nat, cap: nat): (r: Option<nat>)
    ensures r.Some? ==> r.value in s && x <= r.value < cap
    ensures r.None? ==> forall y :: y in s && x <= y ==> y >= cap
    decreases cap - x
  {
    if x >= cap then None
    else if x in s then Some(x)
    else LeastFrom(s, x + 1, cap)
  }

  /** The greatest value of s at or below x: the cluster part of `prev`. */
  function GreatestUpTo(s: set<nat>, x: nat): (r: Option<nat>)
    ensures r.Some? ==> r.value in s && r.value <= x
    ensures r.None? ==> forall y :: y in s ==> y > x
  {
    if x in s then Some(x)
    else if x == 0 then None
    else GreatestUpTo(s, x - 1)
  }

  /**
   * `remove(x)` as written at src/outer.rs:155-188 on a node of capacity `cap`:
   * the singleton case sets `max = 0`; removing `min` promotes `next(x + 1)`;
   * removing `max` recomputes it with `prev(x - 1)`; a value absent from the
   * clusters must not be `max`. A subtraction below zero panics, as Rust's does
   * in a checked build.
   */
  function RemoveAsWritten(n: Node, cap: nat, x: nat): (r: Outcome)
    requires x < cap
    ensures n.min == n.max ==> r.Returned?
    ensures r.Returned? ==> r.node.clusters <= n.clusters
    ensures Coherent(n) && r.Returned? ==> (r.removed <==> x in n.clusters + {n.min})
    ensures r.Returned? && !r.removed ==> r.node.clusters == n.clusters
  {
    if n.min == n.max then
      if x == n.min then Returned(true, Node(Outer.SENTINEL, 0, n.clusters))
      else Returned(false, n)
    else if x == n.min && (x + 1 > n.max || LeastFrom(n.clusters, x + 1, cap).None?) then
      Panicked
    else
      var x1 := if x == n.min then LeastFrom(n.clusters, x + 1, cap).value else x;
      var min1 := if x == n.min then x1 else n.min;
      if x1 in n.clusters then
        var rest := n.clusters - {x1};
        if x1 != min1 && x1 == n.max then
          if x1 == 0 || x1 - 1 < min1 then Panicked
          else
            var p := GreatestUpTo(rest, x1 - 1);
            Returned(true, Node(min1, if p.Some? then p.value else min1, rest))
        else
          Returned(true, Node(min1, n.max, rest))
      else if x1 == n.max then
        Panicked
      else
        Returned(false, Node(min1, n.max, n.clusters))
  }

  /** Removing the only element of a coherent node leaves a node that is not coherent. */
  lemma SingletonRemovalLeavesMaxZero(m: nat, cap: nat)
    requires m < cap < Outer.SENTINEL
    ensures Coherent(Node(m, m, {}))
    ensures RemoveAsWritten(Node(m, m, {}), cap, m) == Returned(true, Node(Outer.SENTINEL, 0, {}))
    ensures !Coherent(Node(Outer.SENTINEL, 0, {}))
  {
  }

  /**
   * On the node so emptied, `remove(0)` finds 0 in no cluster while `max == 0`:
   * the debug assertion fails, whatever the capacity.
   */
  lemma EmptiedNodeRejectsZero(cap: nat)
    requires 0 < cap
    ensures RemoveAsWritten(Node(Outer.SENTINEL, 0, {}), cap, 0) == Panicked
  {
  }

  /**
   * The singleton scenario with x = 0 on the smallest composite node, the
   * 256-value `SizedVEBTree<8>`: `insert(0)` makes the node `min == max == 0`;
   * `remove(0)` returns true; the repeated `remove(0)`, which should return
   * false, panics instead.
   */
  lemma SingletonZeroScenario()
    ensures RemoveAsWritten(Node(0, 0, {}), 256, 0) == Returned(true, Node(Outer.SENTINEL, 0, {}))
    ensures RemoveAsWritten(Node(Outer.SENTINEL, 0, {}), 256, 0) == Panicked
  {
  }
}
