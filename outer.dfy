/**
 * The composite node of src/outer.rs, together with the choice between it and
 * the leaf bitset that the size table makes for each bit width.
 *
 * A composite node over `BITS = Upper::BITS + Lower::BITS` bits keeps
 *   - `upper`: the set of non-empty cluster numbers,
 *   - `lower[u]`: the low `Lower::BITS` bits of the elements of cluster u,
 *   - `min`/`max`: the cached extremes, `min` stored nowhere else, with
 *     `usize::MAX` marking the empty set.
 * Element x lives in cluster `x >> Lower::BITS` at offset `x & (Lower::CAPACITY - 1)`.
 */
module Outer {
  import opened Wrappers
  import opened Bitwise
  import Contract
  import opened SmallSets
  import opened Sizes

  /** `usize::MAX`, the value of `min` (and `max`) in an empty node. */
  const SENTINEL: nat := 0xFFFF_FFFF_FFFF_FFFF

  // ---------------------------------------------------------------------------
  // Cluster arithmetic. With clusters of c values, element x is offset
  // `Offset(x, c)` in cluster `Cluster(x, c)`, and `Join(u, l, c)` is
  // `(u << Lower::BITS) + l`. They are defined by repeated subtraction and
  // addition so that the solver only ever sees linear arithmetic.

  function Join(u: nat, l: nat, c: nat): nat
  {
    if u == 0 then l else Join(u - 1, l, c) + c
  }

  function Cluster(x: nat, c: nat): nat
    requires c >= 1
    decreases x
  {
    if x < c then 0 else 1 + Cluster(x - c, c)
  }

  function Offset(x: nat, c: nat): nat
    requires c >= 1
    decreases x
  {
    if x < c then x else Offset(x - c, c)
  }

  /** Splitting and joining again gives x back; the offset is below c. */
  lemma {:induction false} SplitJoin(x: nat, c: nat)
    requires c >= 1
    ensures Offset(x, c) < c
    ensures Join(Cluster(x, c), Offset(x, c), c) == x
    decreases x
  {
    if x >= c {
      SplitJoin(x - c, c);
    }
  }

  /** A value below k whole clusters lies in one of the first k clusters. */
  lemma SplitBelow(x: nat, k: nat, c: nat)
    requires c >= 1 && x < Join(k, 0, c)
    ensures Cluster(x, c) < k && Offset(x, c) < c
    ensures Join(Cluster(x, c), Offset(x, c), c) == x
  {
    SplitJoin(x, c);
    JoinOrder(k, 0, Cluster(x, c), Offset(x, c), c);
  }

  /** Joining and splitting again gives the cluster and offset back. */
  lemma {:induction false} JoinSplit(u: nat, l: nat, c: nat)
    requires l < c
    ensures Cluster(Join(u, l, c), c) == u && Offset(Join(u, l, c), c) == l
    decreases u
  {
    if u > 0 {
      JoinSplit(u - 1, l, c);
    }
  }

  /** Joined values are ordered by cluster first, then by offset. */
  lemma {:induction false} JoinOrder(u1: nat, l1: nat, u2: nat, l2: nat, c: nat)
    requires l1 < c && l2 < c
    ensures Join(u1, l1, c) <= Join(u2, l2, c) <==> u1 < u2 || (u1 == u2 && l1 <= l2)
    decreases u1 + u2
  {
    if u1 > 0 && u2 > 0 {
      JoinOrder(u1 - 1, l1, u2 - 1, l2, c);
    } else if u1 > 0 {
      JoinAtLeast(u1 - 1, l1, c);
    } else if u2 > 0 {
      JoinAtLeast(u2 - 1, l2, c);
    }
  }

  lemma {:induction false} JoinAtLeast(u: nat, l: nat, c: nat)
    ensures Join(u, l, c) >= l
    decreases u
  {
    if u > 0 {
      JoinAtLeast(u - 1, l, c);
    }
  }

  /** Joining is `u * c + l`; splitting is division and remainder by c. */
  lemma {:induction false} JoinIsMul(u: nat, l: nat, c: nat)
    ensures Join(u, l, c) == u * c + l
    decreases u
  {
    if u > 0 {
      JoinIsMul(u - 1, l, c);
    }
  }

  lemma SplitIsDivMod(x: nat, c: nat)
    requires c >= 1
    ensures Cluster(x, c) == x / c && Offset(x, c) == x % c
  {
    SplitJoin(x, c);
    JoinIsMul(Cluster(x, c), Offset(x, c), c);
    DivUnique(x, c, Cluster(x, c), Offset(x, c));
  }

  /** The value `insert` stores in a cluster: x0 itself, or the old minimum that x0 displaces. */
  function Displaced(x0: nat, min: nat): nat
  {
    if x0 < min then min else x0
  }

  /** The value `remove` takes out of a cluster: x0 itself, or the new minimum when x0 was the minimum. */
  function Removed(x0: nat, oldMin: nat, newMin: nat): nat
  {
    if x0 == oldMin then newMin else x0
  }

  /** 2^63, computed by repeated squaring. */
  lemma Pow2At63()
    ensures Pow2(63) == 0x8000_0000_0000_0000
  {
    assert Pow2(1) == 2;
    Pow2Add(1, 1);
    assert Pow2(2) == 4;
    Pow2Add(2, 2);
    assert Pow2(4) == 16;
    Pow2Add(4, 4);
    assert Pow2(8) == 0x100;
    Pow2Add(8, 8);
    assert Pow2(16) == 0x1_0000;
    Pow2Add(16, 16);
    assert Pow2(32) == 0x1_0000_0000;
    Pow2Add(32, 32);
    assert Pow2(64) == 2 * Pow2(63);
  }

  /** Every capacity below 2^64 stays below `usize::MAX`, the empty marker. */
  lemma CapacityBelowSentinel(bits: nat)
    requires bits < 64
    ensures Contract.Capacity(bits) < SENTINEL
  {
    Pow2At63();
    Pow2Monotone(bits, 63);
  }

  /**
   * `SizedVEBTree<n>` as an object: a leaf wrapping a `SmallSet`, or a composite
   * node whose `upper` and `lower` children are themselves `VEBTree`s.
   */
  class VEBTree {
    /** The set holds values with `BITS` bits. */
    const BITS: nat
    /** The leaf bitset when this node is a base case, otherwise null. */
    const leaf: SmallSet?
    /** The set of non-empty clusters (composite only). */
    const upper: VEBTree?
    /** The clusters, `UPPER_CAPACITY` of them (composite only). */
    const lower: seq<VEBTree>
    /** `Lower::BITS`. */
    const LOWER_BITS: nat
    var min: nat
    var max: nat

    /** The abstract contents of the set. */
    ghost var Contents: set<nat>
    /** Every object below this node. */
    ghost const Repr: set<object>
    /** Which child owns each object below a composite node: -1 for `upper`, u for `lower[u]`. */
    ghost const owner: map<object, int>

    /** A leaf node: `SmallSet::new()`, an empty bitset of `bits` bits. */
    constructor Leaf(bits: nat, width: nat)
      requires 4 <= bits <= 7 && width == Pow2(bits)
      ensures Valid() && fresh(Repr) && Contents == {} && BITS == bits
    {
      var s := new SmallSet(bits, width);
      BITS, leaf, upper, lower, LOWER_BITS, min, max, Contents, Repr, owner :=
        bits, s, null, [], 0, SENTINEL, SENTINEL, {}, {s}, map[];
      new;
      LeafIsValid();
    }

    /**
     * `new` of a composite node: a new `upper`, `UPPER_CAPACITY` new clusters,
     * and `min = max = usize::MAX`.
     */
    constructor Node(us: Shape, ls: Shape)
      requires WellFormed(us) && WellFormed(ls) && Bits(us) + Bits(ls) < 64
      ensures Valid() && fresh(Repr) && Contents == {} && BITS == Bits(us) + Bits(ls)
      decreases Composite(us, ls), 0
    {
      var up := Build(us);
      var cs, own := NewClusters(ls, Pow2(Bits(us)));
      BITS, leaf, upper, lower, LOWER_BITS, min, max, Contents, Repr, owner :=
        Bits(us) + Bits(ls), null, up, cs, Bits(ls), SENTINEL, SENTINEL, {},
        up.Footprint() + own.Keys, own + map o | o in up.Footprint() :: -1;
      new;
      Assembled(own);
    }

    /** `Default::default()` of the type a shape resolves to. */
    static method Build(shape: Shape) returns (t: VEBTree)
      requires WellFormed(shape) && Bits(shape) < 64
      ensures t.Valid() && fresh(t.Footprint()) && t.Contents == {} && t.BITS == Bits(shape)
      decreases shape, 1
    {
      if shape.Small? {
        t := new VEBTree.Leaf(shape.bits, shape.width);
      } else {
        t := new VEBTree.Node(shape.upper, shape.lower);
      }
    }

    /** A leaf node wrapping an empty bitset is valid. */
    lemma LeafIsValid()
      requires leaf != null && upper == null && lower == [] && Repr == {leaf} && BITS < 64
      requires leaf.Valid() && leaf.BITS == BITS && leaf.Elements() == {} && Contents == {}
      ensures Valid()
    {
      CapacityBelowSentinel(BITS);
    }

    /** A composite node just put together from a new `upper` and new clusters is valid. */
    lemma Assembled(own: map<object, int>)
      requires leaf == null && upper != null && this !in Repr && upper !in own
      requires Repr == upper.Footprint() + own.Keys && owner == own + map o | o in upper.Footprint() :: -1
      requires upper.Footprint() !! own.Keys
      requires upper.Valid() && upper.Contents == {} && BITS == upper.BITS + LOWER_BITS && BITS < 64
      requires |lower| == upper.Capacity()
      requires forall u :: 0 <= u < |lower| ==> lower[u].Valid() && lower[u].Contents == {} && lower[u].BITS == LOWER_BITS
      requires forall u :: 0 <= u < |lower| ==> lower[u] in own && own[lower[u]] == u && lower[u].Repr <= own.Keys
      requires forall u, o {:trigger o in lower[u].Repr} :: 0 <= u < |lower| && o in lower[u].Repr ==> own[o] == u
      requires min == SENTINEL && max == SENTINEL && Contents == {}
      ensures Valid()
    {
      CapacityBelowSentinel(BITS);
      Pow2Add(upper.BITS, LOWER_BITS);
      JoinIsMul(|lower|, 0, LowerCapacity());
      forall u | 0 <= u < |lower|
        ensures lower[u] !in lower[u].Repr
      {
        assert lower[u].Valid();
      }
      assert Owned();
      EmptyIsValid();
    }

    /** The clusters of a new composite node: n empty sets of one shape, each with its own objects. */
    static method NewClusters(shape: Shape, n: nat) returns (cs: seq<VEBTree>, ghost own: map<object, int>)
      requires WellFormed(shape) && Bits(shape) < 64
      ensures |cs| == n && fresh(own.Keys)
      ensures forall u :: 0 <= u < n ==> cs[u].Valid() && cs[u].Contents == {} && cs[u].BITS == Bits(shape)
      ensures forall u :: 0 <= u < n ==> cs[u] in own && own[cs[u]] == u && cs[u].Repr <= own.Keys
      ensures forall u, o {:trigger o in cs[u].Repr} :: 0 <= u < n && o in cs[u].Repr ==> own[o] == u
      decreases shape, 2
    {
      cs, own := [], map[];
      while |cs| < n
        invariant |cs| <= n && fresh(own.Keys)
        invariant forall u :: 0 <= u < |cs| ==> cs[u].Valid() && cs[u].Contents == {} && cs[u].BITS == Bits(shape)
        invariant forall u :: 0 <= u < |cs| ==> cs[u] in own && own[cs[u]] == u && cs[u].Repr <= own.Keys
        invariant forall u, o {:trigger o in cs[u].Repr} :: 0 <= u < |cs| && o in cs[u].Repr ==> own[o] == u
      {
        var c := Build(shape);
        own := own + map o | o in c.Footprint() :: |cs|;
        cs := cs + [c];
      }
    }

    /** `clear`: empties `upper` and every cluster, then resets `min` and `max` to `usize::MAX`. */
    method Clear()
      requires Valid()
      modifies this, Repr
      ensures Valid() && Contents == {}
      decreases Repr, 3
    {
      if leaf != null {
        leaf.Clear();
        Contents := leaf.Elements();
      } else {
        ClearNode();
      }
    }

    /** `clear` of a composite node. */
    method ClearNode()
      requires Valid() && leaf == null
      modifies this, Repr
      ensures Valid() && Contents == {}
      ensures min == SENTINEL && max == SENTINEL
      ensures upper.Contents == {} && forall v :: 0 <= v < |lower| ==> lower[v].Contents == {}
      decreases Repr, 2
    {
      CompositeParts();
      min, max := SENTINEL, SENTINEL;
      Contents := {};
      ClearChildren();
      EmptyIsValid();
    }

    /** The loop of `clear` over the children of a composite node. */
    method ClearChildren()
      requires leaf == null && Owned()
      requires upper.Valid() && forall v :: 0 <= v < |lower| ==> lower[v].Valid()
      modifies Repr
      ensures upper.Valid() && upper.Contents == {}
      ensures forall v :: 0 <= v < |lower| ==> lower[v].Valid() && lower[v].Contents == {}
      decreases Repr, 1
    {
      upper.Clear();
      forall v | 0 <= v < |lower|
        ensures lower[v].Valid()
      {
        UpperApart(v);
        lower[v].StillValid();
      }
      var i := 0;
      while i < |lower|
        invariant i <= |lower|
        invariant upper.Valid() && upper.Contents == {}
        invariant forall v :: 0 <= v < |lower| ==> lower[v].Valid()
        invariant forall v :: 0 <= v < i ==> lower[v].Contents == {}
      {
        ClearCluster(i);
        i := i + 1;
      }
    }

    /** One step of the loop of `clear`: empties cluster u and leaves every other child as it was. */
    method ClearCluster(u: nat)
      requires leaf == null && Owned() && u < |lower|
      requires upper.Valid() && forall v :: 0 <= v < |lower| ==> lower[v].Valid()
      modifies lower[u], lower[u].Repr
      ensures upper.Valid() && upper.Contents == old(upper.Contents)
      ensures forall v :: 0 <= v < |lower| ==> lower[v].Valid()
      ensures forall v :: 0 <= v < |lower| && v != u ==> lower[v].Contents == old(lower[v].Contents)
      ensures lower[u].Contents == {}
      decreases Repr, 0
    {
      UpperApart(u);
      lower[u].Clear();
      upper.StillValid();
      forall v | 0 <= v < |lower| && v != u
        ensures lower[v].Valid() && lower[v].Contents == old(lower[v].Contents)
      {
        ClustersApart(u, v);
        lower[v].StillValid();
      }
    }

    /** A composite node whose children are all empty, with `min = max = usize::MAX`, is valid. */
    lemma EmptyIsValid()
      requires leaf == null && Owned() && Layout() && Capacity() < SENTINEL
      requires upper.Valid() && upper.Contents == {}
      requires forall v :: 0 <= v < |lower| ==> lower[v].Valid() && lower[v].Contents == {}
      requires min == SENTINEL && max == SENTINEL && Contents == {}
      ensures Valid()
    {
    }

    /** `CAPACITY = 1 << BITS`. */
    function Capacity(): nat
    {
      Contract.Capacity(BITS)
    }

    /** `Lower::CAPACITY`. */
    function LowerCapacity(): nat
    {
      Pow2(LOWER_BITS)
    }

    ghost function Footprint(): set<object>
    {
      {this} + Repr
    }

    /** The invariant, including the cached maximum of a composite node. */
    ghost predicate Valid()
      reads this, Repr
    {
      Inv(true)
    }

    /**
     * The invariant without the clauses about `max`: `remove` runs `prev`
     * while `max` still names the element it just removed.
     */
    ghost predicate ValidIgnoringMax()
      reads this, Repr
    {
      Inv(false)
    }

    ghost predicate Inv(withMax: bool)
      reads this, Repr
      decreases Repr
    {
      && Capacity() < SENTINEL
      && (forall y :: y in Contents ==> y < Capacity())
      && if leaf != null then
        && Repr == {leaf}
        && upper == null && lower == []
        && leaf.Valid() && leaf.BITS == BITS && Contents == leaf.Elements()
      else
        && Owned()
        && upper.Inv(true)
        && (forall u :: 0 <= u < |lower| ==> lower[u].Inv(true))
        && Layout()
        && UpperTracksClusters()
        && CachedMin()
        && (withMax ==> CachedMax())
    }

    /** An empty node has `max == usize::MAX`; a non-empty one caches its largest element. */
    ghost predicate CachedMax()
      reads this
    {
      && (min == SENTINEL ==> max == SENTINEL)
      && (min != SENTINEL ==> max in Contents && forall y :: y in Contents ==> y <= max)
    }

    /** The children are distinct objects with disjoint footprints inside `Repr`. */
    ghost predicate Owned()
    {
      && this !in Repr
      && upper != null && upper in Repr && upper.Repr <= Repr && upper !in upper.Repr
      && upper in owner && owner[upper] == -1
      && (forall o {:trigger o in upper.Repr} :: o in upper.Repr ==> o in owner && owner[o] == -1)
      && (forall u :: 0 <= u < |lower| ==>
            lower[u] in Repr && lower[u].Repr <= Repr && lower[u] !in lower[u].Repr &&
            lower[u] in owner && owner[lower[u]] == u)
      && (forall u, o {:trigger o in lower[u].Repr} :: 0 <= u < |lower| && o in lower[u].Repr ==> o in owner && owner[o] == u)
    }

    /** Two different clusters share no object. */
    lemma ClustersApart(u: nat, v: nat)
      requires Owned() && u < |lower| && v < |lower| && u != v
      ensures lower[u].Footprint() !! lower[v].Footprint()
    {
      assert forall o :: o in lower[u].Repr ==> owner[o] == u;
      assert forall o :: o in lower[v].Repr ==> owner[o] == v;
    }

    /** `upper` and a cluster share no object. */
    lemma UpperApart(u: nat)
      requires Owned() && u < |lower|
      ensures upper.Footprint() !! lower[u].Footprint()
      ensures this !in upper.Footprint() && this !in lower[u].Footprint()
    {
      assert forall o :: o in lower[u].Repr ==> owner[o] == u;
      assert forall o :: o in upper.Repr ==> owner[o] == -1;
    }

    /** `BITS = Upper::BITS + Lower::BITS`, `UPPER_CAPACITY` clusters of `Lower::CAPACITY` values. */
    ghost predicate Layout()
      requires Owned()
    {
      && BITS == upper.BITS + LOWER_BITS
      && |lower| == upper.Capacity()
      && Capacity() == Join(|lower|, 0, LowerCapacity())
      && (forall u :: 0 <= u < |lower| ==> lower[u].BITS == LOWER_BITS)
    }

    /** `upper` holds u exactly when cluster u is not empty. */
    ghost predicate UpperTracksClusters()
      reads Repr
      requires Owned()
    {
      forall u :: 0 <= u < |lower| ==> (u in upper.Contents <==> lower[u].Contents != {})
    }

    /**
     * An empty node has empty clusters. A non-empty one holds `min`, which no
     * cluster stores, plus `(u << Lower::BITS) + l` for every l in cluster u.
     */
    ghost predicate CachedMin()
      reads this, Repr
      requires Owned()
    {
      MinAndClusters(min, Contents)
    }

    /** `CachedMin` for a minimum m and contents s given as values, so that it only reads the children. */
    ghost predicate MinAndClusters(m: nat, s: set<nat>)
      reads Repr
      requires Owned()
    {
      && (m == SENTINEL ==> s == {} && forall u :: 0 <= u < |lower| ==> lower[u].Contents == {})
      && (m != SENTINEL ==>
            && m in s
            && (forall y :: y in s ==> m <= y)
            && (forall u, l {:trigger Join(u, l, LowerCapacity())} :: 0 <= u < |lower| && l in lower[u].Contents ==>
                  Join(u, l, LowerCapacity()) in s && m < Join(u, l, LowerCapacity()))
            && (forall y {:trigger y in s} :: y in s ==>
                  || y == m
                  || (Cluster(y, LowerCapacity()) < |lower| &&
                      Offset(y, LowerCapacity()) in lower[Cluster(y, LowerCapacity())].Contents)))
    }

    /** `ul(x)`: the cluster `x >> Lower::BITS` and the offset `x & (Lower::CAPACITY - 1)`. */
    function Ul(x: nat): (r: (nat, nat))
      ensures r.0 == Cluster(x, LowerCapacity()) && r.1 == Offset(x, LowerCapacity())
    {
      ShrIsDiv(x, LOWER_BITS);
      AndLowMaskIsMod(x, LOWER_BITS);
      SplitIsDivMod(x, LowerCapacity());
      (Shr(x, LOWER_BITS), And(x, LowerCapacity() - 1))
    }

    function IsEmpty(): (r: bool)
      reads this, Repr
      requires ValidIgnoringMax()
      ensures r <==> Contents == {}
    {
      if leaf != null then leaf.IsEmpty() else min == SENTINEL
    }

    /** A value below the capacity splits into a cluster number and an offset that are in range. */
    lemma SplitInRange(x: nat)
      requires ValidIgnoringMax() && leaf == null && x < Capacity()
      ensures Cluster(x, LowerCapacity()) < |lower|
      ensures Offset(x, LowerCapacity()) < lower[Cluster(x, LowerCapacity())].Capacity()
      ensures Join(Cluster(x, LowerCapacity()), Offset(x, LowerCapacity()), LowerCapacity()) == x
    {
      SplitBelow(x, |lower|, LowerCapacity());
    }

    function Contains(x: nat): (r: bool)
      reads this, Repr
      requires Valid() && x < Capacity()
      ensures r <==> x in Contents
      decreases Repr
    {
      if leaf != null then leaf.Contains(x)
      else if x < min then false
      else if x > max then false
      else if x == min then true
      else if x == max then true
      else
        SplitInRange(x);
        var (ux, lx) := Ul(x);
        lower[ux].Contains(lx)
    }

    function First(): (r: Option<nat>)
      reads this, Repr
      requires Valid()
      ensures Contract.IsFirst(Contents, r)
    {
      if leaf != null then leaf.First()
      else if !IsEmpty() then Some(min)
      else None
    }

    function Last(): (r: Option<nat>)
      reads this, Repr
      requires Valid()
      ensures Contract.IsLast(Contents, r)
    {
      if leaf != null then leaf.Last()
      else if !IsEmpty() then Some(max)
      else None
    }

    function Next(x: nat): (r: Option<nat>)
      reads this, Repr
      requires Valid() && x < Capacity()
      ensures Contract.IsNext(Contents, x, r)
      decreases Repr, 1
    {
      if leaf != null then leaf.Next(x)
      else if IsEmpty() || x > max then None
      else if x <= min then Some(min)
      else
        SplitInRange(x);
        var (ux, lx) := Ul(x);
        var last := lower[ux].Last();
        if last.Some? && lx <= last.value then
          var lx' := lower[ux].Next(lx).value;
          NextInCluster(x, lx');
          Some(Join(ux, lx', LowerCapacity()))
        else
          NextPastCluster(x)
    }

    /** The part of `next(x)` that looks past x's own cluster, which holds nothing at or after x. */
    function NextPastCluster(x: nat): (r: Option<nat>)
      reads this, Repr
      requires Valid() && leaf == null && min != SENTINEL && min < x <= max && x < Capacity()
      requires Cluster(x, LowerCapacity()) < |lower|
      requires forall l :: l in lower[Cluster(x, LowerCapacity())].Contents ==> l < Offset(x, LowerCapacity())
      ensures Contract.IsNext(Contents, x, r)
      decreases Repr, 0
    {
      var ux := Cluster(x, LowerCapacity());
      LaterClusterExists(x);
      var ux' := upper.Next(ux + 1).value;
      upper.InRange();
      var lx' := lower[ux'].First().value;
      NextInLaterCluster(x, ux', lx');
      Some(Join(ux', lx', LowerCapacity()))
    }

    function Prev(x: nat): (r: Option<nat>)
      reads this, Repr
      requires ValidIgnoringMax() && x < Capacity()
      ensures Contract.IsPrev(Contents, x, r)
      decreases Repr
    {
      if leaf != null then leaf.Prev(x)
      else if IsEmpty() || x < min then None
      else
        SplitInRange(x);
        var (ux, lx) := Ul(x);
        upper.ValidIgnoresMax();
        lower[ux].ValidIgnoresMax();
        var first := lower[ux].First();
        if first.Some? && lx >= first.value then
          var lx' := lower[ux].Prev(lx).value;
          PrevInCluster(x, lx');
          Some(Join(ux, lx', LowerCapacity()))
        else if ux > 0 && upper.Prev(ux - 1).Some? then
          var ux' := upper.Prev(ux - 1).value;
          upper.InRange();
          var lx' := lower[ux'].Last().value;
          PrevInEarlierCluster(x, ux', lx');
          Some(Join(ux', lx', LowerCapacity()))
        else
          PrevIsMin(x);
          Some(min)
    }

    method Insert(x0: nat) returns (r: bool)
      requires Valid() && x0 < Capacity()
      modifies this, Repr
      ensures Valid()
      ensures Contents == old(Contents) + {x0}
      ensures r <==> x0 !in old(Contents)
      decreases Repr, 3
    {
      if leaf != null {
        r := leaf.Insert(x0);
        Contents := leaf.Elements();
        return;
      }
      if IsEmpty() {
        CompositeParts();
        min, max := x0, x0;
        Contents := {x0};
        return true;
      }
      r := InsertIntoNode(x0);
    }

    /** `insert` into a composite node that already holds an element. */
    method InsertIntoNode(x0: nat) returns (r: bool)
      requires Valid() && leaf == null && min != SENTINEL && x0 < Capacity()
      modifies this, Repr
      ensures Valid()
      ensures Contents == old(Contents) + {x0}
      ensures r <==> x0 !in old(Contents)
      decreases Repr, 2
    {
      CompositeParts();
      var x := x0;
      if x < min {
        x, min := min, x;
      }
      if x == min {
        return false;
      }
      if x > max {
        max := x;
      }
      Contents := Contents + {x0};
      ChildrenUntouched();
      SplitBelow(x, |lower|, LowerCapacity());
      var (ux, lx) := Ul(x);
      r := InsertIntoCluster(ux, lx);
      InsertKeepsValid(x0);
    }

    /**
     * The tail of `insert`: mark cluster ux as non-empty in `upper` if it was
     * empty, then insert lx into it.
     */
    method InsertIntoCluster(ux: nat, lx: nat) returns (r: bool)
      requires leaf == null && Owned() && Layout() && UpperTracksClusters()
      requires upper.Valid() && forall v :: 0 <= v < |lower| ==> lower[v].Valid()
      requires ux < |lower| && lx < LowerCapacity()
      modifies Repr
      ensures upper.Valid() && forall v :: 0 <= v < |lower| ==> lower[v].Valid()
      ensures upper.Contents == old(upper.Contents) + {ux}
      ensures forall v :: 0 <= v < |lower| && v != ux ==> lower[v].Contents == old(lower[v].Contents)
      ensures lower[ux].Contents == old(lower[ux].Contents) + {lx}
      ensures r <==> lx !in old(lower[ux].Contents)
      decreases Repr, 1
    {
      lower[ux].ValidIgnoresMax();
      if lower[ux].IsEmpty() {
        MarkCluster(ux);
      }
      r := InsertIntoLower(ux, lx);
    }

    /** `upper.insert(ux)`, which leaves every cluster as it was. */
    method MarkCluster(ux: nat)
      requires leaf == null && Owned() && Layout() && ux < |lower|
      requires upper.Valid() && forall v :: 0 <= v < |lower| ==> lower[v].Valid()
      modifies upper, upper.Repr
      ensures upper.Valid() && upper.Contents == old(upper.Contents) + {ux}
      ensures forall v :: 0 <= v < |lower| ==> lower[v].Valid() && lower[v].Contents == old(lower[v].Contents)
      decreases Repr, 0
    {
      var _ := upper.Insert(ux);
      forall v | 0 <= v < |lower|
        ensures lower[v].Valid() && lower[v].Contents == old(lower[v].Contents)
      {
        UpperApart(v);
        lower[v].StillValid();
      }
    }

    /** `lower[ux].insert(lx)`, which leaves `upper` and the other clusters as they were. */
    method InsertIntoLower(ux: nat, lx: nat) returns (r: bool)
      requires leaf == null && Owned() && Layout() && ux < |lower| && lx < LowerCapacity()
      requires upper.Valid() && forall v :: 0 <= v < |lower| ==> lower[v].Valid()
      modifies lower[ux], lower[ux].Repr
      ensures upper.Valid() && upper.Contents == old(upper.Contents)
      ensures forall v :: 0 <= v < |lower| ==> lower[v].Valid()
      ensures forall v :: 0 <= v < |lower| && v != ux ==> lower[v].Contents == old(lower[v].Contents)
      ensures lower[ux].Contents == old(lower[ux].Contents) + {lx}
      ensures r <==> lx !in old(lower[ux].Contents)
      decreases Repr, 0
    {
      UpperApart(ux);
      r := lower[ux].Insert(lx);
      upper.StillValid();
      forall v | 0 <= v < |lower| && v != ux
        ensures lower[v].Valid() && lower[v].Contents == old(lower[v].Contents)
      {
        ClustersApart(v, ux);
        lower[v].StillValid();
      }
    }

    method Remove(x0: nat) returns (r: bool)
      requires Valid() && x0 < Capacity()
      modifies this, Repr
      ensures Valid()
      ensures Contents == old(Contents) - {x0}
      ensures r <==> x0 in old(Contents)
      decreases Repr, 4
    {
      if leaf != null {
        r := leaf.Remove(x0);
        Contents := leaf.Elements();
      } else {
        r := RemoveComposite(x0);
      }
    }

    /** `remove` of a composite node. */
    method RemoveComposite(x0: nat) returns (r: bool)
      requires Valid() && leaf == null && x0 < Capacity()
      modifies this, Repr
      ensures Valid()
      ensures Contents == old(Contents) - {x0}
      ensures r <==> x0 in old(Contents)
      decreases Repr, 3
    {
      if min == max {
        r := RemoveFromSingleton(x0);
        return;
      }
      var x := ReplaceMin(x0);
      ChildrenUntouched();
      SplitBelow(x, |lower|, LowerCapacity());
      var (ux, lx) := Ul(x);
      r := RemoveFromCluster(ux, lx);
      RemoveKeepsValid(x0);
      if !r {
        assert x != max;
      }
      RestoreMax(x, r);
    }

    /** The `min == max` case of `remove`: the node holds at most one value, kept in `min`. */
    method RemoveFromSingleton(x0: nat) returns (r: bool)
      requires Valid() && leaf == null && min == max && x0 < Capacity()
      modifies this
      ensures Valid()
      ensures Contents == old(Contents) - {x0}
      ensures r <==> x0 in old(Contents)
    {
      SingletonShape();
      if x0 == min {
        min, max := SENTINEL, SENTINEL;
        Contents := {};
        Emptied();
        return true;
      }
      return false;
    }

    /**
     * The step of `remove` that picks the value to take out of a cluster: x0
     * itself, or, when x0 is `min`, its successor, which becomes the new `min`.
     * The abstract contents lose x0 here.
     */
    method ReplaceMin(x0: nat) returns (x: nat)
      requires Valid() && leaf == null && min != max && x0 < Capacity()
      modifies this
      ensures x == Removed(x0, old(min), min) && x < Capacity()
      ensures x0 == old(min) ==> Contract.IsNext(old(Contents), x0 + 1, Some(min))
      ensures x0 != old(min) ==> min == old(min)
      ensures Contents == old(Contents) - {x0} && max == old(max)
    {
      x := x0;
      if x == min {
        MinBelowMax();
        x := Next(x + 1).value;
        min := x;
      }
      Contents := Contents - {x0};
    }

    /**
     * `max = prev(x - 1)` when the removed value x was the maximum and is not
     * the (new) minimum; otherwise the cached maximum is already right.
     */
    method RestoreMax(x: nat, removed: bool)
      requires ValidIgnoringMax() && leaf == null && min != SENTINEL
      requires if removed && x != min && x == max then
          min < x < Capacity() && x !in Contents && forall y :: y in Contents ==> y <= x
        else
          Valid()
      modifies this
      ensures Valid() && Contents == old(Contents) && min == old(min)
    {
      if removed && x != min && x == max {
        max := Prev(x - 1).value;
        MaxRecomputed(x);
      }
    }

    /**
     * The tail of `remove`: take lx out of cluster ux and, when that empties
     * the cluster, take ux out of `upper`.
     */
    method RemoveFromCluster(ux: nat, lx: nat) returns (r: bool)
      requires leaf == null && Owned() && Layout() && UpperTracksClusters()
      requires upper.Valid() && forall v :: 0 <= v < |lower| ==> lower[v].Valid()
      requires ux < |lower| && lx < LowerCapacity()
      modifies Repr
      ensures upper.Valid() && forall v :: 0 <= v < |lower| ==> lower[v].Valid()
      ensures UpperTracksClusters()
      ensures forall v :: 0 <= v < |lower| && v != ux ==> lower[v].Contents == old(lower[v].Contents)
      ensures lower[ux].Contents == old(lower[ux].Contents) - {lx}
      ensures r <==> lx in old(lower[ux].Contents)
      decreases Repr, 1
    {
      r := RemoveFromLower(ux, lx);
      if r {
        lower[ux].ValidIgnoresMax();
        if lower[ux].IsEmpty() {
          UnmarkCluster(ux);
        }
      }
      forall v | 0 <= v < |lower|
        ensures v in upper.Contents <==> lower[v].Contents != {}
      {
        assert old(v in upper.Contents <==> lower[v].Contents != {});
      }
    }

    /** `upper.remove(ux)`, which leaves every cluster as it was. */
    method UnmarkCluster(ux: nat)
      requires leaf == null && Owned() && Layout() && ux < |lower|
      requires upper.Valid() && forall v :: 0 <= v < |lower| ==> lower[v].Valid()
      modifies upper, upper.Repr
      ensures upper.Valid() && upper.Contents == old(upper.Contents) - {ux}
      ensures forall v :: 0 <= v < |lower| ==> lower[v].Valid() && lower[v].Contents == old(lower[v].Contents)
      decreases Repr, 0
    {
      var _ := upper.Remove(ux);
      forall v | 0 <= v < |lower|
        ensures lower[v].Valid() && lower[v].Contents == old(lower[v].Contents)
      {
        UpperApart(v);
        lower[v].StillValid();
      }
    }

    /** `lower[ux].remove(lx)`, which leaves `upper` and the other clusters as they were. */
    method RemoveFromLower(ux: nat, lx: nat) returns (r: bool)
      requires leaf == null && Owned() && Layout() && ux < |lower| && lx < LowerCapacity()
      requires upper.Valid() && forall v :: 0 <= v < |lower| ==> lower[v].Valid()
      modifies lower[ux], lower[ux].Repr
      ensures upper.Valid() && upper.Contents == old(upper.Contents)
      ensures forall v :: 0 <= v < |lower| ==> lower[v].Valid()
      ensures forall v :: 0 <= v < |lower| && v != ux ==> lower[v].Contents == old(lower[v].Contents)
      ensures lower[ux].Contents == old(lower[ux].Contents) - {lx}
      ensures r <==> lx in old(lower[ux].Contents)
      decreases Repr, 0
    {
      UpperApart(ux);
      r := lower[ux].Remove(lx);
      upper.StillValid();
      forall v | 0 <= v < |lower| && v != ux
        ensures lower[v].Valid() && lower[v].Contents == old(lower[v].Contents)
      {
        ClustersApart(v, ux);
        lower[v].StillValid();
      }
    }

    /** A composite node with `min == max` holds at most `min`, and its clusters are empty. */
    lemma SingletonShape()
      requires Valid() && leaf == null && min == max
      ensures Contents <= {min}
      ensures forall u :: 0 <= u < |lower| ==> lower[u].Contents == {}
    {
      ClustersBetween();
    }

    /** Every value stored in a cluster lies strictly above `min` and at most at `max`. */
    lemma ClustersBetween()
      requires Valid() && leaf == null
      ensures forall u, l {:trigger l in lower[u].Contents} :: 0 <= u < |lower| && l in lower[u].Contents ==>
        min < Join(u, l, LowerCapacity()) <= max
    {
      forall u, l | 0 <= u < |lower| && l in lower[u].Contents
        ensures min < Join(u, l, LowerCapacity()) <= max
      {
        assert Join(u, l, LowerCapacity()) in Contents;
      }
    }

    /** Two different cached bounds mean the node is non-empty and `min < max`. */
    lemma MinBelowMax()
      requires Valid() && leaf == null && min != max
      ensures min != SENTINEL && min < max && max in Contents
    {
    }

    /** Resetting the cache of a node whose clusters are empty leaves it valid and empty. */
    twostate lemma Emptied()
      requires old(Valid()) && leaf == null && unchanged(Repr)
      requires forall u :: 0 <= u < |lower| ==> old(lower[u].Contents) == {}
      requires min == SENTINEL && max == SENTINEL && Contents == {}
      ensures Valid()
    {
      ChildrenUntouched();
    }

    /** `max := prev(x - 1)` after the old maximum x was removed restores the invariant. */
    twostate lemma {:induction false} MaxRecomputed(x: nat)
      requires old(ValidIgnoringMax()) && leaf == null && unchanged(Repr)
      requires old(min) != SENTINEL && x >= 1 && x !in old(Contents)
      requires forall y :: y in old(Contents) ==> y <= x
      requires Contract.IsPrev(old(Contents), x - 1, Some(max))
      requires min == old(min) && Contents == old(Contents)
      ensures Valid() && Contents == old(Contents)
    {
      ChildrenUntouched();
      assert MinAndClusters(min, Contents) by {
        assert old(MinAndClusters(min, Contents));
      }
      forall y | y in Contents
        ensures y <= max
      {
        assert y in old(Contents) && y != x;
      }
    }

    /**
     * After `insert` made the smaller of x0 and the old minimum the new `min`
     * and stored the larger one, x, in its cluster, the node is valid again.
     */
    twostate lemma {:induction false} InsertKeepsValid(x0: nat)
      requires leaf == null && Owned() && Layout() && Capacity() < SENTINEL
      requires old(CachedMin()) && old(CachedMax()) && old(UpperTracksClusters())
      requires old(forall y :: y in Contents ==> y < Capacity())
      requires old(min) != SENTINEL && old(min) != x0 && x0 < Capacity()
      requires min == if x0 < old(min) then x0 else old(min)
      requires var x := Displaced(x0, old(min));
        && max == (if x > old(max) then x else old(max))
        && Contents == old(Contents) + {x0}
        && Cluster(x, LowerCapacity()) < |lower|
        && upper.Valid() && upper.Contents == old(upper.Contents) + {Cluster(x, LowerCapacity())}
        && (forall v :: 0 <= v < |lower| ==> lower[v].Valid())
        && (forall v :: 0 <= v < |lower| && v != Cluster(x, LowerCapacity()) ==> lower[v].Contents == old(lower[v].Contents))
        && lower[Cluster(x, LowerCapacity())].Contents == old(lower[Cluster(x, LowerCapacity())].Contents) + {Offset(x, LowerCapacity())}
      ensures Valid()
      ensures var x := Displaced(x0, old(min));
        Offset(x, LowerCapacity()) !in old(lower[Cluster(x, LowerCapacity())].Contents) <==> x0 !in old(Contents)
    {
      var c := LowerCapacity();
      var x := Displaced(x0, old(min));
      SplitJoin(x, c);
      InsertKeepsCache(x0);
      forall u | 0 <= u < |lower|
        ensures u in upper.Contents <==> lower[u].Contents != {}
      {
        assert old(u in upper.Contents <==> lower[u].Contents != {});
      }
      MaxAfterInsert(old(min), old(max), x0, old(Contents));
      assert CachedMax();
      CompositeValid();
    }

    /** The new `max` of `insert` is the largest element of the new contents. */
    static lemma MaxAfterInsert(oldMin: nat, oldMax: nat, x0: nat, s: set<nat>)
      requires oldMin in s && oldMax in s && x0 != oldMin
      requires forall y :: y in s ==> oldMin <= y <= oldMax
      ensures var x := Displaced(x0, oldMin); var m := if x > oldMax then x else oldMax;
        m in s + {x0} && forall y :: y in s + {x0} ==> y <= m
    {
    }

    /** The clauses of the invariant of a composite node, taken apart. */
    lemma CompositeParts()
      requires Valid() && leaf == null
      ensures Owned() && Layout() && Capacity() < SENTINEL
      ensures forall y :: y in Contents ==> y < Capacity()
      ensures UpperTracksClusters() && CachedMin() && CachedMax()
      ensures upper.Valid() && forall v :: 0 <= v < |lower| ==> lower[v].Valid()
    {
    }

    /** The clauses of the invariant of a composite node, assembled. */
    lemma CompositeValid()
      requires leaf == null && Owned() && Layout() && Capacity() < SENTINEL
      requires upper.Valid() && forall v :: 0 <= v < |lower| ==> lower[v].Valid()
      requires forall y :: y in Contents ==> y < Capacity()
      requires UpperTracksClusters() && CachedMin() && CachedMax()
      ensures Valid()
    {
    }

    /** The cache half of `InsertKeepsValid`: `min` and the clusters describe the new contents. */
    twostate lemma {:induction false} InsertKeepsCache(x0: nat)
      requires leaf == null && Owned() && Capacity() < SENTINEL && old(CachedMin()) && old(min) != SENTINEL && old(min) != x0 && x0 < Capacity()
      requires min == if x0 < old(min) then x0 else old(min)
      requires var x := Displaced(x0, old(min));
        && Contents == old(Contents) + {x0}
        && Cluster(x, LowerCapacity()) < |lower|
        && (forall v :: 0 <= v < |lower| && v != Cluster(x, LowerCapacity()) ==> lower[v].Contents == old(lower[v].Contents))
        && lower[Cluster(x, LowerCapacity())].Contents == old(lower[Cluster(x, LowerCapacity())].Contents) + {Offset(x, LowerCapacity())}
      ensures CachedMin()
    {
      var c := LowerCapacity();
      var x := Displaced(x0, old(min));
      var ux, lx := Cluster(x, c), Offset(x, c);
      SplitJoin(x, c);
      forall u, l {:trigger Join(u, l, c)} | 0 <= u < |lower| && l in lower[u].Contents
        ensures Join(u, l, c) in Contents && min < Join(u, l, c)
      {
        if u != ux || l != lx {
          assert l in old(lower[u].Contents);
        }
      }
      forall y {:trigger y in Contents} | y in Contents && y != min
        ensures Cluster(y, c) < |lower| && Offset(y, c) in lower[Cluster(y, c)].Contents
      {
        if y != x {
          assert Offset(y, c) in old(lower[Cluster(y, c)].Contents);
        }
      }
    }

    /**
     * After `remove` took x out of its cluster, where x is x0 or, when x0 was
     * `min`, the next element that became the new `min`, the node is valid
     * apart from `max`.
     */
    twostate lemma {:induction false} RemoveKeepsValid(x0: nat)
      requires old(Valid()) && leaf == null && old(min) != old(max) && x0 < Capacity()
      requires x0 == old(min) ==> Contract.IsNext(old(Contents), x0 + 1, Some(min))
      requires x0 != old(min) ==> min == old(min)
      requires var x := Removed(x0, old(min), min);
        && Contents == old(Contents) - {x0}
        && Cluster(x, LowerCapacity()) < |lower|
        && upper.Valid() && (forall v :: 0 <= v < |lower| ==> lower[v].Valid())
        && UpperTracksClusters()
        && (forall v :: 0 <= v < |lower| && v != Cluster(x, LowerCapacity()) ==> lower[v].Contents == old(lower[v].Contents))
        && lower[Cluster(x, LowerCapacity())].Contents == old(lower[Cluster(x, LowerCapacity())].Contents) - {Offset(x, LowerCapacity())}
      ensures ValidIgnoringMax() && min != SENTINEL
      ensures var x := Removed(x0, old(min), min);
        Offset(x, LowerCapacity()) in old(lower[Cluster(x, LowerCapacity())].Contents) <==> x0 in old(Contents)
      ensures max == old(max) ==>
        var x := Removed(x0, old(min), min);
        if x0 in old(Contents) && x != min && x == max then
          min < x < Capacity() && x !in Contents && forall y :: y in Contents ==> y <= x
        else
          Valid() && (x0 !in old(Contents) ==> x != max)
    {
      SplitJoin(Removed(x0, old(min), min), LowerCapacity());
      RemoveKeepsCache(x0);
    }

    /** The cache half of `RemoveKeepsValid`. */
    twostate lemma {:induction false} RemoveKeepsCache(x0: nat)
      requires old(Valid()) && leaf == null && old(min) != old(max) && x0 < Capacity()
      requires x0 == old(min) ==> Contract.IsNext(old(Contents), x0 + 1, Some(min))
      requires x0 != old(min) ==> min == old(min)
      requires var x := Removed(x0, old(min), min);
        && Contents == old(Contents) - {x0}
        && Cluster(x, LowerCapacity()) < |lower|
        && (forall v :: 0 <= v < |lower| && v != Cluster(x, LowerCapacity()) ==> lower[v].Contents == old(lower[v].Contents))
        && lower[Cluster(x, LowerCapacity())].Contents == old(lower[Cluster(x, LowerCapacity())].Contents) - {Offset(x, LowerCapacity())}
      ensures CachedMin() && min != SENTINEL
      ensures var x := Removed(x0, old(min), min);
        Offset(x, LowerCapacity()) in old(lower[Cluster(x, LowerCapacity())].Contents) <==> x0 in old(Contents)
    {
      var c := LowerCapacity();
      var x := Removed(x0, old(min), min);
      SplitJoin(x, c);
      forall u, l {:trigger Join(u, l, c)} | 0 <= u < |lower| && l in lower[u].Contents
        ensures Join(u, l, c) in Contents && min < Join(u, l, c)
      {
        assert l in old(lower[u].Contents) && old(lower[u].Valid());
        JoinSplit(u, l, c);
      }
      forall y {:trigger y in Contents} | y in Contents && y != min
        ensures Cluster(y, c) < |lower| && Offset(y, c) in lower[Cluster(y, c)].Contents
      {
        assert y in old(Contents);
        SplitJoin(y, c);
      }
    }

    /** A node none of whose objects changed is still valid and holds the same values. */
    twostate lemma StillValid()
      requires old(Valid()) && unchanged(this) && unchanged(Repr)
      ensures Valid() && Contents == old(Contents)
    {
    }

    /** Updating the cached fields of a composite node leaves its children as they were. */
    twostate lemma ChildrenUntouched()
      requires old(ValidIgnoringMax()) && leaf == null && unchanged(Repr)
      ensures UpperTracksClusters() && upper.Valid() && forall v :: 0 <= v < |lower| ==> lower[v].Valid()
    {
      forall v | 0 <= v < |lower|
        ensures lower[v].Valid()
      {
        UpperApart(v);
        assert old(lower[v].Valid());
      }
    }

    /** `next(x)` answered inside x's own cluster. */
    lemma NextInCluster(x: nat, n: nat)
      requires Valid() && leaf == null && min != SENTINEL && min < x < Capacity()
      requires Cluster(x, LowerCapacity()) < |lower|
      requires Contract.IsNext(lower[Cluster(x, LowerCapacity())].Contents, Offset(x, LowerCapacity()), Some(n))
      ensures Contract.IsNext(Contents, x, Some(Join(Cluster(x, LowerCapacity()), n, LowerCapacity())))
    {
      var c := LowerCapacity();
      var ux, lx := Cluster(x, c), Offset(x, c);
      SplitJoin(x, c);
      lower[ux].InRange();
      JoinOrder(ux, lx, ux, n, c);
      forall y | y in Contents && x <= y
        ensures Join(ux, n, c) <= y
      {
        var uy, ly := Cluster(y, c), Offset(y, c);
        SplitJoin(y, c);
        lower[uy].InRange();
        JoinOrder(ux, lx, uy, ly, c);
        JoinOrder(ux, n, uy, ly, c);
      }
    }

    /** When x's cluster has nothing at or after x, a later non-empty cluster exists. */
    lemma LaterClusterExists(x: nat)
      requires Valid() && leaf == null && min != SENTINEL && min < x <= max && x < Capacity()
      requires Cluster(x, LowerCapacity()) < |lower|
      requires forall l :: l in lower[Cluster(x, LowerCapacity())].Contents ==> l < Offset(x, LowerCapacity())
      ensures Cluster(x, LowerCapacity()) + 1 < |lower|
      ensures exists u :: Cluster(x, LowerCapacity()) < u && u in upper.Contents
    {
      var c := LowerCapacity();
      var ux, lx := Cluster(x, c), Offset(x, c);
      var um, lm := Cluster(max, c), Offset(max, c);
      SplitJoin(x, c);
      SplitJoin(max, c);
      JoinOrder(ux, lx, um, lm, c);
      assert lm in lower[um].Contents;
      assert um in upper.Contents;
    }

    /** `next(x)` answered by the first element of the next non-empty cluster. */
    lemma NextInLaterCluster(x: nat, u: nat, f: nat)
      requires Valid() && leaf == null && min != SENTINEL && min < x <= max && x < Capacity()
      requires Cluster(x, LowerCapacity()) < |lower|
      requires forall l :: l in lower[Cluster(x, LowerCapacity())].Contents ==> l < Offset(x, LowerCapacity())
      requires Contract.IsNext(upper.Contents, Cluster(x, LowerCapacity()) + 1, Some(u))
      requires u < |lower| && Contract.IsFirst(lower[u].Contents, Some(f))
      ensures Contract.IsNext(Contents, x, Some(Join(u, f, LowerCapacity())))
    {
      var c := LowerCapacity();
      var ux, lx := Cluster(x, c), Offset(x, c);
      SplitJoin(x, c);
      lower[u].InRange();
      JoinOrder(ux, lx, u, f, c);
      forall y | y in Contents && x <= y
        ensures Join(u, f, c) <= y
      {
        var uy, ly := Cluster(y, c), Offset(y, c);
        SplitJoin(y, c);
        JoinOrder(ux, lx, uy, ly, c);
        JoinOrder(u, f, uy, ly, c);
        assert ly in lower[uy].Contents;
        assert uy in upper.Contents;
      }
    }

    /** `prev(x)` answered inside x's own cluster. */
    lemma PrevInCluster(x: nat, p: nat)
      requires ValidIgnoringMax() && leaf == null && min != SENTINEL && min <= x < Capacity()
      requires Cluster(x, LowerCapacity()) < |lower|
      requires Contract.IsPrev(lower[Cluster(x, LowerCapacity())].Contents, Offset(x, LowerCapacity()), Some(p))
      ensures Contract.IsPrev(Contents, x, Some(Join(Cluster(x, LowerCapacity()), p, LowerCapacity())))
    {
      var c := LowerCapacity();
      var ux, lx := Cluster(x, c), Offset(x, c);
      SplitJoin(x, c);
      lower[ux].InRange();
      JoinOrder(ux, p, ux, lx, c);
      forall y | y in Contents && y <= x
        ensures y <= Join(ux, p, c)
      {
        if y != min {
          var uy, ly := Cluster(y, c), Offset(y, c);
          SplitJoin(y, c);
          lower[uy].InRange();
          JoinOrder(uy, ly, ux, lx, c);
          JoinOrder(uy, ly, ux, p, c);
        }
      }
    }

    /** `prev(x)` answered by the last element of the previous non-empty cluster. */
    lemma PrevInEarlierCluster(x: nat, u: nat, l: nat)
      requires ValidIgnoringMax() && leaf == null && min != SENTINEL && min <= x < Capacity()
      requires 0 < Cluster(x, LowerCapacity()) < |lower|
      requires forall k :: k in lower[Cluster(x, LowerCapacity())].Contents ==> Offset(x, LowerCapacity()) < k
      requires Contract.IsPrev(upper.Contents, Cluster(x, LowerCapacity()) - 1, Some(u))
      requires u < |lower| && Contract.IsLast(lower[u].Contents, Some(l))
      ensures Contract.IsPrev(Contents, x, Some(Join(u, l, LowerCapacity())))
    {
      var c := LowerCapacity();
      var ux, lx := Cluster(x, c), Offset(x, c);
      SplitJoin(x, c);
      lower[u].InRange();
      JoinOrder(u, l, ux, lx, c);
      forall y | y in Contents && y <= x
        ensures y <= Join(u, l, c)
      {
        if y != min {
          var uy, ly := Cluster(y, c), Offset(y, c);
          SplitJoin(y, c);
          JoinOrder(uy, ly, ux, lx, c);
          JoinOrder(uy, ly, u, l, c);
          assert ly in lower[uy].Contents;
          assert uy in upper.Contents;
        }
      }
    }

    /** `prev(x)` falls back to `min` when no cluster up to x's holds anything at or before x. */
    lemma PrevIsMin(x: nat)
      requires ValidIgnoringMax() && leaf == null && min != SENTINEL && min <= x < Capacity()
      requires Cluster(x, LowerCapacity()) < |lower|
      requires forall k :: k in lower[Cluster(x, LowerCapacity())].Contents ==> Offset(x, LowerCapacity()) < k
      requires forall v :: v in upper.Contents ==> Cluster(x, LowerCapacity()) <= v
      ensures Contract.IsPrev(Contents, x, Some(min))
    {
      var c := LowerCapacity();
      var ux, lx := Cluster(x, c), Offset(x, c);
      SplitJoin(x, c);
      forall y | y in Contents && y != min
        ensures x < y
      {
        var uy, ly := Cluster(y, c), Offset(y, c);
        SplitJoin(y, c);
        JoinOrder(uy, ly, ux, lx, c);
        assert ly in lower[uy].Contents;
        assert uy in upper.Contents;
      }
    }

    /** The full invariant implies the one `prev` needs. */
    lemma ValidIgnoresMax()
      requires Valid()
      ensures ValidIgnoringMax()
    {
    }

    /** Every element of a valid node is below its capacity. */
    lemma InRange()
      requires Valid() || ValidIgnoringMax()
      ensures forall y :: y in Contents ==> y < Capacity()
    {
    }
  }
}
