# flat-veb: a verified model of a flat van Emde Boas set

flat-veb stores a set of integers in `[0, 2^BITS)` without heap allocation.
The structure is built recursively from two kinds of set:

- a leaf bitset, `SmallSet`, for 4 to 7 bits: one flag word of 16, 32, 64 or
  128 bits, bit i set exactly when i is in the set;
- a composite node, `outer::VEBTree<Upper, Lower>`, for larger widths. It has
  an `upper` set of non-empty cluster numbers, `UPPER_CAPACITY` clusters
  `lower[u]`, and cached `min` and `max`. `min` is stored in no cluster, and
  `usize::MAX` marks the empty set. An element x lives in cluster
  `x >> Lower::BITS` at offset `x & (Lower::CAPACITY - 1)`.

A size table picks the type for n bits. Widths 4..7 are leaves. A wider n is a
composite whose upper part has `n / 2` bits and whose lower part has
`(n + 1) / 2` bits. `new_with_capacity` and `new_with_bits` pick the smallest
such type for a requested capacity.

The model is organised as follows:

- `SmallSets.SmallSet` is a class whose field `bits` is the flag word, a
  natural below `2^WIDTH`.
- `Outer.VEBTree` is one class for every `SizedVEBTree<n>`. It either wraps a
  `SmallSet` leaf or is a composite node. A composite node's children are
  themselves `VEBTree` objects that are updated in place, and its `min` and
  `max` are mutable fields.
- Every set carries a ghost `Contents: set<nat>`. Each operation is proved
  against the trait contract of src/lib.rs, stated once in module `Contract`
  (`IsNext`, `IsPrev`, `IsFirst`, `IsLast`).
- The node invariant (`Outer.VEBTree.Valid`) captures these facts:
  - `upper` holds u exactly when `lower[u]` is non-empty;
  - `min` is the least element and is stored in no cluster;
  - every cluster element `(u << Lower::BITS) + l` is in the set and above
    `min`;
  - `max` is the largest element;
  - an empty node has both fields at `usize::MAX`.
- Bitwise operations (`>>`, `&`, `|`, `!`, `trailing_zeros`,
  `leading_zeros`) are defined on naturals in module `Bitwise`, by their
  mathematical meaning.

The module documentation at src/lib.rs:10-11 describes `prev(x)` with the
words of `next(x)`. The trait documentation at src/lib.rs:126-128 and the code
of both implementations return the greatest element at or below x. The model
follows the code and the trait documentation.

## Model

| member | source | states |
|---|---|---|
| Contract.CapacityIsOneBit | src/lib.rs:88-89 | `CAPACITY = 1 << BITS` is the word whose only set bit is bit BITS |
| Contract.MaskSelectsLowBits | src/lib.rs:91-93 | `MASK = CAPACITY - 1` has exactly the low BITS bits set, so `x & MASK` is `x mod CAPACITY` |
| Contract.NextUnique | src/lib.rs:122-124 | the `next` contract (least element at or after x, or None when there is none) determines the answer uniquely |
| Contract.PrevUnique | src/lib.rs:126-128 | the `prev` contract (greatest element at or below x, or None) determines the answer uniquely |
| Contract.FirstIsNextOfZero | src/lib.rs:130-132 | `first()` is the minimum, which is exactly the answer to `next(0)` |
| Contract.LastIsPrevOfMask | src/lib.rs:134-136 | `last()` is the maximum, which for a set below CAPACITY is exactly the answer to `prev(MASK)` |
| Bitwise.TrailingZerosLowest | src/small_set.rs:33-35 | `trailing_zeros` of a non-zero word is the position of its lowest set bit |
| Bitwise.LeadingZerosHighest | src/small_set.rs:30-32 | for a non-zero word of `width` bits, `width - 1 - leading_zeros` is the position of its highest set bit |
| SmallSets.SmallSet.constructor | src/small_set.rs:57-59 | `new()` gives a valid bitset with a zero word, holding no element |
| SmallSets.SmallSet.ElementsBelowCapacity | src/small_set.rs:45-48 | every element of a bitset is below `CAPACITY = 1 << BITS`, which is the word width |
| SmallSets.SmallSet.EmptyIffZero | src/small_set.rs:83-85 | the word is zero exactly when the set is empty |
| SmallSets.SmallSet.Clear | src/small_set.rs:79-81 | `clear` leaves the set empty and valid |
| SmallSets.SmallSet.IsEmpty | src/small_set.rs:83-85 | true exactly when the set has no element |
| SmallSets.SmallSet.Contains | src/small_set.rs:87-90 | true exactly when x is an element, that is when bit x of the word is set |
| SmallSets.SmallSet.Insert | src/small_set.rs:92-96 | afterwards the set is the old set plus x, and the result is true exactly when x was absent |
| SmallSets.SmallSet.Remove | src/small_set.rs:98-102 | afterwards the set is the old set minus x, and the result is true exactly when x was present |
| SmallSets.SmallSet.BitsAtOrAbove | src/small_set.rs:106 | `bits & !((1 << x) - 1)` keeps exactly the set bits at positions x and above |
| SmallSets.SmallSet.BitsAtOrBelow | src/small_set.rs:112-116 | both branches of the mask in `prev` keep exactly the set bits at positions up to x, including `x == CAPACITY - 1`, where no shift by the full width happens |
| SmallSets.SmallSet.Lowest | src/small_set.rs:107 | the trailing-zero count of a non-zero masked word is a set bit below the width, with no set bit beneath it |
| SmallSets.SmallSet.Highest | src/small_set.rs:117 | `CAPACITY - 1 - leading_zeros` of a non-zero word is a set bit below the width, with no set bit above it |
| SmallSets.SmallSet.Next | src/small_set.rs:104-108 | the least element at or after x, or None when no element is at or after x |
| SmallSets.SmallSet.Prev | src/small_set.rs:110-118 | the greatest element at or below x, or None when every element is above x |
| SmallSets.SmallSet.First | src/small_set.rs:120-122 | the minimum element, or None exactly when the set is empty |
| SmallSets.SmallSet.Last | src/small_set.rs:124-126 | the maximum element, or None exactly when the set is empty |
| Sizes.LeafSizes | src/sizes.rs:13-24 | bit widths 4, 5, 6 and 7 map to leaf bitsets whose word width is `2^n` (16, 32, 64, 128) |
| Sizes.CompositeHalves | src/sizes.rs:26-48 | from 8 bits on, the type is a composite of the `n / 2`-bit type and the `(n + 1) / 2`-bit type, both at least 4 and below n, so the table is well founded |
| Sizes.SizedBits | src/outer.rs:54 | `SizedVEBTree<n>::BITS == n` for every n in 4..=57, and the type bottoms out in valid leaves |
| Sizes.SizedCapacity | src/sizes.rs:50-52 | `SizedVEBTree<n>::CAPACITY == 1 << n`, and a composite's capacity is the product of its halves' capacities |
| Outer.SplitJoin | src/outer.rs:81-85 | splitting x into cluster and offset and joining them back gives x, and the offset is below the cluster size |
| Outer.JoinSplit | src/outer.rs:203 | joining `(u << Lower::BITS) + l` with `l` below the cluster size and splitting it again gives back u and l |
| Outer.JoinOrder | src/outer.rs:190-211 | joined values compare like (cluster, offset) pairs in lexicographic order, which is what lets `next` and `prev` search cluster by cluster |
| Outer.SplitIsDivMod | src/outer.rs:81-85 | the cluster of x is `x / Lower::CAPACITY` and its offset `x % Lower::CAPACITY` |
| Outer.CapacityBelowSentinel | src/outer.rs:66-67 | every capacity below `2^64` is below `usize::MAX`, so the empty marker is never an element |
| Outer.VEBTree.Leaf | src/small_set.rs:57-59 | a leaf node is a valid empty set with the leaf's BITS |
| Outer.VEBTree.Node | src/outer.rs:62-69 | `new` of a composite node is a valid empty set with `BITS = Upper::BITS + Lower::BITS`, made of fresh objects |
| Outer.VEBTree.Build | src/sizes.rs:50-52 | building any well-formed shape gives a valid empty set of that shape's BITS, made of fresh objects |
| Outer.VEBTree.NewClusters | src/outer.rs:65 | `UPPER_CAPACITY` fresh, empty, valid clusters with pairwise disjoint footprints |
| Outer.VEBTree.Clear | src/outer.rs:91-98 | `clear` leaves the set empty and valid |
| Outer.VEBTree.ClearNode | src/outer.rs:91-98 | `clear` of a composite node: afterwards the node is valid and empty, with `min` and `max` at `usize::MAX`, `upper` and every cluster empty |
| Outer.VEBTree.ClearChildren | src/outer.rs:92-95 | after the loop, `upper` and every cluster are empty and valid |
| Outer.VEBTree.ClearCluster | src/outer.rs:93-95 | one turn of the loop empties cluster u and changes no other cluster nor `upper` |
| Outer.VEBTree.Ul | src/outer.rs:81-85 | `x >> Lower::BITS` is the cluster of x, and `x & (Lower::CAPACITY - 1)` is its offset |
| Outer.VEBTree.IsEmpty | src/outer.rs:100-102 | true exactly when the set has no element |
| Outer.VEBTree.SplitInRange | src/outer.rs:123-124 | a value below the capacity lands in an existing cluster, at an offset below that cluster's capacity |
| Outer.VEBTree.Contains | src/outer.rs:104-125 | true exactly when x is an element |
| Outer.VEBTree.First | src/outer.rs:236-238 | the minimum element, or None exactly when the set is empty |
| Outer.VEBTree.Last | src/outer.rs:240-242 | the maximum element, or None exactly when the set is empty |
| Outer.VEBTree.Next | src/outer.rs:190-211 | the least element at or after x, or None when no element is at or after x |
| Outer.VEBTree.NextPastCluster | src/outer.rs:207-210 | when x's cluster holds nothing at or after x and `min < x <= max`, a later non-empty cluster exists, and the first element of the next one is the answer to `next(x)` |
| Outer.VEBTree.Prev | src/outer.rs:213-234 | the greatest element at or below x, or None when every element is above x; it holds while `max` is stale |
| Outer.VEBTree.Insert | src/outer.rs:127-153 | afterwards the set is the old set plus x and is valid again; the result is true exactly when x was absent |
| Outer.VEBTree.InsertIntoNode | src/outer.rs:136-152 | on a non-empty node, swapping a smaller x into `min` and pushing the old minimum into its cluster gives the old set plus x |
| Outer.VEBTree.InsertIntoCluster | src/outer.rs:148-152 | the offset goes into its cluster, `upper` gains the cluster, no other cluster changes, and the result reports whether the offset was new |
| Outer.VEBTree.MarkCluster | src/outer.rs:149-151 | `upper` gains the cluster number and no cluster changes |
| Outer.VEBTree.InsertIntoLower | src/outer.rs:152 | only cluster u gains the offset, and the result reports whether it was new |
| Outer.VEBTree.Remove | src/outer.rs:155-188 | afterwards the set is the old set minus x and is valid again; the result is true exactly when x was present |
| Outer.VEBTree.RemoveComposite | src/outer.rs:158-188 | the same, for a composite node |
| Outer.VEBTree.RemoveFromSingleton | src/outer.rs:158-166 | removing the only element empties the node, with both fields reset to `usize::MAX`; any other x leaves it unchanged |
| Outer.VEBTree.ReplaceMin | src/outer.rs:168-171 | removing `min` promotes `next(x + 1)`, the least remaining element, into `min` |
| Outer.VEBTree.RestoreMax | src/outer.rs:179-181 | when the removed value was `max` and is not the new `min`, `prev(x - 1)` exists and becomes the new maximum; the node is valid again either way, with `min` and the set unchanged |
| Outer.VEBTree.RemoveFromCluster | src/outer.rs:173-177 | the offset leaves its cluster, an emptied cluster leaves `upper`, and the result reports whether the offset was there |
| Outer.VEBTree.UnmarkCluster | src/outer.rs:175-177 | `upper` loses the cluster number and no cluster changes |
| Outer.VEBTree.RemoveFromLower | src/outer.rs:174 | only cluster u loses the offset, and the result reports whether it was there |
| Outer.VEBTree.SingletonShape | src/outer.rs:158 | when `min == max` the set is at most `{min}` and every cluster is empty |
| Outer.VEBTree.ClustersBetween | src/outer.rs:190-234 | every element stored in a cluster lies strictly above `min` and at or below `max` |
| Outer.VEBTree.MinBelowMax | src/outer.rs:168-169 | when `min != max` the node is non-empty, `min < max`, and `max` is an element, so `next(min + 1)` has an answer |
| Outer.VEBTree.Emptied | src/outer.rs:158-162 | a composite node with both fields at `usize::MAX` and no contents is valid |
| Outer.VEBTree.MaxRecomputed | src/outer.rs:179-181 | recomputing `max` as `prev(x - 1)` restores the invariant |
| Outer.VEBTree.InsertKeepsValid | src/outer.rs:136-152 | the swap of `min`, the update of `max` and the cluster insert together restore the invariant and add exactly x |
| Outer.VEBTree.InsertKeepsCache | src/outer.rs:136-152 | after the insert, `min` is still the least element, is stored in no cluster, and every cluster element is in the new set |
| Outer.VEBTree.MaxAfterInsert | src/outer.rs:144-146 | raising `max` to a displaced larger value keeps it the largest element |
| Outer.VEBTree.RemoveKeepsValid | src/outer.rs:168-181 | after promoting `min` and removing from the cluster, the invariant holds except for `max`, and `max` is still right unless it was removed |
| Outer.VEBTree.RemoveKeepsCache | src/outer.rs:168-177 | after promoting `min` and removing from the cluster, `min` is still the least element and is stored in no cluster |
| Outer.VEBTree.NextInCluster | src/outer.rs:201-204 | if x's cluster holds an offset at or after x's offset, the cluster's `next` joined back is `next(x)` |
| Outer.VEBTree.LaterClusterExists | src/outer.rs:207 | when x's cluster holds nothing at or after x and `x <= max`, `upper.next(ux + 1)` has an answer (the `expect` cannot fail) |
| Outer.VEBTree.NextInLaterCluster | src/outer.rs:207-210 | the first element of the next non-empty cluster after x's is `next(x)` |
| Outer.VEBTree.PrevInCluster | src/outer.rs:220-223 | if x's cluster holds an offset at or below x's offset, the cluster's `prev` joined back is `prev(x)` |
| Outer.VEBTree.PrevInEarlierCluster | src/outer.rs:226-230 | the last element of the previous non-empty cluster before x's is `prev(x)` |
| Outer.VEBTree.PrevIsMin | src/outer.rs:233 | when no cluster holds anything at or below x, `min` is `prev(x)` |
| Outer.VEBTree.InRange | src/lib.rs:88-89 | every element is below the capacity |
| Iteration.VEBIterator.constructor | src/lib.rs:139-144 | `iter()` starts at cursor 0 having returned nothing |
| Iteration.VEBIterator.Next | src/lib.rs:158-166 | returns `next(cursor)` and moves the cursor just past it. Returns None once the cursor is at CAPACITY. The values returned so far ascend strictly and are exactly the elements below the cursor. None means every element has been returned |
| Iteration.Collect | src/lib.rs:139-166 | draining a new iterator gives a strictly ascending sequence of exactly the set's elements |
| Scenarios.DocExample | src/lib.rs:23-44 | the documentation example on a 24-bit set gives exactly the values its assertions expect |
| Scenarios.InsertDocValues | src/lib.rs:30-32 | inserting 123, 1337, 123 returns true, true, false and leaves {123, 1337} |
| Scenarios.RemoveDocValue | src/lib.rs:41-42 | removing 1337 twice returns true, then false, and leaves {123} |
| Scenarios.NextOfDocSet | src/lib.rs:37-39 | in {123, 1337}, `next` of 42, 123 and 124 is 123, 123 and 1337 |
| Scenarios.NothingAfter123 | src/lib.rs:44 | in {123}, `next(124)` is None |
| Scenarios.CapacityAtLeast16 | src/lib.rs:192-197 | every set type holds 0..15, so the values 2, 4, 6 fit |
| Scenarios.Capacity24 | src/lib.rs:25 | `VEBTree24` holds `0..2^24`, so 1337 fits |
| Scenarios.EmptyWorks | src/lib.rs:181-190 | a new set is empty and still empty after `clear`, and it contains no value below `min(CAPACITY, 1000)` |
| Scenarios.SmallCollect | src/lib.rs:192-204 | after inserting 2, 4, 6 the iterator returns 2, 4, 6, then None |
| Scenarios.NextOf246 | src/lib.rs:200-203 | `next` on {2, 4, 6} from cursors 0, 3, 5 and 7 is 2, 4, 6 and None |
| Scenarios.SpacedCollect | src/lib.rs:206-221 | inserting every `spacing`-th value and draining the iterator returns exactly those values, in order |
| Scenarios.InsertMultiples | src/lib.rs:211-213 | the insert loop leaves a valid set holding exactly the multiples of `spacing` below the capacity |
| Scenarios.InsertNext | src/lib.rs:212 | one insert of the loop adds the value to those already inserted |
| Scenarios.MultiplesAscend | src/lib.rs:211 | `(0..CAPACITY).step_by(spacing)` lies below the capacity and ascends strictly |
| Scenarios.AscendingUnique | src/lib.rs:217-220 | two strictly ascending sequences with the same elements are equal, so the iterator's output is the stepped range |
| Scenarios.MultiplesStep | src/lib.rs:211 | one step of the range moves its head from the remaining values to the inserted ones |
| Scenarios.MultiplesDone | src/lib.rs:211 | once the value passes the capacity the range is exhausted |
| DynCapacity.FirstFitting | src/dyn_capacity.rs:36-55 | the candidates from n up to 49 are tried in order. The answer is the first n with `capacity <= 1 << n`, and no earlier candidate fits. None means no candidate fits |
| DynCapacity.BitsForCapacity | src/dyn_capacity.rs:35-58 | the bit count `new_with_capacity` chooses is in 4..=49, fits the capacity and is the smallest that does |
| DynCapacity.PanicsExactlyAbove | src/dyn_capacity.rs:57 | `new_with_capacity` panics exactly when the capacity exceeds `1 << 49` |
| DynCapacity.FitsBy | src/dyn_capacity.rs:38 | a capacity that fits the n-bit type, n in 4..=49, gets at most n bits |
| DynCapacity.SmallCapacities | src/dyn_capacity.rs:38-39 | any capacity up to 16 gets the 4-bit type, of capacity 16 |
| DynCapacity.ExactPowerOfTwo | src/dyn_capacity.rs:36-55 | capacity `1 << n` with n in 4..=49 gets exactly n bits |
| DynCapacity.BitsRequestExact | src/dyn_capacity.rs:74 | for bits below 64, `new_with_capacity(1 << bits)` gives 4 bits when fewer are asked for and exactly `bits` up to 49, and panics above 49 |
| DynCapacity.NewWithCapacity | src/dyn_capacity.rs:35-58 | a valid, fresh, empty set of the smallest fitting type, or None exactly where the source panics |
| DynCapacity.NewWithBits | src/dyn_capacity.rs:68-75 | a valid, fresh, empty set of `max(bits, 4)` bits exactly when `bits <= 49`; None otherwise, covering both the assertion `bits < 64` and the capacity panic |
| DynCapacity.CapacityOfTwoTo30 | tests/constants.rs:26-27 | `new_with_capacity(1 << 30)` has capacity `1 << 30` |
| EmptyState.RemoveAsWritten | src/outer.rs:155-188 | `remove` as written, on the cached `min`, `max` and the cluster values: the singleton branch never panics; a call that returns never adds a cluster value, and one that reports false leaves the clusters as they were; on a coherent node the result is true exactly when x was `min` or in a cluster |
| EmptyState.SingletonRemovalLeavesMaxZero | src/outer.rs:158-162 | as written, removing the only element of a coherent node leaves `min == usize::MAX` with `max == 0`, which breaks the empty-node invariant |
| EmptyState.EmptiedNodeRejectsZero | src/outer.rs:185 | as written, `remove(0)` on a node emptied this way fails the debug assertion `x != self.max`, whatever the capacity |
| EmptyState.SingletonZeroScenario | src/outer.rs:155-188 | as written, `insert(0)`, `remove(0)`, `remove(0)` on the smallest composite node (`SizedVEBTree<8>`, 256 values): the first removal returns true, and the second panics instead of returning false |

## Left out

- `init`, `new_boxed` and the boxed uninitialised construction (src/outer.rs:71-79, src/outer.rs:254-257, src/dyn_capacity.rs:18-22) are not modelled. They are unsafe memory plumbing that builds the same empty value as `new`. `DynCapacity.NewWithCapacity` builds that value directly.
- `Box<dyn VEBTree>` dispatch and the const-generic, type-level machinery (`Sealed`, `InnerVEBTree`, `ConditionalHasDeepMaybeUninit`) are not modelled as types. A type is a `Sizes.Shape` value, and one class stands for every `SizedVEBTree<n>`.
- The `Debug` implementations are left out because they only format output.
- The trait's `capacity()` accessors are left out: they return the constant `CAPACITY`, modelled by `Capacity()`.
- `debug_assert!(x < CAPACITY)` range checks become `requires x < Capacity()`. Their panics are not modelled.
- `debug_assert!(x != self.max)` at src/outer.rs:185 is a panic in `EmptyState.RemoveAsWritten`. In the verified `Outer.VEBTree.RemoveComposite` it is a proved assertion on the path where x is in no cluster, so with the corrected empty state it cannot fail.
- The `Bits` trait and its `u16`..`u128` implementations (src/small_set.rs:4-43) are not modelled as types. A word is a natural below `2^WIDTH`, with the word operations defined on naturals.
- Hardware `leading_zeros` and `trailing_zeros` are specified by the lowest and highest set bit rather than by an implementation.
- `usize` values are unbounded naturals: elements, capacities and cluster indices stay below `2^64`, and the model never relies on wrap-around. The leaf word is a natural below `2^WIDTH`, up to `2^128 - 1` for the `u128` leaf.
- The `lower` array `[Lower; UPPER_CAPACITY]` is a `seq` of distinct child objects, each updated in place. The array is flat memory in the source; the model keeps its length and indexing, not its memory layout.
- `DynCapacity.NewWithBits` models the assertion `bits < usize::BITS` (src/dyn_capacity.rs:69-73) as the value None, not as a panic. The same holds for the capacity panic in `DynCapacity.NewWithCapacity`.
- benches/random.rs and tests/use_sizes.rs are not part of this model: one is a timing harness, the other only instantiates types.
- `Scenarios.EmptyWorks`, `Scenarios.SmallCollect` and `Scenarios.SpacedCollect` cover every well-formed shape of below 64 bits. They do not restate the particular type list the test macro is instantiated with.

## Findings

| source | as written | input that shows it | evidently intended | confidence | as-written member | corrected member |
|---|---|---|---|---|---|---|
| src/outer.rs:161 | removing the only element sets `min = usize::MAX` but `max = 0` | on a composite node: `insert(0)`, `remove(0)`, then `remove(0)` again. The second `remove(0)` finds 0 in no cluster while `max == 0`, so `debug_assert!(x != self.max)` at src/outer.rs:185 fails instead of returning false | `max = usize::MAX`, the empty marker that `new` and `clear` use | not executed | EmptyState.EmptiedNodeRejectsZero | Outer.VEBTree.RemoveFromSingleton |
