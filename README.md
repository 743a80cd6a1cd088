# noctree core in Dafny

A model of the indexing engine of the `noctree` crate: a bounded-depth octree
whose only storage is a hash map from path-code identities (`Id`) to octants.
It covers the four core files:

- `src/sign.rs`: the two-valued `Sign` and its byte conversion (`sign.dfy`).
- `src/octant_id.rs`: the `Id` of `N` bytes, one per level (`octant_id.dfy`).
  An active byte carries the level-active flag `0b1000` and one sign bit for
  each of x, y and z; a zero byte marks an unused level. `root` writes byte 0.
  `child` writes the parent's first zero byte, or byte `N - 1` when there is
  none.
- `src/octant.rs`: `Node` and `Leaf` and the accessors of `Octant`
  (`octant.dfy`).
- `src/tree.rs`: the `Octree` and its operations (`tree_spec.dfy`,
  `descent.dfy`, `tree.dfy`).
  - `new` refuses negative ranges.
  - `push` checks the bounds. It then descends from the root octant of the
    point, creating missing octants as empty leaves. It appends the pair to
    the first leaf with room, or to the leaf at the last level. On the way,
    a full leaf becomes a node and its pairs go to its children
    (`split_octant_to_next_depth`).
  - `leaves` lists the leaves.

The numeric shims of `src/util.rs` that the core uses are modelled once over
unbounded integers (`numeric.dfy`). `Half` truncates toward zero like Rust's
integer `/ 2`. `Abs` and `IsNonNegative` are the usual integer operations.

How the tree side is organised:

- `TreeSpec` holds what the map must satisfy (`TreeInv`):
  - every key is a well-formed Id;
  - the parent of every deeper key is a node;
  - no node sits at the last level;
  - every leaf above the last level holds at most `threshold` pairs;
  - every octant has the geometry its path determines;
  - every stored point lies on the route its coordinates take from the root.

  It also holds the pairs a map stores (`Contents`, a multiset) and the split
  as a function (`Distributed`), with lemmas about all of these.
- `Descent` describes one pass of the loop of `push` as a function (`Visit`)
  and the whole descent as at most `N` passes (`PushSpec`). It proves that
  the descent always stores the pair and keeps the invariant (`PushStores`).
- `Tree` holds the imperative code: the class `Octree` with its map field,
  the split loop and the descent loop. Each is proved against those
  functions.

## Model

| member | source | states |
|---|---|---|
| Signs.SignToByte | src/sign.rs:7-14 | `Positive` converts to 0 and `Negative` to 1; the byte is at most 1 |
| Signs.SignToByteInjective | src/sign.rs:7-14 | distinct signs convert to distinct bytes |
| Signs.OnlyTwoSigns | src/sign.rs:1-5 | every sign is `Positive` or `Negative` |
| Signs.OrderMatchesByte | src/sign.rs:1-5 | the derived order puts `Positive` before `Negative`, the same order as their bytes |
| Signs.OrderIsStrictTotal | src/sign.rs:1-5 | the derived order is irreflexive, transitive and total |
| Numeric.Half | src/util.rs:31-33 | halving truncates toward zero: `2h <= x <= 2h + 1` for `x >= 0`, `2h - 1 <= x <= 2h` for `x < 0` |
| Numeric.HalfCommutesWithNegation | src/util.rs:31-33 | halving commutes with negation, unlike a floor division |
| Numeric.Abs | src/util.rs:119-123 | the absolute value is non-negative and is `x` or `-x` |
| Numeric.IsNonNegative | src/util.rs:201-205 | a value passes the non-negativity test exactly when it is its own absolute value |
| Octants.Octant.Center | src/octant.rs:7-12 | the center field of whichever variant holds it |
| Octants.Octant.Ranges | src/octant.rs:14-19 | the ranges field of whichever variant holds it |
| Octants.Octant.PointsMut | src/octant.rs:42-47 | `None` exactly for a node; the leaf's own pairs for a leaf |
| Octants.Octant.WithPoints | src/octant.rs:42-61 | writing pairs through the `points_mut` handle keeps the variant, the center and the ranges, and reads back what was written |
| Octants.Octant.Pairs | src/octant.rs:50-61 | a leaf stores its pairs, with repetition; a node stores none |
| Octants.PointsHandleRoundTrip | src/octant.rs:42-47 | writing back what the handle gave changes nothing; a second write replaces the first |
| OctantId.SignsToBits | src/octant_id.rs:36-48 | the result is below 8, with bit 2, 1 or 0 set exactly when x, y or z is negative |
| OctantId.SignsToBitsMatchesTable | src/octant_id.rs:20-29 | the sign bits are `4x + 2y + z` with each sign as its byte, as in the numbering table |
| OctantId.ActiveByte | src/octant_id.rs:61-76 | an active level's byte is nonzero, carries the level-active flag with no bit above it, and decodes to its signs |
| OctantId.ActiveByteInjective | src/octant_id.rs:36-48 | distinct sign triples give distinct active bytes |
| OctantId.FindFirstZero | src/octant_id.rs:96-98 | the index of the first zero byte, and `None` exactly when no byte is zero |
| OctantId.Uninitialized | src/octant_id.rs:52-54 | `N` bytes, all zero, so `is_uninitialized` holds |
| OctantId.IsUninitialized | src/octant_id.rs:56-58 | an all-zero Id has no active level: its level is -1 and it decodes to the empty path |
| OctantId.FromBits | src/octant_id.rs:90-94 | wraps the bytes verbatim; `is_uninitialized` holds exactly when each is zero |
| OctantId.EqualityIsBytewise | src/octant_id.rs:31-34 | two Ids are equal exactly when their bytes agree at every position |
| OctantId.Root | src/octant_id.rs:61-67 | byte 0 is the active byte of the signs and every other byte is 0: a well-formed Id at level 0 that decodes to the one triple and is not uninitialized |
| OctantId.Child | src/octant_id.rs:69-76 | exactly one byte changes, to the active byte of the signs: the parent's first zero byte, or byte `N - 1` when the parent has none; the result is not uninitialized |
| OctantId.ChildExtendsPath | src/octant_id.rs:69-76 | below the last level, a child is well formed one level deeper, decodes to the parent's path plus the new triple, and clearing that byte gives the parent back |
| OctantId.RootIsTagged | src/octant_id.rs:61-67 | the active byte of a root Id has the level-active flag set and no bit above it |
| OctantId.ChildKeepsTagged | src/octant_id.rs:69-76 | a child of a well-formed Id whose active bytes have that form has them in that form too, at the maximum depth included |
| OctantId.ChildInjective | src/octant_id.rs:69-76 | two children of one parent with different sign triples are different Ids |
| OctantId.BuildLayout | src/octant_id.rs:61-76 | `root` then `k <= N - 1` calls of `child` set exactly the first `k + 1` bytes, each the active byte of its triple, and leave zeros after |
| OctantId.BuildRoundTrip | src/octant_id.rs:61-76 | the Id built from a path is well formed at level `k` and decodes to exactly that path |
| OctantId.BuildInjective | src/octant_id.rs:61-76 | different paths of at most `N` levels build different Ids |
| TreeSpec.PositionToOctant | src/tree.rs:39-61 | an axis is negative exactly when the point is below the center; equality gives positive |
| TreeSpec.CenterIsAllPositive | src/tree.rs:54-60 | the center itself classifies as all positive |
| TreeSpec.RangeAndCenterForOctant | src/tree.rs:63-93 | each child range is half the parent range; each child center moves by that half, up for a positive sign and down for a negative one |
| TreeSpec.ChildCenterLiesInItsOctant | src/tree.rs:63-93 | with ranges of at least 2, a child's center classifies back into that same child |
| TreeSpec.ChildrenTileParent | src/tree.rs:82-92 | on each axis the two children meet at the parent center and reach `center ± 2*Half(range)`: the parent's edges only when the range is even and read as a half-extent (see "Left out") |
| TreeSpec.RangesDependOnDepthOnly | src/tree.rs:82-92 | octants at the same depth have the same ranges |
| TreeSpec.GeometryStep | src/tree.rs:195-203 | the geometry of a path one triple longer is the child geometry of the shorter path's |
| TreeSpec.RoutePrefix | src/tree.rs:230-231 | the route of a point to depth `j` is the prefix of its route to any depth `k >= j` |
| TreeSpec.SelectMembers | src/tree.rs:118-120 | a child receives exactly those of the leaf's pairs that classify into it |
| TreeSpec.SelectAppend | src/tree.rs:118-134 | a child's share of pairs grows by a pair exactly when that pair classifies into it, and keeps their order |
| TreeSpec.ContentsRemove | src/tree.rs:36 | the pairs of the map are those of one key plus those of the rest |
| TreeSpec.ContentsUpdate | src/tree.rs:36 | writing an octant at a key trades the pairs it held for the pairs the new octant holds |
| TreeSpec.ContentsAppend | src/tree.rs:209 | appending one pair to a leaf adds exactly that pair to what the map holds |
| TreeSpec.ContentsAreLeafPoints | src/tree.rs:36 | a pair is in the map exactly when some leaf's pairs contain it |
| TreeSpec.EmptyTreeInv | src/tree.rs:170-175 | the empty map of a new tree satisfies the tree invariant |
| TreeSpec.LeafHasNoChildren | src/tree.rs:195-223 | a leaf above the last level has no child in the map |
| TreeSpec.CreateLeafKeepsInv | src/tree.rs:195-203 | inserting a missing key under a node as an empty leaf with its path's geometry keeps the invariant |
| TreeSpec.AppendKeepsInv | src/tree.rs:208-210 | appending a pair on its route to a leaf with room, or to a leaf at the last level, keeps the invariant |
| TreeSpec.SplitKeepsInv | src/tree.rs:212-220 | replacing a leaf above the last level by a node with the leaf's center and ranges keeps the invariant |
| TreeSpec.ChildGeometry | src/tree.rs:119-122 | the geometry the path of a child determines is the one `range_and_center_for_octant` gives from its parent |
| TreeSpec.RouteIntoRoot | src/tree.rs:189-192 | the root Id the descent starts from is the first step of the point's route, with the root octant's geometry |
| TreeSpec.RouteIntoChild | src/tree.rs:230-231 | the child chosen from an octant on the point's route is the next step of that route |
| TreeSpec.ChildOnRoute | src/tree.rs:226-231 | that child is a well-formed Id one level deeper whose parent is the octant, with the geometry its path determines |
| TreeSpec.SplitStepKeeps | src/tree.rs:118-134 | handing one more pair to its child keeps the invariant, makes the child hold its earlier share plus the pair, and adds exactly that pair to the contents |
| TreeSpec.DistributeOne | src/tree.rs:118-140 | one step of the split removes no key from the map |
| TreeSpec.Distributed | src/tree.rs:118-140 | distributing any sequence of pairs removes no key from the map |
| TreeSpec.DistributeOneWrites | src/tree.rs:119-134 | one step of the split appends the pair to the child it falls in, creating that child as an empty leaf first if missing |
| TreeSpec.DistributedStep | src/tree.rs:118-140 | distributing one more pair is one more step on the map so far |
| TreeSpec.DistributedKeepsLeaves | src/tree.rs:130-139 | during the split every child of the node stays a leaf, so the arm marked unreachable is never taken |
| TreeSpec.DistributedSplitInv | src/tree.rs:118-140 | after each prefix of the pairs, the split keeps the invariant and every other entry, and the children hold exactly their shares |
| TreeSpec.SplitResult | src/tree.rs:113-140 | after the split each child holds, in their original order, exactly the pairs that fall in it; no other entry changes; the invariant holds; the contents grow by exactly the leaf's pairs |
| Descent.Start | src/tree.rs:189-193 | the descent starts on the given map at level 0, from an `N`-byte root Id |
| Descent.GetOrInsertLeaf | src/tree.rs:195-203 | `entry().or_insert_with`: an absent key gets an empty leaf with the geometry of its signs; every other entry stays |
| Descent.FetchedMap | src/tree.rs:195-203 | after the fetch, `id` is a key of the map |
| Descent.Fetched | src/tree.rs:195-203 | the octant a pass finds is the one stored at `id`, or a fresh empty leaf when none is |
| Descent.Appended | src/tree.rs:208-210 | storing the pair writes the fetched leaf back with the pair appended |
| Descent.WithNode | src/tree.rs:212-220 | the split writes a node with the fetched leaf's center and ranges at `id` |
| Descent.SplitMap | src/tree.rs:212-221 | the split removes no key and leaves `id` in the map |
| Descent.StepDown | src/tree.rs:226-232 | the next pass works on the new map, one level deeper, at a child of `id` |
| Descent.Visit | src/tree.rs:195-232 | a pass either stores at `id` or moves exactly one level deeper |
| Descent.Walk | src/tree.rs:194-233 | `k` passes that have not stored end exactly `k` levels deeper |
| Descent.VisitCases | src/tree.rs:205-229 | a node lends its geometry and the pass goes down; a leaf at the last level or below the threshold takes the pair; a full leaf above it is split and the pass goes down |
| Descent.FetchedFacts | src/tree.rs:195-203 | under the descent invariant, the fetched octant has its path's geometry, its pairs are on its route within the threshold, and a node is not at the last level |
| Descent.ChildStep | src/tree.rs:230-232 | the next Id is well formed one level deeper, on the point's route, with the geometry the loop carries down |
| Descent.KeepsNodesWrite | src/tree.rs:209-220 | writing over a leaf, or at a missing key, keeps every node of the starting map |
| Descent.KeepsNodesThroughSplit | src/tree.rs:220-221 | a split keeps every key and node of the starting map |
| Descent.StoreKeepsInv | src/tree.rs:208-210 | storing in a leaf with room, or at the last level, keeps the tree invariant |
| Descent.StoreKeeps | src/tree.rs:208-210 | the store leaves the pair last in the leaf at `id`, on the point's route; it keeps every key and node; it adds exactly one pair |
| Descent.WithNodeKeepsInv | src/tree.rs:212-220 | turning the full leaf into a node keeps the invariant, and the node has no children yet |
| Descent.SplitReady | src/tree.rs:212-221 | right after the node replaces the leaf, every child of the node present is a leaf |
| Descent.SplitMapKeeps | src/tree.rs:212-221 | the split keeps the invariant, keeps the entries beside the new node, and stores the same pairs as before |
| Descent.SplitMapAgrees | src/tree.rs:212-221 | after a split, the map keeps every key, node and pair of the starting map, and `id` is a node |
| Descent.SplitKeeps | src/tree.rs:205-232 | a pass that splits and goes down keeps the descent invariant |
| Descent.DescendKeeps | src/tree.rs:224-232 | a pass through a node keeps the descent invariant |
| Descent.VisitKeeps | src/tree.rs:194-233 | every pass keeps the descent invariant, or stores with the stored-pair properties |
| Descent.StartKeeps | src/tree.rs:189-193 | the loop variables before the first pass satisfy the descent invariant |
| Descent.WalkKeeps | src/tree.rs:194-233 | any number of passes keep the descent invariant or end stored with the stored-pair properties |
| Descent.ContinueKeeps | src/tree.rs:194-233 | the same, continuing from an outcome that already satisfies it |
| Descent.PushSpec | src/tree.rs:189-235 | a descent that has not stored has gone down all `N` levels (`PushStores` proves that it always stores) |
| Descent.PushStores | src/tree.rs:189-235 | the descent always ends by storing within `N` passes (the last level never splits), and the map then has the stored-pair properties |
| Descent.WalkThroughNode | src/tree.rs:224-232 | after a pass through a node, the remaining passes still end where the whole descent ends |
| Descent.WalkThroughSplit | src/tree.rs:211-232 | after a pass that splits, the remaining passes still end where the whole descent ends |
| Descent.WalkStoresLeaf | src/tree.rs:208-210 | the pass that stores is where the whole descent ends |
| Tree.AnyNegative | src/tree.rs:166 | some range fails the non-negativity test exactly when one of the three is below zero |
| Tree.OutOfRange | src/tree.rs:179-187 | a point passes exactly when on every axis `abs(p) <= abs(c) + half(r)`, the boundary included |
| Tree.BoundsCheckAdmits | src/tree.rs:277-288 | for a tree at the origin with ranges 10, the test points at `±5` on every axis are admitted |
| Tree.BoundsCheckRejects | src/tree.rs:290-310 | for that tree, a coordinate of `±10` on any one axis is rejected (the tests use `±10.5`) |
| Tree.FullWidthRangesCrowdOneChild | src/tree.rs:82-92 | for that tree, every admitted point with coordinates in `[0, 5)` is routed to the all-positive octant and then to its all-negative child |
| Tree.SplitOctantToNextDepth | src/tree.rs:95-141 | the loop leaves the map exactly as the split function does (`Distributed`) |
| Tree.Descend | src/tree.rs:189-233 | the loop keeps the tree invariant and leaves the map and Id that `PushSpec` describes |
| Tree.Octree.Init | src/tree.rs:170-175 | the fields are the given ones, the map is empty and the invariant holds |
| Tree.Octree.New | src/tree.rs:160-176 | fails exactly when some range is negative (zero is accepted); otherwise a fresh empty tree with the given center, ranges and threshold |
| Tree.Octree.Leaves | src/tree.rs:238-244 | exactly the leaves of the map, keyed by their Ids |
| Tree.Octree.LeavesHoldContents | src/tree.rs:238-244 | a pair is stored in the tree exactly when one of its leaves holds it |
| Tree.Octree.Push | src/tree.rs:178-236 | fails exactly when some axis has `abs(p) - abs(c) > half(r)`, and then leaves the map unchanged. On success the map is the one the descent describes. It keeps the invariant: no node at the last level, leaves above it within the threshold. The returned Id is a leaf whose last pair is the new one. Every key and node survives. The stored pairs grow by exactly this one |

## Left out

- Floating-point coordinates: the `f32`/`f64` shims (`self * 0.5`, the standard `abs`) are not modelled. Coordinates are unbounded integers, with `Half` truncating as the integer shims do.
- Fixed-width integer overflow is not modelled. This covers `abs` of the minimum value and the subtraction in the bounds check. The generic trait bounds of the coordinate type are not modelled either.
- The const generic `N` is a parameter `n` of the model, and every Id of a tree has `n` bytes.
- Tree.Octree.Push requires `1 <= n`. For `N = 0` the source indexes `bits[0]` of an empty array in `root` and computes `N - 1` on an unsigned integer.
- Tree.Octree.New does not require `1 <= n`, because `new` itself does not look at `N`.
- Tree.Octree.Leaves returns a map from Id to leaf instead of an iterator. The source yields the leaves in the hash map's unspecified order.
- Hashing and the `Hash` and `Debug` derives are not modelled.
- Tree.Descend and Tree.SplitOctantToNextDepth take the map as a value and return the new one, where the source mutates `self.tree` in place through `&mut`. `Push` assigns the field once, after the descent. No other reference to the map exists during the call, so the model loses no aliasing.
- TreeSpec.DistributeOne leaves the map unchanged when the child is a node, where the source panics (`unreachable!`). `DistributedKeepsLeaves` proves that this case does not arise.
- Tree.SplitOctantToNextDepth requires a leaf (`original.OctantLeaf?`) whose present children are all leaves (`ChildrenAreLeaves`). The source panics otherwise, with `unreachable!` at src/tree.rs:115 and src/tree.rs:137. `Descend` meets both requirements, through `SplitReady`.
- OctantId.Child clamps to byte `N - 1` when the parent has no zero byte, as the source does. The descent never reaches that case, because it calls `child` only above the last level.
- The bounds check `OutOfRange` is kept exactly as written. It compares absolute values, so it is symmetric about the origin rather than about the tree's center. The descent stores any point that passes it, whatever its distance from the center.
- The source reads `ranges` in two ways, and the model keeps both formulas as written. The bounds check (src/tree.rs:184) and the tests (src/tree.rs:255-257) treat a range as the full width of the volume, so a point may lie `half(r)` from the center. `range_and_center_for_octant` (src/tree.rs:82-92) moves a child's center by `half(r)` and gives it the range `half(r)`, which tiles the parent only when `r` is a half-extent. Under the full-width reading a child's center lies on the parent's edge, and the admitted points of an octant crowd into one of its children (`FullWidthRangesCrowdOneChild`). The tree invariant and the routes are stated in terms of the geometry the code computes, so they hold under either reading.
- OctantId.WellFormed does not include the form of the active bytes (level flag set, no bit above it). `RootIsTagged` and `ChildKeepsTagged` prove that form separately for the Ids `root` and `child` build.
- The randomised test of `src/tree.rs` depends on `rand` and is not modelled. Its assertion, that pushing yields at least one leaf, is part of `Push`'s postcondition: the returned Id is among the leaves.
- The error markers of `src/error.rs` become one-constructor datatypes (`errors.dfy`) and are not modelled further. The module declarations of `src/lib.rs` are not modelled.
