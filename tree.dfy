/**
 * The octree itself (src/tree.rs): a map from octant ids to octants that
 * `Push` grows by descending from the root octant of a point, splitting a
 * leaf that is full into children one level deeper.
 */
module Tree {
  import opened Wrappers
  import opened Numeric
  import opened Errors
  import opened Signs
  import opened OctantId
  import opened Octants
  import opened TreeSpec
  import opened Descent

  /** Some component of `ranges` fails the non-negativity test. */
  predicate AnyNegative(ranges: Coords)
    ensures AnyNegative(ranges) <==> ranges[0] < 0 || ranges[1] < 0 || ranges[2] < 0
  {
    exists i :: 0 <= i < 3 && !IsNonNegative(ranges[i])
  }

  /**
   * The bounds check of `push`: on some axis the absolute value of the point
   * exceeds the absolute value of the center by more than half the range.
   */
  predicate OutOfRange(center: Coords, ranges: Coords, point: Coords)
    ensures !OutOfRange(center, ranges, point) <==>
      forall i :: 0 <= i < 3 ==> Abs(point[i]) <= Abs(center[i]) + Half(ranges[i])
  {
    exists i :: 0 <= i < 3 && Abs(point[i]) - Abs(center[i]) > Half(ranges[i])
  }

  /**
   * The bounds check on the points the crate's own tests admit (center at
   * the origin, ranges 10): the boundary `±5` is inside.
   */
  lemma BoundsCheckAdmits()
    ensures !OutOfRange([0, 0, 0], [10, 10, 10], [5, 5, 5])
    ensures !OutOfRange([0, 0, 0], [10, 10, 10], [-5, -5, -5])
  {
    assert Half(10) == 5;
  }

  /**
   * The bounds check on the points the crate's own tests reject (center at
   * the origin, ranges 10): a coordinate past `±5` on any one axis.
   */
  lemma BoundsCheckRejects()
    ensures OutOfRange([0, 0, 0], [10, 10, 10], [10, 0, 0]) && OutOfRange([0, 0, 0], [10, 10, 10], [-10, 0, 0])
    ensures OutOfRange([0, 0, 0], [10, 10, 10], [0, 10, 0]) && OutOfRange([0, 0, 0], [10, 10, 10], [0, -10, 0])
    ensures OutOfRange([0, 0, 0], [10, 10, 10], [0, 0, 10]) && OutOfRange([0, 0, 0], [10, 10, 10], [0, 0, -10])
  {
    ExceedsOnAxis([0, 0, 0], [10, 10, 10], [10, 0, 0], 0);
    ExceedsOnAxis([0, 0, 0], [10, 10, 10], [-10, 0, 0], 0);
    ExceedsOnAxis([0, 0, 0], [10, 10, 10], [0, 10, 0], 1);
    ExceedsOnAxis([0, 0, 0], [10, 10, 10], [0, -10, 0], 1);
    ExceedsOnAxis([0, 0, 0], [10, 10, 10], [0, 0, 10], 2);
    ExceedsOnAxis([0, 0, 0], [10, 10, 10], [0, 0, -10], 2);
  }

  /** One axis on which the point is too far out is enough for the check to fail. */
  lemma ExceedsOnAxis(center: Coords, ranges: Coords, point: Coords, i: int)
    requires 0 <= i < 3 && Abs(point[i]) - Abs(center[i]) > Half(ranges[i])
    ensures OutOfRange(center, ranges, point)
  {
  }

  /**
   * The bounds check reads `ranges` as full widths (a point may be `Half(r)`
   * away from the center), while the child geometry halves `ranges` as
   * half-extents. Under the first reading the all-positive octant of a tree
   * centered at the origin with ranges 10 spans `[0, 5]`, and every admitted
   * point with coordinates in `[0, 5)` goes on to the same child of it.
   */
  lemma FullWidthRangesCrowdOneChild(point: Coords)
    requires forall i :: 0 <= i < 3 ==> 0 <= point[i] < 5
    ensures !OutOfRange([0, 0, 0], [10, 10, 10], point)
    ensures Route([0, 0, 0], [10, 10, 10], point, 2) == [[Positive, Positive, Positive], [Negative, Negative, Negative]]
  {
    var first := Route([0, 0, 0], [10, 10, 10], point, 1);
    assert first == [[Positive, Positive, Positive]];
    assert GeometryUpTo([0, 0, 0], [10, 10, 10], first, 0) == ([0, 0, 0], [10, 10, 10]);
    assert Geometry([0, 0, 0], [10, 10, 10], first)
        == RangeAndCenterForOctant([0, 0, 0], [10, 10, 10], [Positive, Positive, Positive]);
    assert Half(10) == 5;
  }

  /**
   * `split_octant_to_next_depth`: hands every pair of the leaf `original`,
   * which used to sit at `originalId`, to the child of `originalId` its
   * point falls in, creating that child as an empty leaf on first use. The
   * map the source borrows mutably is passed in as `tree` and returned as
   * `tree'`. A child that is a node is the case the source marks unreachable.
   */
  method SplitOctantToNextDepth<U>(n: nat, originalId: Id, original: Octant<U>, tree: map<Id, Octant<U>>)
    returns (tree': map<Id, Octant<U>>)
    requires |originalId.bits| == n && 1 <= n
    requires original.OctantLeaf?
    requires ChildrenAreLeaves(n, tree, originalId)
    ensures tree' == Distributed(n, tree, originalId, original.Center(), original.Ranges(), original.leaf.points)
  {
    var leafCenter, leafRanges, points := original.leaf.center, original.leaf.ranges, original.leaf.points;
    tree' := tree;
    var i := 0;
    while i < |points|
      invariant i <= |points|
      invariant tree' == Distributed(n, tree, originalId, leafCenter, leafRanges, points[..i])
      invariant ChildrenAreLeaves(n, tree', originalId)
    {
      var point := points[i];
      var signs := PositionToOctant(leafCenter, point.0);
      var id := Child(n, originalId, signs[0], signs[1], signs[2]);
      DistributeOneKeepsLeaves(n, tree', originalId, leafCenter, leafRanges, point);
      assert [signs[0], signs[1], signs[2]] == signs;
      var octant;
      if id in tree' {
        octant := tree'[id];
      } else {
        var childGeometry := RangeAndCenterForOctant(leafCenter, leafRanges, signs);
        octant := OctantLeaf(Leaf(childGeometry.0, childGeometry.1, []));
      }
      match octant.PointsMut() {
        case Some(ps) =>
          tree' := tree'[id := octant.WithPoints(ps + [point])];
        case None =>
          assert false;
      }
      DistributedStep(n, tree, originalId, leafCenter, leafRanges, points, i);
      i := i + 1;
    }
    PrefixAll(points);
  }

  /**
   * The descent loop of `push`: from the root octant of `point`, creates a
   * missing octant as an empty leaf, passes through nodes, splits a full leaf
   * above the last level and goes on into the child the point falls in, and
   * appends the pair to the first leaf with room (or the leaf at the last
   * level). The map `push` updates in place is passed in as `tree` and
   * returned as `tree'`; the result is exactly what `PushSpec` describes, and
   * the tree invariant is kept.
   */
  method Descend<U>(n: nat, threshold: nat, center: Coords, ranges: Coords, tree: map<Id, Octant<U>>,
                    point: Coords, data: U)
    returns (tree': map<Id, Octant<U>>, id: Id)
    requires 1 <= n
    requires TreeInv(n, threshold, center, ranges, tree)
    ensures TreeInv(n, threshold, center, ranges, tree')
    ensures PushSpec(n, threshold, center, ranges, tree, (point, data)) == Stored(tree', id)
  {
    ghost var e := (point, data);
    ghost var spec := PushSpec(n, threshold, center, ranges, tree, e);
    var t := tree;
    var ctr, rng := center, ranges;
    var signs := PositionToOctant(ctr, point);
    id := Root(n, signs[0], signs[1], signs[2]);
    var level := 0;
    StartKeeps(n, threshold, center, ranges, tree, e);
    while true
      invariant |id.bits| == n && level < n
      // `== true` checks each predicate as a whole rather than conjunct by conjunct.
      invariant DescentInv(n, threshold, center, ranges, tree, e, State(t, ctr, rng, signs, id, level)) == true
      invariant Heading(n, threshold, State(t, ctr, rng, signs, id, level), e, spec) == true
      decreases n - level
    {
      ghost var st := State(t, ctr, rng, signs, id, level);
      t := GetOrInsertLeaf(t, id, ctr, rng, signs);
      var octant := t[id];
      match octant.PointsMut() {
        case Some(points) =>
          if level == n - 1 || |points| < threshold {
            var leaf := octant.WithPoints(points + [(point, data)]);
            t := t[id := leaf];
            WalkStoresLeaf(n, threshold, st, e, spec);
            StoreKeepsInv(n, threshold, center, ranges, tree, e, st);
            break;
          }
          var node := OctantNode(Node(octant.Center(), octant.Ranges()));
          ctr, rng := node.Center(), node.Ranges();
          t := t[id := node];
          SplitReady(n, threshold, center, ranges, tree, e, st);
          t := SplitOctantToNextDepth(n, id, octant, t);
        case None =>
          ctr, rng := octant.Center(), octant.Ranges();
      }
      signs := PositionToOctant(ctr, point);
      id := Child(n, id, signs[0], signs[1], signs[2]);
      level := level + 1;
      if octant.OctantLeaf? {
        WalkThroughSplit(n, threshold, st, e, State(t, ctr, rng, signs, id, level), spec);
        SplitKeeps(n, threshold, center, ranges, tree, e, st);
      } else {
        WalkThroughNode(n, threshold, st, e, State(t, ctr, rng, signs, id, level), spec);
        DescendKeeps(n, threshold, center, ranges, tree, e, st);
      }
    }
    tree' := t;
  }

  /**
   * An octree of maximum depth `n` (levels `0` to `n - 1`) over the box given
   * by `center` and `ranges`, whose leaves above the last level hold at most
   * `threshold` pairs each.
   */
  class Octree<U> {
    const n: nat
    const center: Coords
    const ranges: Coords
    const threshold: nat
    var tree: map<Id, Octant<U>>

    /** The octree's invariant: ranges are non-negative and the map is well built. */
    ghost predicate Valid()
      reads this
    {
      && !AnyNegative(ranges)
      && TreeInv(n, threshold, center, ranges, tree)
    }

    constructor Init(n: nat, center: Coords, ranges: Coords, threshold: nat)
      requires !AnyNegative(ranges)
      ensures this.n == n && this.center == center && this.ranges == ranges
      ensures this.threshold == threshold
      ensures tree == map[]
      ensures Valid()
    {
      this.n := n;
      this.center := center;
      this.ranges := ranges;
      this.threshold := threshold;
      tree := map[];
      EmptyTreeInv<U>(n, threshold, center, ranges);
    }

    /** `Octree::new`: an empty tree, refused when some range is negative. */
    static method New(n: nat, center: Coords, ranges: Coords, threshold: nat)
      returns (r: Result<Octree<U>, NegativeRangeError>)
      ensures r.Failure? <==> exists i :: 0 <= i < 3 && ranges[i] < 0
      ensures r.Success? ==>
        && fresh(r.value)
        && r.value.n == n && r.value.center == center && r.value.ranges == ranges
        && r.value.threshold == threshold
        && r.value.tree == map[]
        && r.value.Valid()
    {
      if AnyNegative(ranges) {
        return Failure(NegativeRangeError);
      }
      var t := new Octree<U>.Init(n, center, ranges, threshold);
      return Success(t);
    }

    /**
     * `leaves`: every leaf of the map, under the Id that holds it. The source
     * yields the leaves in the map's iteration order, which is unspecified.
     */
    function Leaves(): (r: map<Id, Leaf<U>>)
      reads this
      ensures forall k :: k in r <==> k in tree && tree[k].OctantLeaf?
      ensures forall k :: k in r ==> tree[k] == OctantLeaf(r[k])
    {
      map k | k in tree && tree[k].OctantLeaf? :: tree[k].leaf
    }

    /** A pair is stored in the octree exactly when one of its leaves holds it. */
    lemma LeavesHoldContents(e: Entry<U>)
      ensures e in Contents(tree) <==> exists k :: k in Leaves() && e in Leaves()[k].points
    {
      ContentsAreLeafPoints(tree, e);
      if e in Contents(tree) {
        var k :| k in tree && tree[k].OctantLeaf? && e in tree[k].leaf.points;
        assert k in Leaves();
      }
    }

    /**
     * `push`: refuses a point outside the bounds check and changes nothing;
     * otherwise stores the pair by `Descend` and returns the Id of the leaf
     * that took it. The map is then the one `PushSpec` describes: it keeps
     * the tree invariant, its leaf at the returned Id ends with the pair on
     * the point's route, it keeps every key and node it had, and it holds
     * the pairs it held before plus this one.
     */
    method Push(point: Coords, data: U) returns (r: Result<Id, OutOfRangeError>)
      requires Valid() && 1 <= n
      modifies this
      ensures Valid()
      ensures r.Failure? <==> OutOfRange(center, ranges, point)
      ensures r.Failure? ==> tree == old(tree)
      ensures r.Success? ==> PushSpec(n, threshold, center, ranges, old(tree), (point, data)) == Stored(tree, r.value)
      ensures r.Success? ==> StoredProps(n, threshold, center, ranges, old(tree), (point, data), tree, r.value)
      ensures r.Success? ==> r.value in Leaves() && (point, data) in Leaves()[r.value].points
    {
      if OutOfRange(center, ranges, point) {
        return Failure(OutOfRangeError);
      }
      var t, id := Descend(n, threshold, center, ranges, tree, point, data);
      PushStores(n, threshold, center, ranges, tree, (point, data));
      tree := t;
      return Success(id);
    }
  }
}
