/**
 * The descent `push` makes (src/tree.rs): starting at the root octant of a
 * point, each pass of its loop either stores the pair in the leaf it reached
 * or moves one level down, turning a full leaf into a node on the way.
 */
module Descent {
  import opened Signs
  import opened OctantId
  import opened Octants
  import opened TreeSpec

  /**
   * The loop variables of `push`: the map, the center and ranges of the
   * octant above `id` (the tree's own at the root), the signs that led from
   * there to `id`, `id` itself and its level.
   */
  datatype State<U> = State(tree: map<Id, Octant<U>>, center: Coords, ranges: Coords,
                            signs: SignTriple, id: Id, level: nat)

  /** A pass of the loop either stores the pair and stops, or goes one level deeper. */
  datatype Outcome<U> = Stored(tree: map<Id, Octant<U>>, id: Id) | Deeper(next: State<U>)

  /** The loop variables before the first pass, for the map `m` and the point `point`. */
  function Start<U>(n: nat, m: map<Id, Octant<U>>, rootCenter: Coords, rootRanges: Coords, point: Coords)
    : (st: State<U>)
    requires 1 <= n
    ensures st.tree == m && st.level == 0 && |st.id.bits| == n
  {
    var s := PositionToOctant(rootCenter, point);
    State(m, rootCenter, rootRanges, s, Root(n, s[0], s[1], s[2]), 0)
  }

  /**
   * `entry(id).or_insert_with(..)`: the map with an empty leaf inserted at
   * `id`, with the geometry `signs` give from `center` and `ranges`, when
   * `id` is absent. Entries already present are left as they are.
   */
  function GetOrInsertLeaf<U>(m: map<Id, Octant<U>>, id: Id, center: Coords, ranges: Coords, signs: SignTriple)
    : (m': map<Id, Octant<U>>)
    ensures m'.Keys == m.Keys + {id}
    ensures forall k :: k in m ==> m'[k] == m[k]
    ensures id !in m ==> m'[id] == OctantLeaf(Leaf(RangeAndCenterForOctant(center, ranges, signs).0,
                                                   RangeAndCenterForOctant(center, ranges, signs).1, []))
  {
    if id in m then m
    else
      var g := RangeAndCenterForOctant(center, ranges, signs);
      m[id := OctantLeaf(Leaf(g.0, g.1, []))]
  }

  /** The map once a pass has fetched the octant at `id`, creating it if need be. */
  function FetchedMap<U>(st: State<U>): (m: map<Id, Octant<U>>)
    ensures st.id in m
  {
    GetOrInsertLeaf(st.tree, st.id, st.center, st.ranges, st.signs)
  }

  /**
   * The octant a pass finds at `id`: the one stored there, or an empty leaf
   * with the geometry the signs give from the octant above.
   */
  function Fetched<U>(st: State<U>): (o: Octant<U>)
    ensures st.id in st.tree ==> o == st.tree[st.id]
    ensures st.id !in st.tree ==> o.OctantLeaf? && o.leaf.points == []
  {
    FetchedMap(st)[st.id]
  }

  /** The map a pass leaves when the leaf it finds takes the pair `e`. */
  function Appended<U>(st: State<U>, e: Entry<U>): (m: map<Id, Octant<U>>)
    requires Fetched(st).OctantLeaf?
    ensures m == st.tree[st.id := Fetched(st).WithPoints(Fetched(st).leaf.points + [e])]
  {
    var v := Fetched(st).WithPoints(Fetched(st).leaf.points + [e]);
    WriteAfterFetch(st, v);
    FetchedMap(st)[st.id := v]
  }

  /** The map with the leaf found at `id` replaced by a node of the same geometry. */
  function WithNode<U>(st: State<U>): (m: map<Id, Octant<U>>)
    ensures m == st.tree[st.id := OctantNode(Node(Fetched(st).Center(), Fetched(st).Ranges()))]
  {
    var v := OctantNode(Node(Fetched(st).Center(), Fetched(st).Ranges()));
    WriteAfterFetch(st, v);
    FetchedMap(st)[st.id := v]
  }

  /**
   * The map a pass leaves when it splits the full leaf it finds: a node with
   * the leaf's geometry in its place, and the leaf's pairs handed to its
   * children.
   */
  function SplitMap<U>(n: nat, st: State<U>): (m: map<Id, Octant<U>>)
    requires |st.id.bits| == n && 1 <= n
    requires Fetched(st).OctantLeaf?
    ensures st.tree.Keys + {st.id} <= m.Keys
  {
    var o := Fetched(st);
    Distributed(n, WithNode(st), st.id, o.Center(), o.Ranges(), o.leaf.points)
  }

  /**
   * The loop variables one level below `st`, holding the map `m`: the
   * geometry of the octant `o` found at `id`, and the child of `id` that the
   * center of `o` classifies the point of `e` into.
   */
  function StepDown<U>(n: nat, st: State<U>, m: map<Id, Octant<U>>, o: Octant<U>, e: Entry<U>): (next: State<U>)
    requires |st.id.bits| == n && 1 <= n
    ensures next.tree == m && |next.id.bits| == n && next.level == st.level + 1
  {
    var s := PositionToOctant(o.Center(), e.0);
    State(m, o.Center(), o.Ranges(), s, Child(n, st.id, s[0], s[1], s[2]), st.level + 1)
  }

  /**
   * One pass of the loop of `push` for the pair `e`. The octant at `id` is
   * fetched, or created as an empty leaf with the geometry its signs give.
   * A leaf at the last level or below the threshold takes the pair; a full
   * leaf is replaced by a node with its geometry and its pairs are
   * distributed to its children; a node only lends its geometry. In the last
   * two cases the pass ends one level down, in the child the point falls in.
   */
  function Visit<U>(n: nat, threshold: nat, st: State<U>, e: Entry<U>): (o: Outcome<U>)
    requires |st.id.bits| == n && 1 <= n
    ensures o.Stored? ==> o.id == st.id
    ensures o.Deeper? ==> |o.next.id.bits| == n && o.next.level == st.level + 1
  {
    var octant := Fetched(st);
    match octant.PointsMut()
    case Some(ps) =>
      if st.level == n - 1 || |ps| < threshold then Stored(Appended(st, e), st.id)
      else Deeper(StepDown(n, st, SplitMap(n, st), octant, e))
    case None =>
      Deeper(StepDown(n, st, st.tree, octant, e))
  }

  /**
   * The outcome of at most `k` passes from `st`: the loop of `push` ends at
   * the first pass that stores the pair.
   */
  function Walk<U>(n: nat, threshold: nat, st: State<U>, e: Entry<U>, k: nat): (o: Outcome<U>)
    requires |st.id.bits| == n && 1 <= n
    ensures o.Deeper? ==> |o.next.id.bits| == n && o.next.level == st.level + k
    decreases k, 0
  {
    if k == 0 then Deeper(st) else Continue(n, threshold, Visit(n, threshold, st, e), e, k - 1)
  }

  /** The outcome of a pass that ended with `o`, followed by at most `k` more. */
  function Continue<U>(n: nat, threshold: nat, o: Outcome<U>, e: Entry<U>, k: nat): (r: Outcome<U>)
    requires o.Deeper? ==> |o.next.id.bits| == n && 1 <= n
    ensures r.Deeper? ==> o.Deeper? && |r.next.id.bits| == n && r.next.level == o.next.level + k
    decreases k, 1
  {
    match o
    case Stored(_, _) => o
    case Deeper(next) => Walk(n, threshold, next, e, k)
  }

  /** What `push` does to the map `m` with the pair `e` that passed the bounds check. */
  function PushSpec<U>(n: nat, threshold: nat, rootCenter: Coords, rootRanges: Coords, m: map<Id, Octant<U>>,
                       e: Entry<U>): (r: Outcome<U>)
    requires 1 <= n
    ensures r.Deeper? ==> r.next.level == n
  {
    Continue(n, threshold, Deeper(Start(n, m, rootCenter, rootRanges, e.0)), e, n)
  }

  /** Every node of `start` is still in `m`, unchanged. */
  ghost predicate KeepsNodes<U>(start: map<Id, Octant<U>>, m: map<Id, Octant<U>>)
  {
    forall k :: k in start && start[k].OctantNode? ==> k in m && m[k] == start[k]
  }

  /**
   * What holds before every pass of the loop of `push` for the pair `e`,
   * started from the map `start`: the map keeps the tree invariant; `id` is
   * a well-formed Id at `level`, below the maximum depth, on the route of the
   * point; the center and ranges held are those of the octant above `id`;
   * that octant is a node; no key and no node of `start` is lost; and the
   * pairs stored are those of `start`.
   *
   * Where a precondition or loop invariant reads `DescentInv(..) == true`,
   * the comparison keeps the verifier from splitting the predicate into one
   * proof obligation per conjunct at every call site; the meaning is the same.
   */
  ghost predicate DescentInv<U>(n: nat, threshold: nat, rootCenter: Coords, rootRanges: Coords,
                                start: map<Id, Octant<U>>, e: Entry<U>, st: State<U>)
  {
    && TreeInv(n, threshold, rootCenter, rootRanges, st.tree)
    && WellFormed(n, st.id) && Level(st.id) == st.level && st.level < n
    && Route(rootCenter, rootRanges, e.0, st.level + 1) == Decode(st.id)
    && RangeAndCenterForOctant(st.center, st.ranges, st.signs) == Geometry(rootCenter, rootRanges, Decode(st.id))
    && (1 <= st.level ==> Parent(st.id) in st.tree && st.tree[Parent(st.id)].OctantNode?)
    && start.Keys <= st.tree.Keys
    && KeepsNodes(start, st.tree)
    && Contents(st.tree) == Contents(start)
  }

  /**
   * What holds once `push` has stored `e` at `id`, started from the map
   * `start`: the map keeps the tree invariant; `id` is a leaf whose last pair
   * is `e`, at the end of the point's route; no key and no node of `start`
   * is lost; and the pairs stored are those of `start` plus `e`.
   */
  ghost predicate StoredProps<U>(n: nat, threshold: nat, rootCenter: Coords, rootRanges: Coords,
                                 start: map<Id, Octant<U>>, e: Entry<U>, m: map<Id, Octant<U>>, id: Id)
  {
    && TreeInv(n, threshold, rootCenter, rootRanges, m)
    && id in m && m[id].OctantLeaf?
    && |m[id].leaf.points| >= 1 && m[id].leaf.points[|m[id].leaf.points| - 1] == e
    && WellFormed(n, id)
    && Route(rootCenter, rootRanges, e.0, |Decode(id)|) == Decode(id)
    && start.Keys <= m.Keys
    && KeepsNodes(start, m)
    && Contents(m) == Contents(start) + multiset{e}
  }

  /**
   * Under `DescentInv`, the octant a pass finds has the geometry its path
   * determines; a leaf holds pairs routed to it, within the threshold above
   * the last level; a node is stored and sits above the last level.
   */
  lemma FetchedFacts<U>(n: nat, threshold: nat, rootCenter: Coords, rootRanges: Coords,
                        start: map<Id, Octant<U>>, e: Entry<U>, st: State<U>)
    requires DescentInv(n, threshold, rootCenter, rootRanges, start, e, st)
    ensures var o := Fetched(st);
      && (o.Center(), o.Ranges()) == Geometry(rootCenter, rootRanges, Decode(st.id))
      && (o.OctantLeaf? ==> AllOnRoute(rootCenter, rootRanges, o.leaf.points, Decode(st.id)))
      && (o.OctantLeaf? && st.level < n - 1 ==> |o.leaf.points| <= threshold)
      && (o.OctantNode? ==> st.id in st.tree && st.level < n - 1)
  {
    var m := st.tree;
    if st.id in m {
      assert GeometryFollowsPath(rootCenter, rootRanges, m) && PointsOnRoute(rootCenter, rootRanges, m);
      assert LeavesWithinThreshold(n, threshold, m) && NodesAboveLastLevel(n, m);
    }
  }

  /**
   * The child a pass moves to from `st`, whose octant `o` has the geometry of
   * `st.id`: one level deeper, on the point's route, with the geometry
   * the signs give from `o`.
   */
  lemma ChildStep<U>(n: nat, threshold: nat, rootCenter: Coords, rootRanges: Coords,
                     start: map<Id, Octant<U>>, e: Entry<U>, st: State<U>, o: Octant<U>)
    requires DescentInv(n, threshold, rootCenter, rootRanges, start, e, st)
    requires st.level < n - 1
    requires (o.Center(), o.Ranges()) == Geometry(rootCenter, rootRanges, Decode(st.id))
    ensures var s := PositionToOctant(o.Center(), e.0);
      var child := Child(n, st.id, s[0], s[1], s[2]);
      && WellFormed(n, child) && Level(child) == st.level + 1 && Parent(child) == st.id
      && Route(rootCenter, rootRanges, e.0, st.level + 2) == Decode(child)
      && RangeAndCenterForOctant(o.Center(), o.Ranges(), s) == Geometry(rootCenter, rootRanges, Decode(child))
  {
    ChildOnRoute(n, rootCenter, rootRanges, st.id, e.0);
  }

  /** Writing at a key that holds no node keeps the nodes of `start`. */
  lemma KeepsNodesWrite<U>(start: map<Id, Octant<U>>, m: map<Id, Octant<U>>, k: Id, v: Octant<U>)
    requires KeepsNodes(start, m)
    requires k in m ==> m[k].OctantLeaf?
    ensures KeepsNodes(start, m[k := v])
  {
  }

  /** `StoredProps` from its parts. */
  lemma StoredIntro<U>(n: nat, threshold: nat, rootCenter: Coords, rootRanges: Coords,
                       start: map<Id, Octant<U>>, e: Entry<U>, m: map<Id, Octant<U>>, id: Id)
    requires TreeInv(n, threshold, rootCenter, rootRanges, m)
    requires id in m && m[id].OctantLeaf?
    requires |m[id].leaf.points| >= 1 && m[id].leaf.points[|m[id].leaf.points| - 1] == e
    requires WellFormed(n, id) && Route(rootCenter, rootRanges, e.0, |Decode(id)|) == Decode(id)
    requires start.Keys <= m.Keys && KeepsNodes(start, m)
    requires Contents(m) == Contents(start) + multiset{e}
    ensures StoredProps(n, threshold, rootCenter, rootRanges, start, e, m, id)
  {
  }

  /** Storing the pair keeps the tree invariant. */
  lemma StoreKeepsInv<U>(n: nat, threshold: nat, rootCenter: Coords, rootRanges: Coords,
                         start: map<Id, Octant<U>>, e: Entry<U>, st: State<U>)
    requires DescentInv(n, threshold, rootCenter, rootRanges, start, e, st) == true
    requires Fetched(st).OctantLeaf?
    requires st.level == n - 1 || |Fetched(st).leaf.points| < threshold
    ensures TreeInv(n, threshold, rootCenter, rootRanges, Appended(st, e))
  {
    var m, id, octant := st.tree, st.id, Fetched(st);
    var v := octant.WithPoints(octant.leaf.points + [e]);
    FetchedFacts(n, threshold, rootCenter, rootRanges, start, e, st);
    if id in m {
      AppendKeepsInv(n, threshold, rootCenter, rootRanges, m, id, e);
    } else {
      var g := Geometry(rootCenter, rootRanges, Decode(id));
      var empty := OctantLeaf(Leaf(g.0, g.1, []));
      CreateLeafKeepsInv(n, threshold, rootCenter, rootRanges, m, id);
      AppendKeepsInv(n, threshold, rootCenter, rootRanges, m[id := empty], id, e);
      WriteTwice(m, id, empty, v);
    }
  }

  /** Storing the pair keeps the tree invariant and adds exactly that pair to the contents. */
  lemma StoreKeeps<U>(n: nat, threshold: nat, rootCenter: Coords, rootRanges: Coords,
                      start: map<Id, Octant<U>>, e: Entry<U>, st: State<U>)
    requires DescentInv(n, threshold, rootCenter, rootRanges, start, e, st) == true
    requires Fetched(st).OctantLeaf?
    requires st.level == n - 1 || |Fetched(st).leaf.points| < threshold
    ensures StoredProps(n, threshold, rootCenter, rootRanges, start, e, Appended(st, e), st.id)
  {
    var m, id, octant := st.tree, st.id, Fetched(st);
    var v := octant.WithPoints(octant.leaf.points + [e]);
    StoreKeepsInv(n, threshold, rootCenter, rootRanges, start, e, st);
    ContentsAppend(m, id, v, e);
    KeepsNodesWrite(start, m, id, v);
    StoredIntro(n, threshold, rootCenter, rootRanges, start, e, Appended(st, e), id);
  }

  /**
   * Putting a node in place of the full leaf keeps the tree invariant and
   * leaves the node without children.
   */
  lemma WithNodeKeepsInv<U>(n: nat, threshold: nat, rootCenter: Coords, rootRanges: Coords,
                            start: map<Id, Octant<U>>, e: Entry<U>, st: State<U>)
    requires DescentInv(n, threshold, rootCenter, rootRanges, start, e, st)
    requires Fetched(st).OctantLeaf? && st.level < n - 1
    ensures TreeInv(n, threshold, rootCenter, rootRanges, WithNode(st))
    ensures forall x: Sign, y: Sign, z: Sign :: Child(n, st.id, x, y, z) !in WithNode(st)
  {
    var m, id, octant := st.tree, st.id, Fetched(st);
    var node := OctantNode(Node(octant.Center(), octant.Ranges()));
    FetchedFacts(n, threshold, rootCenter, rootRanges, start, e, st);
    if id in m {
      SplitKeepsInv(n, threshold, rootCenter, rootRanges, m, id);
      NoChildrenAfterSplit(n, threshold, rootCenter, rootRanges, m, id, node);
    } else {
      var empty := OctantLeaf(Leaf(octant.Center(), octant.Ranges(), []));
      CreateLeafKeepsInv(n, threshold, rootCenter, rootRanges, m, id);
      SplitKeepsInv(n, threshold, rootCenter, rootRanges, m[id := empty], id);
      NoChildrenAfterSplit(n, threshold, rootCenter, rootRanges, m[id := empty], id, node);
      WriteTwice(m, id, empty, node);
    }
  }

  /**
   * Splitting the full leaf keeps the tree invariant, keeps every entry of
   * the map with the node in place, and moves the leaf's pairs without
   * losing or adding any.
   */
  lemma SplitMapKeeps<U>(n: nat, threshold: nat, rootCenter: Coords, rootRanges: Coords,
                         start: map<Id, Octant<U>>, e: Entry<U>, st: State<U>)
    requires DescentInv(n, threshold, rootCenter, rootRanges, start, e, st)
    requires Fetched(st).OctantLeaf? && st.level < n - 1
    ensures TreeInv(n, threshold, rootCenter, rootRanges, SplitMap(n, st))
    ensures KeepsEntries(WithNode(st), SplitMap(n, st))
    ensures Contents(SplitMap(n, st)) == Contents(st.tree)
  {
    var octant := Fetched(st);
    FetchedFacts(n, threshold, rootCenter, rootRanges, start, e, st);
    WithNodeKeepsInv(n, threshold, rootCenter, rootRanges, start, e, st);
    SplitResult(n, threshold, rootCenter, rootRanges, WithNode(st), st.id,
                octant.Center(), octant.Ranges(), octant.leaf.points);
    ContentsUpdate(st.tree, st.id, OctantNode(Node(octant.Center(), octant.Ranges())));
  }

  /** Nodes kept through a write of a node at a leaf's key and a map that keeps every entry are kept. */
  lemma KeepsNodesThroughSplit<U>(start: map<Id, Octant<U>>, m: map<Id, Octant<U>>, k: Id, v: Octant<U>,
                                  m': map<Id, Octant<U>>)
    requires KeepsNodes(start, m) && (k in m ==> m[k].OctantLeaf?)
    requires KeepsEntries(m[k := v], m')
    ensures start.Keys <= m.Keys ==> start.Keys <= m'.Keys
    ensures KeepsNodes(start, m')
  {
  }

  /** The map a split leaves keeps the invariant, and the keys, nodes and pairs of `start`. */
  lemma SplitMapAgrees<U>(n: nat, threshold: nat, rootCenter: Coords, rootRanges: Coords,
                          start: map<Id, Octant<U>>, e: Entry<U>, st: State<U>)
    requires DescentInv(n, threshold, rootCenter, rootRanges, start, e, st)
    requires Fetched(st).OctantLeaf? && st.level < n - 1
    ensures TreeInv(n, threshold, rootCenter, rootRanges, SplitMap(n, st))
    ensures start.Keys <= SplitMap(n, st).Keys && KeepsNodes(start, SplitMap(n, st))
    ensures Contents(SplitMap(n, st)) == Contents(start)
    ensures st.id in SplitMap(n, st) && SplitMap(n, st)[st.id].OctantNode?
  {
    var octant := Fetched(st);
    SplitMapKeeps(n, threshold, rootCenter, rootRanges, start, e, st);
    KeepsNodesThroughSplit(start, st.tree, st.id, OctantNode(Node(octant.Center(), octant.Ranges())), SplitMap(n, st));
  }

  /**
   * A pass that finds a full leaf above the last level turns it into a node,
   * distributes its pairs, and moves to the child the point falls in.
   */
  lemma SplitKeeps<U>(n: nat, threshold: nat, rootCenter: Coords, rootRanges: Coords,
                      start: map<Id, Octant<U>>, e: Entry<U>, st: State<U>)
    requires DescentInv(n, threshold, rootCenter, rootRanges, start, e, st) == true
    requires Fetched(st).OctantLeaf? && st.level < n - 1
    ensures DescentInv(n, threshold, rootCenter, rootRanges, start, e, StepDown(n, st, SplitMap(n, st), Fetched(st), e))
  {
    FetchedFacts(n, threshold, rootCenter, rootRanges, start, e, st);
    SplitMapAgrees(n, threshold, rootCenter, rootRanges, start, e, st);
    ChildStep(n, threshold, rootCenter, rootRanges, start, e, st, Fetched(st));
  }

  /** A pass that finds a node moves to the child the point falls in, changing nothing. */
  lemma DescendKeeps<U>(n: nat, threshold: nat, rootCenter: Coords, rootRanges: Coords,
                        start: map<Id, Octant<U>>, e: Entry<U>, st: State<U>)
    requires DescentInv(n, threshold, rootCenter, rootRanges, start, e, st) == true
    requires Fetched(st).OctantNode?
    ensures DescentInv(n, threshold, rootCenter, rootRanges, start, e, StepDown(n, st, st.tree, Fetched(st), e))
  {
    FetchedFacts(n, threshold, rootCenter, rootRanges, start, e, st);
    ChildStep(n, threshold, rootCenter, rootRanges, start, e, st, Fetched(st));
  }

  /** What a pass returns, in each of its three cases. */
  lemma VisitCases<U>(n: nat, threshold: nat, st: State<U>, e: Entry<U>)
    requires |st.id.bits| == n && 1 <= n
    ensures Fetched(st).OctantNode? ==>
      Visit(n, threshold, st, e) == Deeper(StepDown(n, st, st.tree, Fetched(st), e))
    ensures Fetched(st).OctantLeaf? && (st.level == n - 1 || |Fetched(st).leaf.points| < threshold) ==>
      Visit(n, threshold, st, e) == Stored(Appended(st, e), st.id)
    ensures Fetched(st).OctantLeaf? && st.level < n - 1 && |Fetched(st).leaf.points| >= threshold ==>
      Visit(n, threshold, st, e) == Deeper(StepDown(n, st, SplitMap(n, st), Fetched(st), e))
  {
  }

  /** Every pass keeps `DescentInv` or ends with the pair stored as `StoredProps` says. */
  lemma VisitKeeps<U>(n: nat, threshold: nat, rootCenter: Coords, rootRanges: Coords,
                      start: map<Id, Octant<U>>, e: Entry<U>, st: State<U>)
    requires DescentInv(n, threshold, rootCenter, rootRanges, start, e, st)
    ensures Kept(n, threshold, rootCenter, rootRanges, start, e, Visit(n, threshold, st, e))
  {
    var octant := Fetched(st);
    VisitCases(n, threshold, st, e);
    if octant.OctantNode? {
      DescendKeeps(n, threshold, rootCenter, rootRanges, start, e, st);
    } else if st.level == n - 1 || |octant.leaf.points| < threshold {
      StoreKeeps(n, threshold, rootCenter, rootRanges, start, e, st);
    } else {
      SplitKeeps(n, threshold, rootCenter, rootRanges, start, e, st);
    }
  }

  /** Before the first pass, `DescentInv` holds for any map that keeps the tree invariant. */
  lemma StartKeeps<U>(n: nat, threshold: nat, rootCenter: Coords, rootRanges: Coords,
                      start: map<Id, Octant<U>>, e: Entry<U>)
    requires 1 <= n
    requires TreeInv(n, threshold, rootCenter, rootRanges, start)
    ensures Kept(n, threshold, rootCenter, rootRanges, start, e, Deeper(Start(n, start, rootCenter, rootRanges, e.0)))
  {
    RouteIntoRoot(n, rootCenter, rootRanges, e.0);
  }

  /** `DescentInv` before a pass, or `StoredProps` once the pair is stored. */
  ghost predicate Kept<U>(n: nat, threshold: nat, rootCenter: Coords, rootRanges: Coords,
                          start: map<Id, Octant<U>>, e: Entry<U>, o: Outcome<U>)
  {
    match o
    case Stored(m, id) => StoredProps(n, threshold, rootCenter, rootRanges, start, e, m, id)
    case Deeper(st) => DescentInv(n, threshold, rootCenter, rootRanges, start, e, st)
  }

  /** Any number of passes from a state where `DescentInv` holds keep `Kept`. */
  lemma {:induction false} WalkKeeps<U>(n: nat, threshold: nat, rootCenter: Coords, rootRanges: Coords,
                                        start: map<Id, Octant<U>>, e: Entry<U>, st: State<U>, k: nat)
    requires |st.id.bits| == n && 1 <= n
    requires DescentInv(n, threshold, rootCenter, rootRanges, start, e, st)
    ensures Kept(n, threshold, rootCenter, rootRanges, start, e, Walk(n, threshold, st, e, k))
    decreases k, 0
  {
    if k > 0 {
      VisitKeeps(n, threshold, rootCenter, rootRanges, start, e, st);
      ContinueKeeps(n, threshold, rootCenter, rootRanges, start, e, Visit(n, threshold, st, e), k - 1);
    }
  }

  /** Further passes after an outcome that satisfies `Kept` keep it. */
  lemma {:induction false} ContinueKeeps<U>(n: nat, threshold: nat, rootCenter: Coords, rootRanges: Coords,
                                            start: map<Id, Octant<U>>, e: Entry<U>, o: Outcome<U>, k: nat)
    requires o.Deeper? ==> |o.next.id.bits| == n && 1 <= n
    requires Kept(n, threshold, rootCenter, rootRanges, start, e, o)
    ensures Kept(n, threshold, rootCenter, rootRanges, start, e, Continue(n, threshold, o, e, k))
    decreases k, 1
  {
    if o.Deeper? {
      WalkKeeps(n, threshold, rootCenter, rootRanges, start, e, o.next, k);
    }
  }

  /**
   * `push` always stores a pair that passed the bounds check: within `n`
   * passes the descent reaches a leaf that takes it, since no node sits at
   * the last level; and the map it leaves satisfies `StoredProps`.
   */
  lemma PushStores<U>(n: nat, threshold: nat, rootCenter: Coords, rootRanges: Coords,
                      start: map<Id, Octant<U>>, e: Entry<U>)
    requires 1 <= n
    requires TreeInv(n, threshold, rootCenter, rootRanges, start)
    ensures var o := PushSpec(n, threshold, rootCenter, rootRanges, start, e);
      o.Stored? && StoredProps(n, threshold, rootCenter, rootRanges, start, e, o.tree, o.id)
  {
    var init := Start(n, start, rootCenter, rootRanges, e.0);
    StartKeeps(n, threshold, rootCenter, rootRanges, start, e);
    ContinueKeeps(n, threshold, rootCenter, rootRanges, start, e, Deeper(init), n);
  }

  /**
   * The passes left from `st` down to the last level end in `spec`: the
   * loop of `push` keeps this with `spec` the outcome `PushSpec` describes.
   */
  ghost predicate Heading<U>(n: nat, threshold: nat, st: State<U>, e: Entry<U>, spec: Outcome<U>)
  {
    && |st.id.bits| == n && 1 <= n && st.level <= n
    && Continue(n, threshold, Deeper(st), e, n - st.level) == spec
  }

  /** Passes after one that moves down to `next` are the passes from `next`. */
  lemma WalkDeeper<U>(n: nat, threshold: nat, st: State<U>, e: Entry<U>, next: State<U>, k: nat)
    requires |st.id.bits| == n && 1 <= n && 0 < k
    requires Visit(n, threshold, st, e) == Deeper(next)
    ensures Walk(n, threshold, st, e, k) == Walk(n, threshold, next, e, k - 1)
  {
  }

  /** Passes after one that stores the pair change nothing. */
  lemma WalkStored<U>(n: nat, threshold: nat, st: State<U>, e: Entry<U>, m: map<Id, Octant<U>>, id: Id, k: nat)
    requires |st.id.bits| == n && 1 <= n && 0 < k
    requires Visit(n, threshold, st, e) == Stored(m, id)
    ensures Walk(n, threshold, st, e, k) == Stored(m, id)
  {
  }

  /** Passes from a node go on from the child the pair falls in. */
  lemma WalkThroughNode<U>(n: nat, threshold: nat, st: State<U>, e: Entry<U>, next: State<U>, spec: Outcome<U>)
    requires |st.id.bits| == n && 1 <= n && st.level < n
    requires Heading(n, threshold, st, e, spec)
    requires Fetched(st).OctantNode?
    requires next == StepDown(n, st, st.tree, Fetched(st), e)
    ensures Heading(n, threshold, next, e, spec)
  {
    VisitCases(n, threshold, st, e);
    WalkDeeper(n, threshold, st, e, next, n - st.level);
  }

  /** Passes from a full leaf above the last level go on, after the split, from the child the pair falls in. */
  lemma WalkThroughSplit<U>(n: nat, threshold: nat, st: State<U>, e: Entry<U>, next: State<U>, spec: Outcome<U>)
    requires |st.id.bits| == n && 1 <= n && st.level < n - 1
    requires Heading(n, threshold, st, e, spec)
    requires Fetched(st).OctantLeaf? && |Fetched(st).leaf.points| >= threshold
    requires next == StepDown(n, st, SplitMap(n, st), Fetched(st), e)
    ensures Heading(n, threshold, next, e, spec)
  {
    VisitCases(n, threshold, st, e);
    WalkDeeper(n, threshold, st, e, next, n - st.level);
  }

  /** The passes from a leaf that takes the pair end with the pair appended to it. */
  lemma WalkStoresLeaf<U>(n: nat, threshold: nat, st: State<U>, e: Entry<U>, spec: Outcome<U>)
    requires |st.id.bits| == n && 1 <= n && st.level < n
    requires Heading(n, threshold, st, e, spec)
    requires Fetched(st).OctantLeaf?
    requires st.level == n - 1 || |Fetched(st).leaf.points| < threshold
    ensures spec == Stored(Appended(st, e), st.id)
  {
    VisitCases(n, threshold, st, e);
    WalkStored(n, threshold, st, e, Appended(st, e), st.id, n - st.level);
  }

  /** Writing at the fetched Id overrides the leaf a fetch may have inserted there. */
  lemma WriteAfterFetch<U>(st: State<U>, v: Octant<U>)
    ensures FetchedMap(st)[st.id := v] == st.tree[st.id := v]
  {
    if st.id !in st.tree {
      WriteTwice(st.tree, st.id, Fetched(st), v);
    }
  }

  /** Before a split, no child of the leaf's Id is in the map with the node in its place. */
  lemma SplitReady<U>(n: nat, threshold: nat, rootCenter: Coords, rootRanges: Coords,
                      start: map<Id, Octant<U>>, e: Entry<U>, st: State<U>)
    requires |st.id.bits| == n && 1 <= n
    requires DescentInv(n, threshold, rootCenter, rootRanges, start, e, st) == true
    requires Fetched(st).OctantLeaf? && st.level < n - 1
    ensures ChildrenAreLeaves(n, WithNode(st), st.id)
  {
    WithNodeKeepsInv(n, threshold, rootCenter, rootRanges, start, e, st);
  }
}
