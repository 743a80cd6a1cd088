/**
 * The state held at one tree position (src/octant.rs): a `Node`, which has
 * been split and keeps only its geometry, or a `Leaf`, which also keeps the
 * `(point, data)` pairs that landed in it, in arrival order.
 */
module Octants {
  import opened Wrappers

  /** Three coordinates, x then y then z: Rust's `[T; 3]` over integers. */
  type Coords = s: seq<int> | |s| == 3 witness [0, 0, 0]

  /** One stored pair: a point and the caller's data attached to it. */
  type Entry<U> = (Coords, U)

  datatype Node = Node(center: Coords, ranges: Coords)

  datatype Leaf<U> = Leaf(center: Coords, ranges: Coords, points: seq<Entry<U>>)

  datatype Octant<U> = OctantNode(node: Node) | OctantLeaf(leaf: Leaf<U>)
  {
    /** `center()`: the center of whichever variant this is. */
    function Center(): (c: Coords)
      ensures OctantNode? ==> c == node.center
      ensures OctantLeaf? ==> c == leaf.center
    {
      match this
      case OctantNode(n) => n.center
      case OctantLeaf(l) => l.center
    }

    /** `ranges()`: the ranges of whichever variant this is. */
    function Ranges(): (r: Coords)
      ensures OctantNode? ==> r == node.ranges
      ensures OctantLeaf? ==> r == leaf.ranges
    {
      match this
      case OctantNode(n) => n.ranges
      case OctantLeaf(l) => l.ranges
    }

    /** `points_mut()`: a leaf's own pairs; nothing for a node. */
    function PointsMut(): (r: Option<seq<Entry<U>>>)
      ensures r.None? <==> OctantNode?
      ensures OctantLeaf? ==> r == Some(leaf.points)
    {
      match this
      case OctantNode(_) => None
      case OctantLeaf(l) => Some(l.points)
    }

    /**
     * The octant after its caller has replaced, through the handle that
     * `points_mut()` hands out, the pairs with `ps`.
     */
    function WithPoints(ps: seq<Entry<U>>): (o: Octant<U>)
      requires OctantLeaf?
      ensures o.OctantLeaf?
      ensures o.Center() == Center() && o.Ranges() == Ranges()
      ensures o.PointsMut() == Some(ps)
    {
      OctantLeaf(leaf.(points := ps))
    }

    /** The pairs the octant stores, counted with repetition: none for a node. */
    ghost function Pairs(): (s: multiset<Entry<U>>)
      ensures OctantLeaf? ==> s == multiset(leaf.points)
      ensures OctantNode? ==> s == multiset{}
    {
      match PointsMut()
      case Some(ps) => multiset(ps)
      case None => multiset{}
    }
  }

  /**
   * Writing back through `points_mut()` what it handed out changes nothing,
   * and what is written is what is read back next: the handle is the leaf's
   * own sequence and nothing else.
   */
  lemma PointsHandleRoundTrip<U>(o: Octant<U>, ps: seq<Entry<U>>, qs: seq<Entry<U>>)
    requires o.OctantLeaf?
    ensures o.WithPoints(o.PointsMut().value) == o
    ensures o.WithPoints(ps).WithPoints(qs) == o.WithPoints(qs)
  {
  }
}
