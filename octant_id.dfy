/**
 * Path-code identities of octants (src/octant_id.rs).
 *
 * An `Id` names a position in the tree by the signs chosen at each level from
 * the root down, one byte per level. An active byte carries the level-active
 * flag and three sign bits; a zero byte marks an unused level. The maximum
 * depth `N` of the Rust type is the parameter `n` here, and every Id of the
 * tree has exactly `n` bytes.
 */
module OctantId {
  import opened Wrappers
  import opened Signs

  const LEVEL_ACTIVE_MASK: bv8 := 0x08
  const X_MASK: bv8 := 0x04
  const Y_MASK: bv8 := 0x02
  const Z_MASK: bv8 := 0x01

  /** An octant's path code. Equality is bytewise over the whole sequence. */
  datatype Id = Id(bits: seq<bv8>)

  /** The three sign bits of one level: bit 2, 1, 0 set for a negative x, y, z. */
  function SignsToBits(x: Sign, y: Sign, z: Sign): (b: bv8)
    ensures b < 8
    ensures b & X_MASK != 0 <==> x == Negative
    ensures b & Y_MASK != 0 <==> y == Negative
    ensures b & Z_MASK != 0 <==> z == Negative
  {
    var b0: bv8 := 0;
    var b1 := if x == Negative then b0 | X_MASK else b0;
    var b2 := if y == Negative then b1 | Y_MASK else b1;
    if z == Negative then b2 | Z_MASK else b2
  }

  /** The sign bits agree with the numbering table: 4x + 2y + z, each sign as its byte. */
  lemma SignsToBitsMatchesTable(x: Sign, y: Sign, z: Sign)
    ensures SignsToBits(x, y, z) as int
         == 4 * SignToByte(x) as int + 2 * SignToByte(y) as int + SignToByte(z) as int
  {
  }

  /** Reading the signs of one level back by masking its byte. */
  function BitsToSigns(b: bv8): SignTriple
  {
    [ if b & X_MASK != 0 then Negative else Positive,
      if b & Y_MASK != 0 then Negative else Positive,
      if b & Z_MASK != 0 then Negative else Positive ]
  }

  /** The byte an active level holds: its sign bits with the level-active flag. */
  function ActiveByte(x: Sign, y: Sign, z: Sign): (b: bv8)
    ensures b != 0 && b & LEVEL_ACTIVE_MASK != 0 && b & 0xF8 == LEVEL_ACTIVE_MASK
    ensures BitsToSigns(b) == [x, y, z]
  {
    SignsToBits(x, y, z) | LEVEL_ACTIVE_MASK
  }

  /** Distinct sign triples give distinct bytes. */
  lemma ActiveByteInjective(x: Sign, y: Sign, z: Sign, x': Sign, y': Sign, z': Sign)
    requires ActiveByte(x, y, z) == ActiveByte(x', y', z')
    ensures x == x' && y == y' && z == z'
  {
    assert BitsToSigns(ActiveByte(x, y, z)) == BitsToSigns(ActiveByte(x', y', z'));
  }

  /** `i` is the index of the first zero byte of `bits`. */
  ghost predicate IsFirstZero(bits: seq<bv8>, i: int)
  {
    0 <= i < |bits| && bits[i] == 0 && forall j :: 0 <= j < i ==> bits[j] != 0
  }

  /** No byte is zero: every level is in use. */
  predicate Full(bits: seq<bv8>)
  {
    forall i :: 0 <= i < |bits| ==> bits[i] != 0
  }

  /** `find_first_zero`: the position of the first zero byte, if any. */
  function FindFirstZero(bits: seq<bv8>): (r: Option<nat>)
    ensures r.Some? ==> IsFirstZero(bits, r.value)
    ensures forall i :: IsFirstZero(bits, i) ==> r == Some(i)
    ensures r.None? <==> Full(bits)
  {
    FirstZeroFrom(bits, 0)
  }

  /** The scan of `position`, from index `i` on. */
  function FirstZeroFrom(bits: seq<bv8>, i: nat): (r: Option<nat>)
    requires i <= |bits|
    ensures r.Some? ==> i <= r.value < |bits| && bits[r.value] == 0
    ensures r.Some? ==> forall j :: i <= j < r.value ==> bits[j] != 0
    ensures r.None? <==> forall j :: i <= j < |bits| ==> bits[j] != 0
    decreases |bits| - i
  {
    if i == |bits| then None
    else if bits[i] == 0 then Some(i)
    else FirstZeroFrom(bits, i + 1)
  }

  /** The number of leading nonzero bytes: the number of levels in use. */
  function ActiveLength(bits: seq<bv8>): (k: nat)
    ensures k <= |bits|
    ensures forall i :: 0 <= i < k ==> bits[i] != 0
    ensures k < |bits| ==> bits[k] == 0
  {
    FindFirstZero(bits).GetOr(|bits|)
  }

  /** The depth of an Id: the index of its deepest active level (-1 for no level). */
  function Level(id: Id): int
  {
    ActiveLength(id.bits) - 1
  }

  /** The sign triples of the active levels, in order from the root. */
  function Decode(id: Id): (path: seq<SignTriple>)
    ensures |path| == ActiveLength(id.bits)
  {
    var k := ActiveLength(id.bits);
    seq(k, i requires 0 <= i < k => BitsToSigns(id.bits[i]))
  }

  /**
   * An Id the tree can produce: `n` bytes, a prefix of active bytes (the
   * level bit set, no bit above it) starting at byte 0, and zeros after it.
   */
  ghost predicate WellFormed(n: nat, id: Id)
  {
    && |id.bits| == n
    && 1 <= n
    && id.bits[0] != 0
    && forall i :: ActiveLength(id.bits) <= i < n ==> id.bits[i] == 0
  }

  /** The Id one level up: the deepest active byte cleared. */
  function Parent(id: Id): Id
    requires 1 <= ActiveLength(id.bits)
  {
    Id(id.bits[ActiveLength(id.bits) - 1 := 0])
  }

  /** `Id::uninitialized`: every byte zero. */
  function Uninitialized(n: nat): (id: Id)
    ensures |id.bits| == n
    ensures IsUninitialized(id)
  {
    Id(seq(n, _ => 0))
  }

  /** `is_uninitialized`: all bytes are zero. */
  predicate IsUninitialized(id: Id)
    ensures IsUninitialized(id) ==> Level(id) == -1 && Decode(id) == []
  {
    AllZero(id.bits)
  }

  /** `bits.iter().all(|&b| b == 0)`. */
  predicate AllZero(bits: seq<bv8>)
  {
    forall i :: 0 <= i < |bits| ==> bits[i] == 0
  }

  /** `From<[u8; N]>`: the given bytes, wrapped verbatim. */
  function FromBits(bits: seq<bv8>): (id: Id)
    ensures id.bits == bits
    ensures IsUninitialized(id) <==> forall i :: 0 <= i < |bits| ==> bits[i] == 0
  {
    Id(bits)
  }

  /** Two Ids are equal exactly when their bytes agree at every position. */
  lemma EqualityIsBytewise(a: Id, b: Id)
    requires |a.bits| == |b.bits|
    ensures a == b <==> forall i :: 0 <= i < |a.bits| ==> a.bits[i] == b.bits[i]
  {
    if forall i :: 0 <= i < |a.bits| ==> a.bits[i] == b.bits[i] {
      assert a.bits == b.bits;
    }
  }

  /** `Id::root`: the depth-0 Id of one of the eight octants of the tree's volume. */
  function Root(n: nat, x: Sign, y: Sign, z: Sign): (id: Id)
    requires 1 <= n
    ensures |id.bits| == n
    ensures id.bits[0] == ActiveByte(x, y, z)
    ensures forall i :: 1 <= i < n ==> id.bits[i] == 0
    ensures WellFormed(n, id) && Level(id) == 0
    ensures Decode(id) == [[x, y, z]]
    ensures !IsUninitialized(id)
  {
    var bits := seq(n, _ => 0 as bv8);
    var id := Id(bits[0 := SignsToBits(x, y, z) | LEVEL_ACTIVE_MASK]);
    assert n == 1 ==> Full(id.bits);
    assert 1 < n ==> IsFirstZero(id.bits, 1);
    id
  }

  /**
   * `Id::child`: the parent's bytes with one more level written. The level
   * written is the parent's first zero byte, or the last byte when the parent
   * has none (the clamp at maximum depth).
   */
  function Child(n: nat, parent: Id, x: Sign, y: Sign, z: Sign): (id: Id)
    requires |parent.bits| == n && 1 <= n
    ensures |id.bits| == n
    ensures forall d :: IsFirstZero(parent.bits, d) ==> id.bits == parent.bits[d := ActiveByte(x, y, z)]
    ensures Full(parent.bits) ==> id.bits == parent.bits[n - 1 := ActiveByte(x, y, z)]
    ensures !IsUninitialized(id)
  {
    var bits := parent.bits;
    var currentDepth := FindFirstZero(bits).GetOr(n - 1);
    var id := Id(bits[currentDepth := SignsToBits(x, y, z) | LEVEL_ACTIVE_MASK]);
    assert id.bits[currentDepth] != 0;
    id
  }

  /** Every active byte has the level bit set and no bit above it. */
  ghost predicate ActiveBytesTagged(id: Id)
  {
    forall i :: 0 <= i < ActiveLength(id.bits) ==> id.bits[i] & 0xF8 == LEVEL_ACTIVE_MASK
  }

  /** A root Id has its one active byte in the level-bit form. */
  lemma RootIsTagged(n: nat, x: Sign, y: Sign, z: Sign)
    requires 1 <= n
    ensures ActiveBytesTagged(Root(n, x, y, z))
  {
  }

  /**
   * A child of a well-formed Id whose active bytes are in the level-bit form
   * has its active bytes in that form too, at the maximum depth included.
   */
  lemma ChildKeepsTagged(n: nat, parent: Id, x: Sign, y: Sign, z: Sign)
    requires WellFormed(n, parent) && ActiveBytesTagged(parent)
    ensures ActiveBytesTagged(Child(n, parent, x, y, z))
  {
    var a := ActiveLength(parent.bits);
    var c := Child(n, parent, x, y, z);
    if a < n {
      assert IsFirstZero(parent.bits, a);
      assert c.bits == parent.bits[a := ActiveByte(x, y, z)];
      if a + 1 < n {
        assert IsFirstZero(c.bits, a + 1);
      } else {
        assert Full(c.bits);
      }
      assert ActiveLength(c.bits) == a + 1;
    } else {
      assert Full(parent.bits);
      assert Full(c.bits);
    }
  }

  /**
   * Below the maximum depth, a child extends its parent's path by exactly one
   * level: its decoded signs are the parent's followed by the new triple, and
   * clearing that level gives the parent back.
   */
  lemma ChildExtendsPath(n: nat, parent: Id, x: Sign, y: Sign, z: Sign)
    requires WellFormed(n, parent) && Level(parent) < n - 1
    ensures var c := Child(n, parent, x, y, z);
      && WellFormed(n, c)
      && Level(c) == Level(parent) + 1
      && Decode(c) == Decode(parent) + [[x, y, z]]
      && Parent(c) == parent
  {
    var a := ActiveLength(parent.bits);
    assert IsFirstZero(parent.bits, a);
    var c := Child(n, parent, x, y, z);
    assert c.bits == parent.bits[a := ActiveByte(x, y, z)];
    if a + 1 < n {
      assert IsFirstZero(c.bits, a + 1);
    } else {
      assert Full(c.bits);
    }
    assert ActiveLength(c.bits) == a + 1;
    assert Decode(c) == Decode(parent) + [[x, y, z]];
    assert c.bits[a := 0] == parent.bits;
  }

  /** Two children of one parent with different sign triples are different Ids. */
  lemma ChildInjective(n: nat, parent: Id, x: Sign, y: Sign, z: Sign, x': Sign, y': Sign, z': Sign)
    requires |parent.bits| == n && 1 <= n
    requires Child(n, parent, x, y, z) == Child(n, parent, x', y', z')
    ensures x == x' && y == y' && z == z'
  {
    var d := FindFirstZero(parent.bits).GetOr(n - 1);
    assert Child(n, parent, x, y, z).bits[d] == Child(n, parent, x', y', z').bits[d];
    ActiveByteInjective(x, y, z, x', y', z');
  }

  /** The Id reached from `Root` by one `Child` call per further triple of `path`. */
  function Build(n: nat, path: seq<SignTriple>): (id: Id)
    requires 1 <= n && 1 <= |path|
    ensures |id.bits| == n
    decreases |path|
  {
    if |path| == 1 then
      Root(n, path[0][0], path[0][1], path[0][2])
    else
      var last := path[|path| - 1];
      Child(n, Build(n, path[..|path| - 1]), last[0], last[1], last[2])
  }

  /**
   * Building an Id from at most `n` sign triples activates exactly the first
   * `|path|` bytes, each holding the active byte of its triple.
   */
  lemma {:induction false} BuildLayout(n: nat, path: seq<SignTriple>)
    requires 1 <= |path| <= n
    ensures var id := Build(n, path);
      && (forall i :: 0 <= i < |path| ==> id.bits[i] == ActiveByte(path[i][0], path[i][1], path[i][2]))
      && (forall i :: |path| <= i < n ==> id.bits[i] == 0)
  {
    if 1 < |path| {
      var init, last := path[..|path| - 1], path[|path| - 1];
      BuildLayout(n, init);
      var p := Build(n, init);
      assert IsFirstZero(p.bits, |init|);
      var c := Build(n, path);
      assert c.bits == p.bits[|init| := ActiveByte(last[0], last[1], last[2])];
      forall i | 0 <= i < |init|
        ensures c.bits[i] == ActiveByte(path[i][0], path[i][1], path[i][2])
      {
        assert path[i] == init[i];
      }
    }
  }

  /**
   * Round trip: an Id built from at most `n` sign triples is well formed, its
   * depth is one less than the number of triples, and decoding it gives the
   * triples back in order.
   */
  lemma BuildRoundTrip(n: nat, path: seq<SignTriple>)
    requires 1 <= |path| <= n
    ensures var id := Build(n, path);
      && WellFormed(n, id)
      && Level(id) == |path| - 1
      && Decode(id) == path
  {
    BuildLayout(n, path);
    var id := Build(n, path);
    if |path| < n {
      assert IsFirstZero(id.bits, |path|);
    } else {
      assert Full(id.bits);
    }
    assert ActiveLength(id.bits) == |path|;
    forall i | 0 <= i < |path|
      ensures Decode(id)[i] == path[i]
    {
      assert [path[i][0], path[i][1], path[i][2]] == path[i];
    }
  }

  /** Different paths of at most `n` levels build different Ids. */
  lemma BuildInjective(n: nat, p: seq<SignTriple>, q: seq<SignTriple>)
    requires 1 <= |p| <= n && 1 <= |q| <= n
    requires Build(n, p) == Build(n, q)
    ensures p == q
  {
    BuildRoundTrip(n, p);
    BuildRoundTrip(n, q);
  }
}
