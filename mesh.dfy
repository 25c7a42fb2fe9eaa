/** Boundary nodes of an Ohmic contact between a semiconductor region and a
    metal (resistance) region, and the layout of their degrees of freedom.

    A semiconductor node owns four consecutive rows (potential, electron
    density, hole density, lattice temperature at +0..+3), a metal node and
    an insulator node own two (potential, temperature at +0, +1). */
module Mesh {

  /** The kind of region a region node at a boundary location belongs to. */
  datatype RegionKind = Semiconductor | Metal | Insulator

  /** A region node attached to a boundary location: its region's kind and its
      global degree-of-freedom offset. */
  datatype RegionNode = RegionNode(kind: RegionKind, offset: int)

  /** A boundary node of the contact, as far as the bookkeeping needs it. */
  datatype BoundaryNode = BoundaryNode(
    owner: nat,                // the processor that owns the node
    semi: int,                 // global offset of the semiconductor-side node
    metal: int,                // global offset of the metal-side node
    regions: seq<RegionNode>,  // every region node at this location
    neighbours: seq<int>)      // global offsets of the semiconductor node's mesh neighbours

  /** The offsets of the insulator region nodes among `rs`, in order; every
      other region node is skipped. */
  function Insulators(rs: seq<RegionNode>): (ins: seq<int>)
    ensures |ins| <= |rs|
  {
    if |rs| == 0 then []
    else
      var last := rs[|rs| - 1];
      Insulators(rs[..|rs| - 1]) + (if last.kind == Insulator then [last.offset] else [])
  }

  /** An offset is listed exactly when some region node at the location is an
      insulator node with that offset. */
  lemma {:induction false} InsulatorsAreInsulatorNodes(rs: seq<RegionNode>, o: int)
    ensures o in Insulators(rs) <==> exists k :: 0 <= k < |rs| && rs[k] == RegionNode(Insulator, o)
  {
    if |rs| > 0 {
      var init := rs[..|rs| - 1];
      InsulatorsAreInsulatorNodes(init, o);
      assert forall k :: 0 <= k < |init| ==> init[k] == rs[k];
    }
  }

  /** The rows of the insulator nodes among `rs`: potential then temperature
      row of each insulator node, in order. */
  function InsulatorRows(rs: seq<RegionNode>): (rows: seq<int>)
  {
    if |rs| == 0 then []
    else
      var last := rs[|rs| - 1];
      InsulatorRows(rs[..|rs| - 1]) + (if last.kind == Insulator then [last.offset, last.offset + 1] else [])
  }

  /** The insulator rows come in pairs: the j-th pair is the potential and
      the temperature row of the j-th insulator node. */
  lemma {:induction false} InsulatorRowsInPairs(rs: seq<RegionNode>)
    ensures |InsulatorRows(rs)| == 2 * |Insulators(rs)|
    ensures forall j :: 0 <= j < |Insulators(rs)| ==>
              InsulatorRows(rs)[2 * j] == Insulators(rs)[j] && InsulatorRows(rs)[2 * j + 1] == Insulators(rs)[j] + 1
  {
    if |rs| > 0 {
      InsulatorRowsInPairs(rs[..|rs| - 1]);
    }
  }

  /** A row is an insulator row exactly when it is the potential or the
      temperature row of one of the insulator nodes. */
  lemma InsulatorRowsExactly(rs: seq<RegionNode>, r: int)
    ensures r in InsulatorRows(rs) <==> r in Insulators(rs) || r - 1 in Insulators(rs)
  {
    var ins, rows := Insulators(rs), InsulatorRows(rs);
    InsulatorRowsInPairs(rs);
    if r in rows {
      var i :| 0 <= i < |rows| && rows[i] == r;
      if i % 2 == 0 {
        assert rows[2 * (i / 2)] == ins[i / 2];
      } else {
        assert rows[2 * (i / 2) + 1] == ins[i / 2] + 1;
      }
    }
    if r in ins {
      var j :| 0 <= j < |ins| && ins[j] == r;
      assert rows[2 * j] == r;
    }
    if r - 1 in ins {
      var j :| 0 <= j < |ins| && ins[j] == r - 1;
      assert rows[2 * j + 1] == r;
    }
  }

  /** The boundary nodes that processor `rank` owns, in node order. */
  function Owned(nodes: seq<BoundaryNode>, rank: nat): (owned: seq<BoundaryNode>)
    ensures |owned| <= |nodes|
  {
    if |nodes| == 0 then []
    else
      var last := nodes[|nodes| - 1];
      Owned(nodes[..|nodes| - 1], rank) + (if last.owner == rank then [last] else [])
  }

  /** A node is owned exactly when it is a boundary node of processor `rank`. */
  lemma {:induction false} OwnedMembers(nodes: seq<BoundaryNode>, rank: nat, n: BoundaryNode)
    ensures n in Owned(nodes, rank) <==> n in nodes && n.owner == rank
  {
    if |nodes| > 0 {
      var init := nodes[..|nodes| - 1];
      OwnedMembers(init, rank, n);
      assert n in nodes <==> n in init || n == nodes[|nodes| - 1];
    }
  }

  /** One value per owned node, in node order: `g` applied to the k-th owned node. */
  function OwnedMap<T>(nodes: seq<BoundaryNode>, rank: nat, g: BoundaryNode -> T): (vs: seq<T>)
    ensures |vs| == |Owned(nodes, rank)|
  {
    if |nodes| == 0 then []
    else
      var last := nodes[|nodes| - 1];
      OwnedMap(nodes[..|nodes| - 1], rank, g) + (if last.owner == rank then [g(last)] else [])
  }

  /** The k-th value belongs to the k-th owned node. */
  lemma {:induction false} OwnedMapAt<T>(nodes: seq<BoundaryNode>, rank: nat, g: BoundaryNode -> T, k: nat)
    requires k < |Owned(nodes, rank)|
    ensures OwnedMap(nodes, rank, g)[k] == g(Owned(nodes, rank)[k])
  {
    var init := nodes[..|nodes| - 1];
    if k < |Owned(init, rank)| {
      OwnedMapAt(init, rank, g, k);
    }
  }

  /** Extending the node list by one node extends the owned values by that
      node's value when it is owned, and by nothing otherwise. */
  lemma OwnedMapOfNextNode<T>(nodes: seq<BoundaryNode>, rank: nat, g: BoundaryNode -> T, k: nat)
    requires k < |nodes|
    ensures nodes[k].owner == rank ==> OwnedMap(nodes[..k + 1], rank, g) == OwnedMap(nodes[..k], rank, g) + [g(nodes[k])]
    ensures nodes[k].owner != rank ==> OwnedMap(nodes[..k + 1], rank, g) == OwnedMap(nodes[..k], rank, g)
  {
    assert nodes[..k + 1][..k] == nodes[..k];
  }

  /** The owned nodes of a prefix of the node list are a prefix of the owned nodes. */
  lemma {:induction false} OwnedOfPrefix(nodes: seq<BoundaryNode>, rank: nat, k: nat)
    requires k <= |nodes|
    ensures Owned(nodes[..k], rank) <= Owned(nodes, rank)
    decreases |nodes|
  {
    if k < |nodes| {
      var init := nodes[..|nodes| - 1];
      assert init[..k] == nodes[..k];
      OwnedOfPrefix(init, rank, k);
    } else {
      assert nodes[..k] == nodes;
    }
  }

  /** A prefix of the node list owns no more nodes than the whole list. */
  lemma OwnedPrefixCount(nodes: seq<BoundaryNode>, rank: nat, k: nat)
    requires k <= |nodes|
    ensures |Owned(nodes[..k], rank)| <= |Owned(nodes, rank)|
  {
    OwnedOfPrefix(nodes, rank, k);
  }

  /** The half-open blocks [a, a + la) and [b, b + lb) do not overlap. */
  predicate Apart(a: int, la: nat, b: int, lb: nat) {
    a + la <= b || b + lb <= a
  }

  /** Every degree of freedom belongs to one node: the semiconductor blocks of
      distinct boundary nodes are apart, so are their metal blocks, and no
      semiconductor, metal or insulator block overlaps another kind's. */
  ghost predicate Layout(nodes: seq<BoundaryNode>) {
    && (forall a, b :: 0 <= a < |nodes| && 0 <= b < |nodes| && a != b ==>
          Apart(nodes[a].semi, 4, nodes[b].semi, 4) && Apart(nodes[a].metal, 2, nodes[b].metal, 2))
    && (forall a, b :: 0 <= a < |nodes| && 0 <= b < |nodes| ==>
          Apart(nodes[a].semi, 4, nodes[b].metal, 2))
    && (forall a, b, o :: 0 <= a < |nodes| && 0 <= b < |nodes| && o in Insulators(nodes[b].regions) ==>
          Apart(nodes[a].semi, 4, o, 2) && Apart(nodes[a].metal, 2, o, 2))
  }
}
