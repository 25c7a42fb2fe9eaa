/** Row elimination requested by the preprocessing passes of the Ohmic
    contact: the rows the caller must zero (`clear_row`) and the rows whose
    content the caller must move onto another row (`src_row` -> `dst_row`).
    Both preprocessing passes (residual and Jacobian) ask for the same rows. */
module Elimination {
  import opened Mesh

  /** Rows one owned node asks to clear, in push order: the semiconductor
      potential row (and, with infinite recombination, the carrier rows), the
      semiconductor temperature row, then both rows of every insulator node. */
  function NodeClearRows(n: BoundaryNode, infinite: bool): (rows: seq<int>) {
    (if infinite then [n.semi, n.semi + 1, n.semi + 2] else [n.semi]) + [n.semi + 3] + InsulatorRows(n.regions)
  }

  /** Temperature rows of the insulator nodes among `rs`, in order. */
  function InsulatorTemperatureRows(rs: seq<RegionNode>): (rows: seq<int>)
    ensures |rows| == |Insulators(rs)|
  {
    if |rs| == 0 then []
    else
      var last := rs[|rs| - 1];
      InsulatorTemperatureRows(rs[..|rs| - 1]) + (if last.kind == Insulator then [last.offset + 1] else [])
  }

  /** One copy of `row` per insulator node among `rs`. */
  function PerInsulator(rs: seq<RegionNode>, row: int): (rows: seq<int>)
    ensures |rows| == |Insulators(rs)|
  {
    if |rs| == 0 then []
    else
      var last := rs[|rs| - 1];
      PerInsulator(rs[..|rs| - 1], row) + (if last.kind == Insulator then [row] else [])
  }

  /** Rows one owned node moves away: its semiconductor temperature row, then
      every insulator temperature row. */
  function NodeSrcRows(n: BoundaryNode): (rows: seq<int>) {
    [n.semi + 3] + InsulatorTemperatureRows(n.regions)
  }

  /** Where those rows go: always the metal node's temperature row. */
  function NodeDstRows(n: BoundaryNode): (rows: seq<int>) {
    [n.metal + 1] + PerInsulator(n.regions, n.metal + 1)
  }

  /** Everything the pass appends to `clear_row`, node by node. */
  function ClearRows(nodes: seq<BoundaryNode>, rank: nat, infinite: bool): (rows: seq<int>) {
    if |nodes| == 0 then []
    else
      var last := nodes[|nodes| - 1];
      ClearRows(nodes[..|nodes| - 1], rank, infinite) + (if last.owner == rank then NodeClearRows(last, infinite) else [])
  }

  /** Everything the pass appends to `src_row`. */
  function SrcRows(nodes: seq<BoundaryNode>, rank: nat): (rows: seq<int>) {
    if |nodes| == 0 then []
    else
      var last := nodes[|nodes| - 1];
      SrcRows(nodes[..|nodes| - 1], rank) + (if last.owner == rank then NodeSrcRows(last) else [])
  }

  /** Everything the pass appends to `dst_row`; it always has as many entries
      as `src_row` receives, because the two are pushed together. */
  function DstRows(nodes: seq<BoundaryNode>, rank: nat): (dst: seq<int>)
    ensures |dst| == |SrcRows(nodes, rank)|
  {
    if |nodes| == 0 then []
    else
      var last := nodes[|nodes| - 1];
      DstRows(nodes[..|nodes| - 1], rank) + (if last.owner == rank then NodeDstRows(last) else [])
  }

  /** Prefix of the node clear rows before the insulator rows. */
  function HeadClearRows(n: BoundaryNode, infinite: bool): (rows: seq<int>) {
    (if infinite then [n.semi, n.semi + 1, n.semi + 2] else [n.semi]) + [n.semi + 3]
  }

  /** Extending the region nodes by one extends the insulator lists by that
      region node's rows when it is an insulator node, and by nothing otherwise. */
  lemma InsulatorRowsOfNextRegion(rs: seq<RegionNode>, row: int, j: nat, src0: seq<int>, dst0: seq<int>, clear0: seq<int>)
    requires j < |rs|
    ensures rs[j].kind == Insulator ==>
              && clear0 + InsulatorRows(rs[..j + 1]) == clear0 + InsulatorRows(rs[..j]) + [rs[j].offset] + [rs[j].offset + 1]
              && src0 + InsulatorTemperatureRows(rs[..j + 1]) == src0 + InsulatorTemperatureRows(rs[..j]) + [rs[j].offset + 1]
              && dst0 + PerInsulator(rs[..j + 1], row) == dst0 + PerInsulator(rs[..j], row) + [row]
    ensures rs[j].kind != Insulator ==>
              && InsulatorRows(rs[..j + 1]) == InsulatorRows(rs[..j])
              && InsulatorTemperatureRows(rs[..j + 1]) == InsulatorTemperatureRows(rs[..j])
              && PerInsulator(rs[..j + 1], row) == PerInsulator(rs[..j], row)
  {
    assert rs[..j + 1][..j] == rs[..j];
    if rs[j].kind == Insulator {
      var c, s, d, o := InsulatorRows(rs[..j]), InsulatorTemperatureRows(rs[..j]), PerInsulator(rs[..j], row), rs[j].offset;
      assert clear0 + (c + [o, o + 1]) == clear0 + c + [o] + [o + 1];
      assert src0 + (s + [o + 1]) == src0 + s + [o + 1];
      assert dst0 + (d + [row]) == dst0 + d + [row];
    }
  }

  /** The insulator loop of one owned node: for every region node at the
      location that is an insulator node, clear its potential and temperature
      rows and move its temperature row onto the metal temperature row. */
  method AppendInsulatorRows(rs: seq<RegionNode>, metal: int, src0: seq<int>, dst0: seq<int>, clear0: seq<int>)
    returns (src: seq<int>, dst: seq<int>, clear: seq<int>)
    ensures src == src0 + InsulatorTemperatureRows(rs)
    ensures dst == dst0 + PerInsulator(rs, metal + 1)
    ensures clear == clear0 + InsulatorRows(rs)
  {
    src, dst, clear := src0, dst0, clear0;
    var j := 0;
    while j < |rs|
      invariant 0 <= j <= |rs|
      invariant src == src0 + InsulatorTemperatureRows(rs[..j])
      invariant dst == dst0 + PerInsulator(rs[..j], metal + 1)
      invariant clear == clear0 + InsulatorRows(rs[..j])
    {
      var r := rs[j];
      InsulatorRowsOfNextRegion(rs, metal + 1, j, src0, dst0, clear0);
      if r.kind == Insulator {
        clear := clear + [r.offset];
        src := src + [r.offset + 1];
        dst := dst + [metal + 1];
        clear := clear + [r.offset + 1];
      }
      j := j + 1;
    }
    assert rs[..j] == rs;
  }

  /** The body of the node loop for one owned node: its own rows, then the
      insulator region nodes at its location. */
  method AppendNodeRows(n: BoundaryNode, infinite: bool, src0: seq<int>, dst0: seq<int>, clear0: seq<int>)
    returns (src: seq<int>, dst: seq<int>, clear: seq<int>)
    ensures src == src0 + NodeSrcRows(n)
    ensures dst == dst0 + NodeDstRows(n)
    ensures clear == clear0 + NodeClearRows(n, infinite)
  {
    if infinite {
      clear := clear0 + [n.semi, n.semi + 1, n.semi + 2];
    } else {
      clear := clear0 + [n.semi];
    }
    src := src0 + [n.semi + 3];
    dst := dst0 + [n.metal + 1];
    clear := clear + [n.semi + 3];
    assert clear == clear0 + HeadClearRows(n, infinite);
    src, dst, clear := AppendInsulatorRows(n.regions, n.metal, src, dst, clear);
  }

  /** Extending the node list by one node extends lists that already hold
      the rows of the first `k` nodes (after `src0`, `dst0`, `clear0`) by that
      node's rows when it is owned, and by nothing otherwise. */
  lemma RowsOfNextNode(nodes: seq<BoundaryNode>, rank: nat, infinite: bool, k: nat,
                       src0: seq<int>, dst0: seq<int>, clear0: seq<int>)
    requires k < |nodes|
    ensures nodes[k].owner == rank ==>
              && clear0 + ClearRows(nodes[..k + 1], rank, infinite) == clear0 + ClearRows(nodes[..k], rank, infinite) + NodeClearRows(nodes[k], infinite)
              && src0 + SrcRows(nodes[..k + 1], rank) == src0 + SrcRows(nodes[..k], rank) + NodeSrcRows(nodes[k])
              && dst0 + DstRows(nodes[..k + 1], rank) == dst0 + DstRows(nodes[..k], rank) + NodeDstRows(nodes[k])
    ensures nodes[k].owner != rank ==>
              && ClearRows(nodes[..k + 1], rank, infinite) == ClearRows(nodes[..k], rank, infinite)
              && SrcRows(nodes[..k + 1], rank) == SrcRows(nodes[..k], rank)
              && DstRows(nodes[..k + 1], rank) == DstRows(nodes[..k], rank)
  {
    assert nodes[..k + 1][..k] == nodes[..k];
    if nodes[k].owner == rank {
      var c, s, d := ClearRows(nodes[..k], rank, infinite), SrcRows(nodes[..k], rank), DstRows(nodes[..k], rank);
      assert clear0 + (c + NodeClearRows(nodes[k], infinite)) == clear0 + c + NodeClearRows(nodes[k], infinite);
      assert src0 + (s + NodeSrcRows(nodes[k])) == src0 + s + NodeSrcRows(nodes[k]);
      assert dst0 + (d + NodeDstRows(nodes[k])) == dst0 + d + NodeDstRows(nodes[k]);
    }
  }

  /** One turn of the node loop: skip node `k` when another processor owns
      it, otherwise append its rows. Lists that hold the rows of the first
      `k` nodes then hold those of the first `k + 1`. */
  method VisitNode(nodes: seq<BoundaryNode>, rank: nat, infinite: bool, k: nat,
                   ghost src0: seq<int>, ghost dst0: seq<int>, ghost clear0: seq<int>,
                   src1: seq<int>, dst1: seq<int>, clear1: seq<int>)
    returns (src: seq<int>, dst: seq<int>, clear: seq<int>)
    requires k < |nodes|
    requires src1 == src0 + SrcRows(nodes[..k], rank)
    requires dst1 == dst0 + DstRows(nodes[..k], rank)
    requires clear1 == clear0 + ClearRows(nodes[..k], rank, infinite)
    ensures src == src0 + SrcRows(nodes[..k + 1], rank)
    ensures dst == dst0 + DstRows(nodes[..k + 1], rank)
    ensures clear == clear0 + ClearRows(nodes[..k + 1], rank, infinite)
  {
    var n := nodes[k];
    RowsOfNextNode(nodes, rank, infinite, k, src0, dst0, clear0);
    src, dst, clear := src1, dst1, clear1;
    if n.owner == rank {
      src, dst, clear := AppendNodeRows(n, infinite, src, dst, clear);
    }
  }

  /** The loop shared by both preprocessing passes: walk the boundary nodes,
      skip those another processor owns, and append the rows to clear and the
      rows to move to the caller's three lists. */
  method AppendEliminatedRows(nodes: seq<BoundaryNode>, rank: nat, infinite: bool,
                              src0: seq<int>, dst0: seq<int>, clear0: seq<int>)
    returns (src: seq<int>, dst: seq<int>, clear: seq<int>)
    ensures src == src0 + SrcRows(nodes, rank)
    ensures dst == dst0 + DstRows(nodes, rank)
    ensures clear == clear0 + ClearRows(nodes, rank, infinite)
  {
    src, dst, clear := src0, dst0, clear0;
    var k := 0;
    while k < |nodes|
      invariant 0 <= k <= |nodes|
      invariant src == src0 + SrcRows(nodes[..k], rank)
      invariant dst == dst0 + DstRows(nodes[..k], rank)
      invariant clear == clear0 + ClearRows(nodes[..k], rank, infinite)
    {
      src, dst, clear := VisitNode(nodes, rank, infinite, k, src0, dst0, clear0, src, dst, clear);
      k := k + 1;
    }
    assert nodes[..k] == nodes;
  }

  /** Only owned nodes contribute: the three lists are those of the owned
      nodes alone. */
  lemma {:induction false} OnlyOwnedNodesEliminate(nodes: seq<BoundaryNode>, rank: nat, infinite: bool)
    ensures ClearRows(nodes, rank, infinite) == ClearRows(Owned(nodes, rank), rank, infinite)
    ensures SrcRows(nodes, rank) == SrcRows(Owned(nodes, rank), rank)
    ensures DstRows(nodes, rank) == DstRows(Owned(nodes, rank), rank)
  {
    if |nodes| > 0 {
      var init, last := nodes[..|nodes| - 1], nodes[|nodes| - 1];
      OnlyOwnedNodesEliminate(init, rank, infinite);
      var o := Owned(nodes, rank);
      if last.owner == rank {
        assert o == Owned(init, rank) + [last];
        assert o[..|o| - 1] == Owned(init, rank);
        assert ClearRows(o, rank, infinite) == ClearRows(Owned(init, rank), rank, infinite) + NodeClearRows(last, infinite);
        assert SrcRows(o, rank) == SrcRows(Owned(init, rank), rank) + NodeSrcRows(last);
        assert DstRows(o, rank) == DstRows(Owned(init, rank), rank) + NodeDstRows(last);
      } else {
        assert o == Owned(init, rank);
      }
    }
  }

  /** Per node, every moved row goes to the metal temperature row, and comes
      from the semiconductor temperature row or an insulator temperature row. */
  lemma NodeMovesPaired(n: BoundaryNode)
    ensures |NodeSrcRows(n)| == |NodeDstRows(n)|
    ensures forall k :: 0 <= k < |NodeSrcRows(n)| ==>
              NodeDstRows(n)[k] == n.metal + 1 &&
              (NodeSrcRows(n)[k] == n.semi + 3 || NodeSrcRows(n)[k] - 1 in Insulators(n.regions))
  {
    InsulatorMoves(n.regions, n.metal + 1);
    forall k | 0 <= k < |NodeSrcRows(n)|
      ensures NodeDstRows(n)[k] == n.metal + 1
      ensures NodeSrcRows(n)[k] == n.semi + 3 || NodeSrcRows(n)[k] - 1 in Insulators(n.regions)
    {
      if k > 0 {
        assert NodeSrcRows(n)[k] == Insulators(n.regions)[k - 1] + 1;
      }
    }
  }

  /** The j-th insulator move goes from the j-th insulator temperature row to
      the given row. */
  lemma {:induction false} InsulatorMoves(rs: seq<RegionNode>, row: int)
    ensures |InsulatorTemperatureRows(rs)| == |PerInsulator(rs, row)| == |Insulators(rs)|
    ensures forall j :: 0 <= j < |Insulators(rs)| ==>
              InsulatorTemperatureRows(rs)[j] == Insulators(rs)[j] + 1 && PerInsulator(rs, row)[j] == row
  {
    if |rs| > 0 {
      InsulatorMoves(rs[..|rs| - 1], row);
    }
  }

  /** Moves are paired node by node: the k-th source and the k-th destination
      come from the same owned node; the destination is that node's metal
      temperature row; the source is its semiconductor temperature row or the
      temperature row of one of its insulator nodes. */
  lemma {:induction false} MovesTargetMetalTemperature(nodes: seq<BoundaryNode>, rank: nat, k: nat)
    requires k < |SrcRows(nodes, rank)|
    ensures exists n :: n in nodes && n.owner == rank &&
              DstRows(nodes, rank)[k] == n.metal + 1 &&
              (SrcRows(nodes, rank)[k] == n.semi + 3 || SrcRows(nodes, rank)[k] - 1 in Insulators(n.regions))
  {
    var init := nodes[..|nodes| - 1];
    if k < |SrcRows(init, rank)| {
      MovesTargetMetalTemperature(init, rank, k);
      var n :| n in init && n.owner == rank &&
               DstRows(init, rank)[k] == n.metal + 1 &&
               (SrcRows(init, rank)[k] == n.semi + 3 || SrcRows(init, rank)[k] - 1 in Insulators(n.regions));
      MovesOfInit(nodes, rank, k);
      assert n in nodes;
    } else {
      MovesOfLast(nodes, rank, k);
    }
  }

  /** The moves of all but the last node keep their places in the lists. */
  lemma MovesOfInit(nodes: seq<BoundaryNode>, rank: nat, k: nat)
    requires 0 < |nodes| && k < |SrcRows(nodes[..|nodes| - 1], rank)|
    ensures SrcRows(nodes, rank)[k] == SrcRows(nodes[..|nodes| - 1], rank)[k]
    ensures DstRows(nodes, rank)[k] == DstRows(nodes[..|nodes| - 1], rank)[k]
  {
  }

  /** A move past those of the other nodes is one of the last node's own. */
  lemma MovesOfLast(nodes: seq<BoundaryNode>, rank: nat, k: nat)
    requires 0 < |nodes| && |SrcRows(nodes[..|nodes| - 1], rank)| <= k < |SrcRows(nodes, rank)|
    ensures var last := nodes[|nodes| - 1];
            last in nodes && last.owner == rank && DstRows(nodes, rank)[k] == last.metal + 1 &&
            (SrcRows(nodes, rank)[k] == last.semi + 3 || SrcRows(nodes, rank)[k] - 1 in Insulators(last.regions))
  {
    var last, m := nodes[|nodes| - 1], |SrcRows(nodes[..|nodes| - 1], rank)|;
    assert last.owner == rank;
    NodeMovesPaired(last);
    assert SrcRows(nodes, rank)[k] == NodeSrcRows(last)[k - m];
    assert DstRows(nodes, rank)[k] == NodeDstRows(last)[k - m];
  }

  /** Which rows one owned node clears: its semiconductor potential and
      temperature rows, its carrier rows exactly in the infinite regime, and
      both rows of each of its insulator nodes. */
  lemma NodeClearRowsExactly(n: BoundaryNode, infinite: bool, r: int)
    ensures r in NodeClearRows(n, infinite) <==>
              r == n.semi || r == n.semi + 3 ||
              (infinite && (r == n.semi + 1 || r == n.semi + 2)) ||
              r in Insulators(n.regions) || r - 1 in Insulators(n.regions)
  {
    InsulatorRowsExactly(n.regions, r);
  }

  /** A row is cleared exactly when some owned node clears it. */
  lemma {:induction false} ClearedRowsAreOwnedNodeRows(nodes: seq<BoundaryNode>, rank: nat, infinite: bool, r: int)
    ensures r in ClearRows(nodes, rank, infinite) <==>
              exists n :: n in nodes && n.owner == rank && r in NodeClearRows(n, infinite)
  {
    if |nodes| > 0 {
      var init, last := nodes[..|nodes| - 1], nodes[|nodes| - 1];
      ClearedRowsAreOwnedNodeRows(init, rank, infinite, r);
      assert forall n :: n in nodes <==> n in init || n == last;
    }
  }

  /** Every moved row is also cleared, in both regimes. */
  lemma {:induction false} MovedRowsAreCleared(nodes: seq<BoundaryNode>, rank: nat, infinite: bool)
    ensures forall k :: 0 <= k < |SrcRows(nodes, rank)| ==> SrcRows(nodes, rank)[k] in ClearRows(nodes, rank, infinite)
  {
    forall k | 0 <= k < |SrcRows(nodes, rank)|
      ensures SrcRows(nodes, rank)[k] in ClearRows(nodes, rank, infinite)
    {
      var r := SrcRows(nodes, rank)[k];
      MovesTargetMetalTemperature(nodes, rank, k);
      var n :| n in nodes && n.owner == rank &&
               DstRows(nodes, rank)[k] == n.metal + 1 &&
               (r == n.semi + 3 || r - 1 in Insulators(n.regions));
      NodeClearRowsExactly(n, infinite, r);
      ClearedRowsAreOwnedNodeRows(nodes, rank, infinite, r);
    }
  }

  /** Under the layout, no row a node clears in the finite regime is a
      carrier row of any boundary node. */
  lemma FiniteClearMissesCarrierRows(nodes: seq<BoundaryNode>, p: nat, q: nat, r: int)
    requires Layout(nodes)
    requires p < |nodes| && q < |nodes|
    requires r in NodeClearRows(nodes[q], false)
    ensures r != nodes[p].semi + 1 && r != nodes[p].semi + 2
  {
    var n := nodes[q];
    NodeClearRowsExactly(n, false, r);
    if r in Insulators(n.regions) {
      assert Apart(nodes[p].semi, 4, r, 2);
    } else if r - 1 in Insulators(n.regions) {
      assert Apart(nodes[p].semi, 4, r - 1, 2);
    } else if q != p {
      assert Apart(nodes[p].semi, 4, nodes[q].semi, 4);
    }
  }

  /** With finite recombination the carrier rows of a boundary node are never
      cleared (they keep the emission-current equations); with infinite
      recombination those of every owned node are. */
  lemma CarrierRowsClearedOnlyWhenInfinite(nodes: seq<BoundaryNode>, rank: nat, p: nat)
    requires Layout(nodes)
    requires p < |nodes|
    ensures nodes[p].semi + 1 !in ClearRows(nodes, rank, false)
    ensures nodes[p].semi + 2 !in ClearRows(nodes, rank, false)
    ensures nodes[p].owner == rank ==>
              nodes[p].semi + 1 in ClearRows(nodes, rank, true) && nodes[p].semi + 2 in ClearRows(nodes, rank, true)
  {
    var s := nodes[p].semi;
    forall r | r == s + 1 || r == s + 2
      ensures r !in ClearRows(nodes, rank, false)
    {
      ClearedRowsAreOwnedNodeRows(nodes, rank, false, r);
      if r in ClearRows(nodes, rank, false) {
        var n :| n in nodes && n.owner == rank && r in NodeClearRows(n, false);
        var q :| 0 <= q < |nodes| && nodes[q] == n;
        FiniteClearMissesCarrierRows(nodes, p, q, r);
      }
    }
    if nodes[p].owner == rank {
      NodeClearRowsExactly(nodes[p], true, s + 1);
      NodeClearRowsExactly(nodes[p], true, s + 2);
      ClearedRowsAreOwnedNodeRows(nodes, rank, true, s + 1);
      ClearedRowsAreOwnedNodeRows(nodes, rank, true, s + 2);
    }
  }
}
