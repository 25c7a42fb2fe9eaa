/** What the infinite-recombination preprocessing saves before the caller
    clears the carrier rows of the owned boundary nodes:
    - from the residual, one conduction current per owned node;
    - from the Jacobian, the derivatives of that current, re-targeted at the
      metal node's row as (row, four columns, four values) triples. */
module Harvest {
  import opened Mesh
  import opened Assembly

  /** The current an owned node's cell sends into the contact, as the bulk
      assembler left it in the carrier rows: f[semi+2] - f[semi+1]. */
  function CarrierCurrent(f: Vector, n: BoundaryNode): (v: real) {
    Get(f, n.semi + 2) - Get(f, n.semi + 1)
  }

  /** The `_current_buffer` the residual preprocessing builds: one value per
      owned node, in node order. */
  function CarrierCurrents(f: Vector, nodes: seq<BoundaryNode>, rank: nat): (vals: seq<real>) {
    OwnedMap(nodes, rank, n => CarrierCurrent(f, n))
  }

  /** The four degrees of freedom of the semiconductor node at `base`. */
  function Block(base: int): (rows: seq<int>) {
    [base, base + 1, base + 2, base + 3]
  }

  /** `get_row(row, cols)`: the Jacobian entries of `row` at the columns `cols`. */
  function GetRow(jac: Matrix, row: int, cols: seq<int>): (vals: seq<real>)
    ensures |vals| == |cols|
  {
    seq(|cols|, k requires 0 <= k < |cols| => At(jac, row, cols[k]))
  }

  /** Derivatives of the conduction current of node `n` with respect to the
      unknowns in `cols`: -(A1[k] - A2[k]) where A1 and A2 are the electron
      and hole rows of `n` at those columns. */
  function CurrentDerivatives(jac: Matrix, n: BoundaryNode, cols: seq<int>): (vals: seq<real>)
    ensures |vals| == |cols|
  {
    var a1, a2 := GetRow(jac, n.semi + 1, cols), GetRow(jac, n.semi + 2, cols);
    seq(|cols|, k requires 0 <= k < |cols| => -(a1[k] - a2[k]))
  }

  /** `count` copies of `x`. */
  function Repeat(x: int, count: nat): (xs: seq<int>)
    ensures |xs| == count
  {
    if count == 0 then [] else Repeat(x, count - 1) + [x]
  }

  /** Column blocks of the neighbours `nbs`, in order. */
  function NeighbourColumns(nbs: seq<int>): (cols: seq<seq<int>>)
    ensures |cols| == |nbs|
  {
    if |nbs| == 0 then [] else NeighbourColumns(nbs[..|nbs| - 1]) + [Block(nbs[|nbs| - 1])]
  }

  /** Current derivatives of node `n` with respect to the neighbours `nbs`. */
  function NeighbourDerivatives(jac: Matrix, n: BoundaryNode, nbs: seq<int>): (vals: seq<seq<real>>)
    ensures |vals| == |nbs|
  {
    if |nbs| == 0 then []
    else NeighbourDerivatives(jac, n, nbs[..|nbs| - 1]) + [CurrentDerivatives(jac, n, Block(nbs[|nbs| - 1]))]
  }

  /** Rows buffered for one owned node: one per neighbour, then its own. */
  function NodeHarvestRows(n: BoundaryNode): (rows: seq<int>) {
    Repeat(n.metal, |n.neighbours|) + [n.metal]
  }

  /** Column blocks buffered for one owned node: each neighbour's, then its own. */
  function NodeHarvestColumns(n: BoundaryNode): (cols: seq<seq<int>>) {
    NeighbourColumns(n.neighbours) + [Block(n.semi)]
  }

  /** Values buffered for one owned node, matching its column blocks. */
  function NodeHarvestValues(jac: Matrix, n: BoundaryNode): (vals: seq<seq<real>>) {
    NeighbourDerivatives(jac, n, n.neighbours) + [CurrentDerivatives(jac, n, Block(n.semi))]
  }

  /** `_buffer_rows` after the Jacobian preprocessing. */
  function HarvestRows(nodes: seq<BoundaryNode>, rank: nat): (rows: seq<int>) {
    if |nodes| == 0 then []
    else
      var last := nodes[|nodes| - 1];
      HarvestRows(nodes[..|nodes| - 1], rank) + (if last.owner == rank then NodeHarvestRows(last) else [])
  }

  /** `_buffer_cols` after the Jacobian preprocessing. */
  function HarvestColumns(nodes: seq<BoundaryNode>, rank: nat): (cols: seq<seq<int>>)
    ensures |cols| == |HarvestRows(nodes, rank)|
  {
    if |nodes| == 0 then []
    else
      var last := nodes[|nodes| - 1];
      HarvestColumns(nodes[..|nodes| - 1], rank) + (if last.owner == rank then NodeHarvestColumns(last) else [])
  }

  /** `_buffer_jacobian_entries` after the Jacobian preprocessing. */
  function HarvestValues(jac: Matrix, nodes: seq<BoundaryNode>, rank: nat): (vals: seq<seq<real>>)
    ensures |vals| == |HarvestRows(nodes, rank)|
  {
    if |nodes| == 0 then []
    else
      var last := nodes[|nodes| - 1];
      HarvestValues(jac, nodes[..|nodes| - 1], rank) + (if last.owner == rank then NodeHarvestValues(jac, last) else [])
  }

  /** The neighbour loop of one owned node: one triple per neighbour, then the
      node's own block. */
  method HarvestNode(jac: Matrix, n: BoundaryNode, rows0: seq<int>, cols0: seq<seq<int>>, vals0: seq<seq<real>>)
    returns (rows: seq<int>, cols: seq<seq<int>>, vals: seq<seq<real>>)
    ensures rows == rows0 + NodeHarvestRows(n)
    ensures cols == cols0 + NodeHarvestColumns(n)
    ensures vals == vals0 + NodeHarvestValues(jac, n)
  {
    var own := Block(n.semi);
    var jm := CurrentDerivatives(jac, n, own);
    var nbs := n.neighbours;
    rows, cols, vals := rows0, cols0, vals0;
    for j := 0 to |nbs|
      invariant rows == rows0 + Repeat(n.metal, j)
      invariant cols == cols0 + NeighbourColumns(nbs[..j])
      invariant vals == vals0 + NeighbourDerivatives(jac, n, nbs[..j])
    {
      var col := Block(nbs[j]);
      var jn := CurrentDerivatives(jac, n, col);
      assert nbs[..j + 1][..j] == nbs[..j];
      rows, cols, vals := rows + [n.metal], cols + [col], vals + [jn];
    }
    assert nbs[..|nbs|] == nbs;
    rows, cols, vals := rows + [n.metal], cols + [own], vals + [jm];
  }

  /** Extending the node list by one node extends the three buffers by that
      node's triples when it is owned, and by nothing otherwise. */
  lemma HarvestOfNextNode(jac: Matrix, nodes: seq<BoundaryNode>, rank: nat, k: nat)
    requires k < |nodes|
    ensures nodes[k].owner == rank ==>
              && HarvestRows(nodes[..k + 1], rank) == HarvestRows(nodes[..k], rank) + NodeHarvestRows(nodes[k])
              && HarvestColumns(nodes[..k + 1], rank) == HarvestColumns(nodes[..k], rank) + NodeHarvestColumns(nodes[k])
              && HarvestValues(jac, nodes[..k + 1], rank) == HarvestValues(jac, nodes[..k], rank) + NodeHarvestValues(jac, nodes[k])
    ensures nodes[k].owner != rank ==>
              && HarvestRows(nodes[..k + 1], rank) == HarvestRows(nodes[..k], rank)
              && HarvestColumns(nodes[..k + 1], rank) == HarvestColumns(nodes[..k], rank)
              && HarvestValues(jac, nodes[..k + 1], rank) == HarvestValues(jac, nodes[..k], rank)
  {
    assert nodes[..k + 1][..k] == nodes[..k];
  }

  /** The harvest loop of the Jacobian preprocessing: walk the boundary nodes,
      skip those another processor owns, and buffer the triples of the rest. */
  method HarvestAll(jac: Matrix, nodes: seq<BoundaryNode>, rank: nat)
    returns (rows: seq<int>, cols: seq<seq<int>>, vals: seq<seq<real>>)
    ensures rows == HarvestRows(nodes, rank)
    ensures cols == HarvestColumns(nodes, rank)
    ensures vals == HarvestValues(jac, nodes, rank)
  {
    rows, cols, vals := [], [], [];
    for k := 0 to |nodes|
      invariant rows == HarvestRows(nodes[..k], rank)
      invariant cols == HarvestColumns(nodes[..k], rank)
      invariant vals == HarvestValues(jac, nodes[..k], rank)
    {
      HarvestOfNextNode(jac, nodes, rank, k);
      if nodes[k].owner == rank {
        rows, cols, vals := HarvestNode(jac, nodes[k], rows, cols, vals);
      }
    }
    assert nodes[..|nodes|] == nodes;
  }

  /** Three buffers of harvested rows are consistent: equally long, and every
      triple has four columns and four values, as `add_row(row, 4, ...)` needs. */
  ghost predicate Aligned(rows: seq<int>, cols: seq<seq<int>>, vals: seq<seq<real>>) {
    |rows| == |cols| == |vals| && forall k :: 0 <= k < |cols| ==> |cols[k]| == 4 && |vals[k]| == 4
  }

  /** The k-th triple one node buffers: its metal row, the block of its k-th
      neighbour (or its own block, last), and the current derivatives there. */
  lemma {:induction false} NodeHarvestShape(jac: Matrix, n: BoundaryNode, k: nat)
    requires k < |NodeHarvestRows(n)|
    ensures |NodeHarvestColumns(n)| == |NodeHarvestValues(jac, n)| == |NodeHarvestRows(n)|
    ensures NodeHarvestRows(n)[k] == n.metal
    ensures k < |n.neighbours| ==> NodeHarvestColumns(n)[k] == Block(n.neighbours[k])
    ensures k == |n.neighbours| ==> NodeHarvestColumns(n)[k] == Block(n.semi)
    ensures NodeHarvestValues(jac, n)[k] == CurrentDerivatives(jac, n, NodeHarvestColumns(n)[k])
  {
    NeighbourTriple(jac, n, n.neighbours, k);
    RepeatAt(n.metal, |n.neighbours|, k);
  }

  /** Every copy is `x`. */
  lemma {:induction false} RepeatAt(x: int, count: nat, k: nat)
    ensures k < count ==> Repeat(x, count)[k] == x
  {
    if 0 < count && k < count - 1 {
      RepeatAt(x, count - 1, k);
    }
  }

  /** The k-th neighbour triple is built from the k-th neighbour. */
  lemma {:induction false} NeighbourTriple(jac: Matrix, n: BoundaryNode, nbs: seq<int>, k: nat)
    ensures k < |nbs| ==> NeighbourColumns(nbs)[k] == Block(nbs[k])
    ensures k < |nbs| ==> NeighbourDerivatives(jac, n, nbs)[k] == CurrentDerivatives(jac, n, Block(nbs[k]))
  {
    if k < |nbs| - 1 {
      NeighbourTriple(jac, n, nbs[..|nbs| - 1], k);
    }
  }

  /** The buffers the Jacobian preprocessing builds are aligned. */
  lemma {:induction false} HarvestAligned(jac: Matrix, nodes: seq<BoundaryNode>, rank: nat)
    ensures Aligned(HarvestRows(nodes, rank), HarvestColumns(nodes, rank), HarvestValues(jac, nodes, rank))
  {
    var rows, cols, vals := HarvestRows(nodes, rank), HarvestColumns(nodes, rank), HarvestValues(jac, nodes, rank);
    forall k | 0 <= k < |cols|
      ensures |cols[k]| == 4 && |vals[k]| == 4
    {
      HarvestTriple(jac, nodes, rank, k);
    }
  }

  /** Every harvested triple belongs to one owned node: its row is that node's
      metal row, its columns are the block of the node or of one of its
      neighbours, and its values are the node's current derivatives there. */
  lemma {:induction false} HarvestTriple(jac: Matrix, nodes: seq<BoundaryNode>, rank: nat, k: nat)
    requires k < |HarvestRows(nodes, rank)|
    ensures exists n, base :: n in nodes && n.owner == rank && (base == n.semi || base in n.neighbours) &&
              HarvestRows(nodes, rank)[k] == n.metal &&
              HarvestColumns(nodes, rank)[k] == Block(base) &&
              HarvestValues(jac, nodes, rank)[k] == CurrentDerivatives(jac, n, Block(base))
  {
    var init, last := nodes[..|nodes| - 1], nodes[|nodes| - 1];
    var m := |HarvestRows(init, rank)|;
    if k < m {
      HarvestTriple(jac, init, rank, k);
      var n, base :| n in init && n.owner == rank && (base == n.semi || base in n.neighbours) &&
                     HarvestRows(init, rank)[k] == n.metal &&
                     HarvestColumns(init, rank)[k] == Block(base) &&
                     HarvestValues(jac, init, rank)[k] == CurrentDerivatives(jac, n, Block(base));
      assert n in nodes;
      assert HarvestRows(nodes, rank)[k] == HarvestRows(init, rank)[k];
      assert HarvestColumns(nodes, rank)[k] == HarvestColumns(init, rank)[k];
      assert HarvestValues(jac, nodes, rank)[k] == HarvestValues(jac, init, rank)[k];
    } else {
      assert last.owner == rank;
      NodeHarvestShape(jac, last, k - m);
      var base := if k - m < |last.neighbours| then last.neighbours[k - m] else last.semi;
      assert HarvestRows(nodes, rank)[k] == NodeHarvestRows(last)[k - m];
      assert HarvestColumns(nodes, rank)[k] == NodeHarvestColumns(last)[k - m] == Block(base);
      assert HarvestValues(jac, nodes, rank)[k] == NodeHarvestValues(jac, last)[k - m];
    }
  }
}
