/** The Jacobian pass of the Ohmic contact with infinite recombination: it
    first replays every triple the preprocessing harvested (`add_row` of the
    buffered current derivatives onto the metal rows), then adds the
    derivatives of the node's own equations.

    The derivative values of the pinning equations and of the displacement
    current come from automatic differentiation through the material model
    and are parameters; the derivatives of the linear continuity equations
    (temperature and insulator) are the constants the differentiation gives. */
module Jacobian {
  import opened Mesh
  import opened Assembly
  import opened Harvest

  /** Derivatives of one equation in the six directions of the pass, in column
      order: metal potential, metal temperature, semiconductor potential,
      electron density, hole density, semiconductor temperature. */
  datatype Slots = Slots(metalPsi: real, metalT: real, psi: real, electron: real, hole: real, temperature: real)

  /** Material-model derivatives of one node's three pinning equations. */
  datatype NodeGradients = NodeGradients(potential: Slots, electron: Slots, hole: Slots)

  /** Derivatives of the displacement current through the face towards one
      neighbour, with respect to the node's potential and the neighbour's. */
  datatype DisplacementSlots = DisplacementSlots(self: real, neighbour: real)

  /** The six columns of a node's equations. */
  function Columns(n: BoundaryNode): (cols: seq<int>) {
    [n.metal, n.metal + 1, n.semi, n.semi + 1, n.semi + 2, n.semi + 3]
  }

  /** The slots as values for `Columns`. */
  function SlotValues(g: Slots): (vals: seq<real>) {
    [g.metalPsi, g.metalT, g.psi, g.electron, g.hole, g.temperature]
  }

  /** Derivatives of T_semiconductor - T_metal. */
  const TemperatureSlots := Slots(0.0, -1.0, 0.0, 0.0, 0.0, 1.0)

  /** A row belongs to node `n`: one of its semiconductor rows, its metal
      potential row, or a row of one of its insulator nodes. */
  predicate RowOfNode(n: BoundaryNode, r: int) {
    n.semi <= r <= n.semi + 3 || r == n.metal || r in InsulatorRows(n.regions)
  }

  /** `add_row` for every buffered triple, in buffer order. */
  function ReplayEntries(rows: seq<int>, cols: seq<seq<int>>, vals: seq<seq<real>>): (es: seq<Entry>)
    requires Aligned(rows, cols, vals)
  {
    if |rows| == 0 then []
    else
      var k := |rows| - 1;
      ReplayEntries(rows[..k], cols[..k], vals[..k]) + RowEntries(rows[k], cols[k], vals[k])
  }

  /** Displacement-current derivatives added to the metal row, one pair per
      neighbour in `nbs`. */
  function DisplacementEntries(n: BoundaryNode, nbs: seq<int>, displacement: (BoundaryNode, int) -> DisplacementSlots): (es: seq<Entry>) {
    if |nbs| == 0 then []
    else
      var nb := nbs[|nbs| - 1];
      var d := displacement(n, nb);
      DisplacementEntries(n, nbs[..|nbs| - 1], displacement) + [Entry(n.metal, n.semi, -d.self), Entry(n.metal, nb, -d.neighbour)]
  }

  /** Derivatives of the insulator continuity equations V_ins - V_metal and
      T_ins - T_metal. */
  function InsulatorEntries(rs: seq<RegionNode>, metal: int): (es: seq<Entry>) {
    if |rs| == 0 then []
    else
      var last := rs[|rs| - 1];
      var o := last.offset;
      InsulatorEntries(rs[..|rs| - 1], metal) +
        (if last.kind == Insulator
         then [Entry(o, metal, -1.0), Entry(o, o, 1.0), Entry(o + 1, metal + 1, -1.0), Entry(o + 1, o + 1, 1.0)]
         else [])
  }

  /** The four equation rows of one node. */
  function EquationEntries(n: BoundaryNode, g: NodeGradients): (es: seq<Entry>) {
    RowEntries(n.semi, Columns(n), SlotValues(g.potential)) +
    RowEntries(n.semi + 1, Columns(n), SlotValues(g.electron)) +
    RowEntries(n.semi + 2, Columns(n), SlotValues(g.hole)) +
    RowEntries(n.semi + 3, Columns(n), SlotValues(TemperatureSlots))
  }

  /** Everything one owned node adds after the replay. */
  function NodeEntries(n: BoundaryNode, g: NodeGradients, displacement: (BoundaryNode, int) -> DisplacementSlots, transient: bool): (es: seq<Entry>) {
    EquationEntries(n, g) +
    (if transient then DisplacementEntries(n, n.neighbours, displacement) else []) +
    InsulatorEntries(n.regions, n.metal)
  }

  /** Everything the owned nodes add after the replay, node by node. */
  function AssemblyEntries(nodes: seq<BoundaryNode>, rank: nat, gradients: BoundaryNode -> NodeGradients,
                           displacement: (BoundaryNode, int) -> DisplacementSlots, transient: bool): (es: seq<Entry>) {
    if |nodes| == 0 then []
    else
      var last := nodes[|nodes| - 1];
      AssemblyEntries(nodes[..|nodes| - 1], rank, gradients, displacement, transient) +
        (if last.owner == rank then NodeEntries(last, gradients(last), displacement, transient) else [])
  }

  // ----------------------------------------------------------------- passes

  /** The replay loop at the head of the pass. */
  method Replay(jac: Matrix, rows: seq<int>, cols: seq<seq<int>>, vals: seq<seq<real>>) returns (m: Matrix)
    requires Aligned(rows, cols, vals)
    ensures m == AddEntries(jac, ReplayEntries(rows, cols, vals))
  {
    m := jac;
    for k := 0 to |rows|
      invariant m == AddEntries(jac, ReplayEntries(rows[..k], cols[..k], vals[..k]))
    {
      assert rows[..k + 1][..k] == rows[..k] && cols[..k + 1][..k] == cols[..k] && vals[..k + 1][..k] == vals[..k];
      AddEntriesAppend(jac, ReplayEntries(rows[..k], cols[..k], vals[..k]), RowEntries(rows[k], cols[k], vals[k]));
      m := AddEntries(m, RowEntries(rows[k], cols[k], vals[k]));
    }
    assert rows[..|rows|] == rows && cols[..|cols|] == cols && vals[..|vals|] == vals;
  }

  /** The neighbour loop of the displacement current: two `add`s per neighbour. */
  method AddDisplacement(jac: Matrix, n: BoundaryNode, displacement: (BoundaryNode, int) -> DisplacementSlots) returns (m: Matrix)
    ensures m == AddEntries(jac, DisplacementEntries(n, n.neighbours, displacement))
  {
    m := jac;
    var nbs := n.neighbours;
    for j := 0 to |nbs|
      invariant m == AddEntries(jac, DisplacementEntries(n, nbs[..j], displacement))
    {
      var nb := nbs[j];
      var d := displacement(n, nb);
      var pair := [Entry(n.metal, n.semi, -d.self), Entry(n.metal, nb, -d.neighbour)];
      assert nbs[..j + 1][..j] == nbs[..j];
      AddEntriesAppend(jac, DisplacementEntries(n, nbs[..j], displacement), pair);
      m := AddEntries(m, pair);
    }
    assert nbs[..|nbs|] == nbs;
  }

  /** The insulator loop: four `add`s per insulator node. */
  method AddInsulators(jac: Matrix, rs: seq<RegionNode>, metal: int) returns (m: Matrix)
    ensures m == AddEntries(jac, InsulatorEntries(rs, metal))
  {
    m := jac;
    for j := 0 to |rs|
      invariant m == AddEntries(jac, InsulatorEntries(rs[..j], metal))
    {
      var r := rs[j];
      var o := r.offset;
      assert rs[..j + 1][..j] == rs[..j];
      if r.kind == Insulator {
        var four := [Entry(o, metal, -1.0), Entry(o, o, 1.0), Entry(o + 1, metal + 1, -1.0), Entry(o + 1, o + 1, 1.0)];
        assert InsulatorEntries(rs[..j + 1], metal) == InsulatorEntries(rs[..j], metal) + four;
        AddEntriesAppend(jac, InsulatorEntries(rs[..j], metal), four);
        m := AddEntries(m, four);
      } else {
        assert InsulatorEntries(rs[..j + 1], metal) == InsulatorEntries(rs[..j], metal) + [];
        assert InsulatorEntries(rs[..j], metal) + [] == InsulatorEntries(rs[..j], metal);
      }
    }
    assert rs[..|rs|] == rs;
  }

  /** What one owned node adds: its four equation rows, the displacement
      derivatives in a transient step, and its insulator equations. */
  method AddNode(jac: Matrix, n: BoundaryNode, g: NodeGradients, displacement: (BoundaryNode, int) -> DisplacementSlots, transient: bool)
    returns (m: Matrix)
    ensures m == AddEntries(jac, NodeEntries(n, g, displacement, transient))
  {
    var equations := EquationEntries(n, g);
    ghost var disp := if transient then DisplacementEntries(n, n.neighbours, displacement) else [];
    m := AddEntries(jac, equations);
    if transient {
      m := AddDisplacement(m, n, displacement);
    }
    AddEntriesAppend(jac, equations, disp);
    m := AddInsulators(m, n.regions, n.metal);
    AddEntriesAppend(jac, equations + disp, InsulatorEntries(n.regions, n.metal));
  }

  /** How the entries of the pass grow by one more node. */
  lemma AssemblyOfNextNode(nodes: seq<BoundaryNode>, rank: nat, gradients: BoundaryNode -> NodeGradients,
                           displacement: (BoundaryNode, int) -> DisplacementSlots, transient: bool, k: nat)
    requires k < |nodes|
    ensures nodes[k].owner == rank ==>
              AssemblyEntries(nodes[..k + 1], rank, gradients, displacement, transient) ==
                AssemblyEntries(nodes[..k], rank, gradients, displacement, transient) +
                NodeEntries(nodes[k], gradients(nodes[k]), displacement, transient)
    ensures nodes[k].owner != rank ==>
              AssemblyEntries(nodes[..k + 1], rank, gradients, displacement, transient) ==
                AssemblyEntries(nodes[..k], rank, gradients, displacement, transient)
  {
    assert nodes[..k + 1][..k] == nodes[..k];
    var before := AssemblyEntries(nodes[..k], rank, gradients, displacement, transient);
    assert before + [] == before;
  }

  /** The infinite-recombination Jacobian pass: replay the buffered triples,
      then add what every owned node contributes. */
  method JacobianInfinite(jac: Matrix, rows: seq<int>, cols: seq<seq<int>>, vals: seq<seq<real>>,
                          nodes: seq<BoundaryNode>, rank: nat, gradients: BoundaryNode -> NodeGradients,
                          displacement: (BoundaryNode, int) -> DisplacementSlots, transient: bool)
    returns (m: Matrix)
    requires Aligned(rows, cols, vals)
    ensures m == AddEntries(jac, ReplayEntries(rows, cols, vals) + AssemblyEntries(nodes, rank, gradients, displacement, transient))
  {
    m := Replay(jac, rows, cols, vals);
    ghost var replayed := m;
    for k := 0 to |nodes|
      invariant m == AddEntries(replayed, AssemblyEntries(nodes[..k], rank, gradients, displacement, transient))
    {
      var n := nodes[k];
      ghost var before := AssemblyEntries(nodes[..k], rank, gradients, displacement, transient);
      AssemblyOfNextNode(nodes, rank, gradients, displacement, transient, k);
      if n.owner == rank {
        AddEntriesAppend(replayed, before, NodeEntries(n, gradients(n), displacement, transient));
        m := AddNode(m, n, gradients(n), displacement, transient);
      }
    }
    assert nodes[..|nodes|] == nodes;
    AddEntriesAppend(jac, ReplayEntries(rows, cols, vals), AssemblyEntries(nodes, rank, gradients, displacement, transient));
  }

  // ----------------------------------------------------------------- lemmas

  /** Every buffered triple is replayed exactly once, in buffer order: entry
      4k+j of the replay is column j of triple k. */
  lemma {:induction false} ReplayEntriesInOrder(rows: seq<int>, cols: seq<seq<int>>, vals: seq<seq<real>>, k: nat, j: nat)
    requires Aligned(rows, cols, vals)
    requires k < |rows| && j < 4
    ensures |ReplayEntries(rows, cols, vals)| == 4 * |rows|
    ensures ReplayEntries(rows, cols, vals)[4 * k + j] == Entry(rows[k], cols[k][j], vals[k][j])
  {
    var last := |rows| - 1;
    assert Aligned(rows[..last], cols[..last], vals[..last]);
    ReplayLength(rows[..last], cols[..last], vals[..last]);
    if k < last {
      ReplayEntriesInOrder(rows[..last], cols[..last], vals[..last], k, j);
    }
  }

  /** The replay has four entries per triple. */
  lemma {:induction false} ReplayLength(rows: seq<int>, cols: seq<seq<int>>, vals: seq<seq<real>>)
    requires Aligned(rows, cols, vals)
    ensures |ReplayEntries(rows, cols, vals)| == 4 * |rows|
  {
    if |rows| > 0 {
      var last := |rows| - 1;
      assert Aligned(rows[..last], cols[..last], vals[..last]);
      ReplayLength(rows[..last], cols[..last], vals[..last]);
    }
  }

  /** Every replayed entry is one column of one buffered triple. */
  lemma ReplayEntryOfTriple(rows: seq<int>, cols: seq<seq<int>>, vals: seq<seq<real>>, e: Entry)
    requires Aligned(rows, cols, vals)
    requires e in ReplayEntries(rows, cols, vals)
    ensures exists k, j :: 0 <= k < |rows| && 0 <= j < 4 && e == Entry(rows[k], cols[k][j], vals[k][j])
  {
    ReplayLength(rows, cols, vals);
    var i :| 0 <= i < |ReplayEntries(rows, cols, vals)| && ReplayEntries(rows, cols, vals)[i] == e;
    ReplayEntriesInOrder(rows, cols, vals, i / 4, i % 4);
  }

  /** After the Jacobian preprocessing, the replay writes only metal rows of
      owned nodes, at the block of the node or of a neighbour, with the
      current derivative harvested there. */
  lemma ReplayOfHarvest(jac0: Matrix, nodes: seq<BoundaryNode>, rank: nat, e: Entry)
    requires Aligned(HarvestRows(nodes, rank), HarvestColumns(nodes, rank), HarvestValues(jac0, nodes, rank))
    requires e in ReplayEntries(HarvestRows(nodes, rank), HarvestColumns(nodes, rank), HarvestValues(jac0, nodes, rank))
    ensures exists n, base, j :: n in nodes && n.owner == rank && (base == n.semi || base in n.neighbours) && 0 <= j < 4 &&
              e == Entry(n.metal, Block(base)[j], CurrentDerivatives(jac0, n, Block(base))[j])
  {
    var rows, cols, vals := HarvestRows(nodes, rank), HarvestColumns(nodes, rank), HarvestValues(jac0, nodes, rank);
    ReplayEntryOfTriple(rows, cols, vals, e);
    var k, j :| 0 <= k < |rows| && 0 <= j < 4 && e == Entry(rows[k], cols[k][j], vals[k][j]);
    HarvestTriple(jac0, nodes, rank, k);
    var n, base :| n in nodes && n.owner == rank && (base == n.semi || base in n.neighbours) &&
                   rows[k] == n.metal && cols[k] == Block(base) && vals[k] == CurrentDerivatives(jac0, n, Block(base));
  }

  /** Every entry one owned node adds lies in a row of that node. */
  lemma NodeEntriesInOwnRows(n: BoundaryNode, g: NodeGradients, displacement: (BoundaryNode, int) -> DisplacementSlots,
                             transient: bool, e: Entry)
    requires e in NodeEntries(n, g, displacement, transient)
    ensures RowOfNode(n, e.row)
  {
    if e in EquationEntries(n, g) {
      EquationEntriesInRows(n, g, e);
    } else if e in InsulatorEntries(n.regions, n.metal) {
      InsulatorEntriesInRows(n.regions, n.metal, e);
    } else {
      DisplacementEntriesInMetalRow(n, n.neighbours, displacement, e);
    }
  }

  /** The equation entries go to the node's four semiconductor rows. */
  lemma EquationEntriesInRows(n: BoundaryNode, g: NodeGradients, e: Entry)
    requires e in EquationEntries(n, g)
    ensures n.semi <= e.row <= n.semi + 3
  {
    var cols := Columns(n);
    if e in RowEntries(n.semi, cols, SlotValues(g.potential)) {
      RowEntriesInRow(n.semi, cols, SlotValues(g.potential), e);
    } else if e in RowEntries(n.semi + 1, cols, SlotValues(g.electron)) {
      RowEntriesInRow(n.semi + 1, cols, SlotValues(g.electron), e);
    } else if e in RowEntries(n.semi + 2, cols, SlotValues(g.hole)) {
      RowEntriesInRow(n.semi + 2, cols, SlotValues(g.hole), e);
    } else {
      RowEntriesInRow(n.semi + 3, cols, SlotValues(TemperatureSlots), e);
    }
  }

  /** The displacement derivatives go to the metal row only. */
  lemma {:induction false} DisplacementEntriesInMetalRow(n: BoundaryNode, nbs: seq<int>,
                                                         displacement: (BoundaryNode, int) -> DisplacementSlots, e: Entry)
    ensures e in DisplacementEntries(n, nbs, displacement) ==> e.row == n.metal
  {
    if |nbs| > 0 {
      DisplacementEntriesInMetalRow(n, nbs[..|nbs| - 1], displacement, e);
    }
  }

  /** The insulator derivatives go to the insulator rows only. */
  lemma {:induction false} InsulatorEntriesInRows(rs: seq<RegionNode>, metal: int, e: Entry)
    ensures e in InsulatorEntries(rs, metal) ==> e.row in InsulatorRows(rs)
  {
    if |rs| > 0 {
      InsulatorEntriesInRows(rs[..|rs| - 1], metal, e);
    }
  }

  /** Only owned nodes contribute after the replay, each in its own rows. */
  lemma {:induction false} AssemblyInOwnedRows(nodes: seq<BoundaryNode>, rank: nat, gradients: BoundaryNode -> NodeGradients,
                                               displacement: (BoundaryNode, int) -> DisplacementSlots, transient: bool, e: Entry)
    requires e in AssemblyEntries(nodes, rank, gradients, displacement, transient)
    ensures exists n :: n in nodes && n.owner == rank && RowOfNode(n, e.row)
  {
    var init, last := nodes[..|nodes| - 1], nodes[|nodes| - 1];
    if e in AssemblyEntries(init, rank, gradients, displacement, transient) {
      AssemblyInOwnedRows(init, rank, gradients, displacement, transient, e);
      var n :| n in init && n.owner == rank && RowOfNode(n, e.row);
      assert n in nodes;
    } else {
      NodeEntriesInOwnRows(last, gradients(last), displacement, transient, e);
    }
  }
}
