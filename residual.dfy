/** The residual contributions of the Ohmic contact: which rows each owned
    boundary node writes (`iy`) and with what (`y`), in both recombination
    regimes, and the per-node injected currents that make up the terminal
    current.

    The physics of a node (built-in potential, equilibrium densities, storage
    and displacement terms) comes from the material model and is a parameter
    here; what the contact itself computes from the solution vector (the
    temperature and insulator continuity residuals) is modelled. */
module Residual {
  import opened Mesh
  import opened Assembly
  import opened Harvest

  /** Material-model values of one boundary node. */
  datatype NodeTerms = NodeTerms(
    potential: real,     // the potential equation (Boltzmann or Fermi pinning)
    electron: real,      // limited: emitted electron current In; infinite: n - n_eq
    hole: real,          // limited: emitted hole current Ip; infinite: p - p_eq
    storage: real,       // Tn + Tp, the carrier storage of a transient step
    displacement: real)  // I_displacement, the displacement current of a transient step

  /** The node's temperature equation: semiconductor and metal temperatures agree. */
  function TemperatureResidual(x: Vector, n: BoundaryNode): (v: real) {
    Get(x, n.semi + 3) - Get(x, n.metal + 1)
  }

  /** Continuity residuals of the insulator nodes among `rs` against the metal
      node at `metal`: potential difference, then temperature difference. */
  function InsulatorResiduals(x: Vector, rs: seq<RegionNode>, metal: int): (ys: seq<real>)
    ensures |ys| == |InsulatorRows(rs)|
  {
    if |rs| == 0 then []
    else
      var last := rs[|rs| - 1];
      InsulatorResiduals(x, rs[..|rs| - 1], metal) +
        (if last.kind == Insulator
         then [Get(x, last.offset) - Get(x, metal), Get(x, last.offset + 1) - Get(x, metal + 1)]
         else [])
  }

  // ---------------------------------------------------------------- limited

  /** Current injected into the metal with finite recombination: conduction
      In + Ip, plus storage minus displacement in a transient step. */
  function LimitedInject(t: NodeTerms, transient: bool): (v: real) {
    t.electron + t.hole + (if transient then t.storage - t.displacement else 0.0)
  }

  /** Rows one owned node writes with finite recombination: its four
      semiconductor rows, the metal potential row, then its insulator rows. */
  function NodeLimitedRows(n: BoundaryNode): (rows: seq<int>) {
    [n.semi, n.semi + 1, n.semi + 2, n.semi + 3, n.metal] + InsulatorRows(n.regions)
  }

  /** The matching values: potential equation, In, -Ip, temperature, injected
      current, then the insulator residuals. */
  function NodeLimitedValues(x: Vector, t: NodeTerms, n: BoundaryNode, transient: bool): (ys: seq<real>)
    ensures |ys| == |NodeLimitedRows(n)|
  {
    [t.potential, t.electron, -t.hole, TemperatureResidual(x, n), LimitedInject(t, transient)] +
      InsulatorResiduals(x, n.regions, n.metal)
  }

  /** `iy` of the limited residual pass. */
  function LimitedRows(nodes: seq<BoundaryNode>, rank: nat): (rows: seq<int>) {
    if |nodes| == 0 then []
    else
      var last := nodes[|nodes| - 1];
      LimitedRows(nodes[..|nodes| - 1], rank) + (if last.owner == rank then NodeLimitedRows(last) else [])
  }

  /** `y` of the limited residual pass; as long as `iy`. */
  function LimitedValues(x: Vector, terms: BoundaryNode -> NodeTerms, nodes: seq<BoundaryNode>, rank: nat, transient: bool): (ys: seq<real>)
    ensures |ys| == |LimitedRows(nodes, rank)|
  {
    if |nodes| == 0 then []
    else
      var last := nodes[|nodes| - 1];
      LimitedValues(x, terms, nodes[..|nodes| - 1], rank, transient) +
        (if last.owner == rank then NodeLimitedValues(x, terms(last), last, transient) else [])
  }

  /** The injected currents of the limited pass, one per owned node. */
  function LimitedCurrents(terms: BoundaryNode -> NodeTerms, nodes: seq<BoundaryNode>, rank: nat, transient: bool): (vals: seq<real>) {
    OwnedMap(nodes, rank, n => LimitedInject(terms(n), transient))
  }

  // --------------------------------------------------------------- infinite

  /** Current injected into the metal with infinite recombination: the
      buffered conduction current, minus displacement in a transient step. */
  function InfiniteInject(buffered: real, t: NodeTerms, transient: bool): (v: real) {
    buffered - (if transient then t.displacement else 0.0)
  }

  /** Rows one owned node writes in the batch with infinite recombination:
      its four semiconductor rows, then its insulator rows. */
  function NodeInfiniteRows(n: BoundaryNode): (rows: seq<int>) {
    [n.semi, n.semi + 1, n.semi + 2, n.semi + 3] + InsulatorRows(n.regions)
  }

  /** The matching values: the three pinning equations, temperature, then
      the insulator residuals. */
  function NodeInfiniteValues(x: Vector, t: NodeTerms, n: BoundaryNode): (ys: seq<real>)
    ensures |ys| == |NodeInfiniteRows(n)|
  {
    [t.potential, t.electron, t.hole, TemperatureResidual(x, n)] + InsulatorResiduals(x, n.regions, n.metal)
  }

  /** `iy` of the infinite residual pass. */
  function InfiniteRows(nodes: seq<BoundaryNode>, rank: nat): (rows: seq<int>) {
    if |nodes| == 0 then []
    else
      var last := nodes[|nodes| - 1];
      InfiniteRows(nodes[..|nodes| - 1], rank) + (if last.owner == rank then NodeInfiniteRows(last) else [])
  }

  /** `y` of the infinite residual pass; as long as `iy`. */
  function InfiniteValues(x: Vector, terms: BoundaryNode -> NodeTerms, nodes: seq<BoundaryNode>, rank: nat): (ys: seq<real>)
    ensures |ys| == |InfiniteRows(nodes, rank)|
  {
    if |nodes| == 0 then []
    else
      var last := nodes[|nodes| - 1];
      InfiniteValues(x, terms, nodes[..|nodes| - 1], rank) +
        (if last.owner == rank then NodeInfiniteValues(x, terms(last), last) else [])
  }

  /** Metal potential rows of the owned nodes, where the infinite pass adds
      the injected currents one by one. */
  function MetalRows(nodes: seq<BoundaryNode>, rank: nat): (rows: seq<int>)
    ensures |rows| == |Owned(nodes, rank)|
  {
    if |nodes| == 0 then []
    else
      var last := nodes[|nodes| - 1];
      MetalRows(nodes[..|nodes| - 1], rank) + (if last.owner == rank then [last.metal] else [])
  }

  /** The injected currents of the infinite pass: the owned node that comes
      after `c` owned nodes reads `buffer[c]`, the counter `i` of the pass. */
  function InfiniteInjects(buffer: seq<real>, terms: BoundaryNode -> NodeTerms, nodes: seq<BoundaryNode>, rank: nat, transient: bool): (injects: seq<real>)
    requires |Owned(nodes, rank)| <= |buffer|
    ensures |injects| == |Owned(nodes, rank)|
  {
    if |nodes| == 0 then []
    else
      var init, last := nodes[..|nodes| - 1], nodes[|nodes| - 1];
      InfiniteInjects(buffer, terms, init, rank, transient) +
        (if last.owner == rank then [InfiniteInject(buffer[|Owned(init, rank)|], terms(last), transient)] else [])
  }

  // ----------------------------------------------------------------- passes

  /** The insulator part of one node's rows and values, pushed pairwise. */
  method AppendInsulatorResiduals(x: Vector, rs: seq<RegionNode>, metal: int, iy0: seq<int>, y0: seq<real>)
    returns (iy: seq<int>, y: seq<real>)
    ensures iy == iy0 + InsulatorRows(rs)
    ensures y == y0 + InsulatorResiduals(x, rs, metal)
  {
    iy, y := iy0, y0;
    for j := 0 to |rs|
      invariant iy == iy0 + InsulatorRows(rs[..j])
      invariant y == y0 + InsulatorResiduals(x, rs[..j], metal)
    {
      var r := rs[j];
      assert rs[..j + 1][..j] == rs[..j];
      if r.kind == Insulator {
        y := y + [Get(x, r.offset) - Get(x, metal), Get(x, r.offset + 1) - Get(x, metal + 1)];
        iy := iy + [r.offset, r.offset + 1];
      }
    }
    assert rs[..|rs|] == rs;
  }

  /** What one owned node pushes in the limited pass. */
  method AppendNodeLimited(x: Vector, t: NodeTerms, n: BoundaryNode, transient: bool, iy0: seq<int>, y0: seq<real>)
    returns (iy: seq<int>, y: seq<real>)
    ensures iy == iy0 + NodeLimitedRows(n)
    ensures y == y0 + NodeLimitedValues(x, t, n, transient)
  {
    var head := [n.semi, n.semi + 1, n.semi + 2, n.semi + 3, n.metal];
    var values := [t.potential, t.electron, -t.hole, TemperatureResidual(x, n), LimitedInject(t, transient)];
    iy, y := AppendInsulatorResiduals(x, n.regions, n.metal, iy0 + head, y0 + values);
  }

  /** What one owned node pushes in the infinite batch. */
  method AppendNodeInfinite(x: Vector, t: NodeTerms, n: BoundaryNode, iy0: seq<int>, y0: seq<real>)
    returns (iy: seq<int>, y: seq<real>)
    ensures iy == iy0 + NodeInfiniteRows(n)
    ensures y == y0 + NodeInfiniteValues(x, t, n)
  {
    var head := [n.semi, n.semi + 1, n.semi + 2, n.semi + 3];
    var values := [t.potential, t.electron, t.hole, TemperatureResidual(x, n)];
    iy, y := AppendInsulatorResiduals(x, n.regions, n.metal, iy0 + head, y0 + values);
  }

  /** How the limited lists grow by one more node. */
  lemma LimitedOfNextNode(x: Vector, terms: BoundaryNode -> NodeTerms, nodes: seq<BoundaryNode>, rank: nat, transient: bool, k: nat)
    requires k < |nodes|
    ensures nodes[k].owner == rank ==>
              LimitedRows(nodes[..k + 1], rank) == LimitedRows(nodes[..k], rank) + NodeLimitedRows(nodes[k]) &&
              LimitedValues(x, terms, nodes[..k + 1], rank, transient) ==
                LimitedValues(x, terms, nodes[..k], rank, transient) + NodeLimitedValues(x, terms(nodes[k]), nodes[k], transient) &&
              LimitedCurrents(terms, nodes[..k + 1], rank, transient) ==
                LimitedCurrents(terms, nodes[..k], rank, transient) + [LimitedInject(terms(nodes[k]), transient)]
    ensures nodes[k].owner != rank ==>
              LimitedRows(nodes[..k + 1], rank) == LimitedRows(nodes[..k], rank) &&
              LimitedValues(x, terms, nodes[..k + 1], rank, transient) == LimitedValues(x, terms, nodes[..k], rank, transient) &&
              LimitedCurrents(terms, nodes[..k + 1], rank, transient) == LimitedCurrents(terms, nodes[..k], rank, transient)
  {
    assert nodes[..k + 1][..k] == nodes[..k];
  }

  /** How the infinite batch grows by one more node. */
  lemma InfiniteOfNextNode(x: Vector, terms: BoundaryNode -> NodeTerms, nodes: seq<BoundaryNode>, rank: nat, k: nat)
    requires k < |nodes|
    ensures nodes[k].owner == rank ==>
              InfiniteRows(nodes[..k + 1], rank) == InfiniteRows(nodes[..k], rank) + NodeInfiniteRows(nodes[k]) &&
              InfiniteValues(x, terms, nodes[..k + 1], rank) ==
                InfiniteValues(x, terms, nodes[..k], rank) + NodeInfiniteValues(x, terms(nodes[k]), nodes[k])
    ensures nodes[k].owner != rank ==>
              InfiniteRows(nodes[..k + 1], rank) == InfiniteRows(nodes[..k], rank) &&
              InfiniteValues(x, terms, nodes[..k + 1], rank) == InfiniteValues(x, terms, nodes[..k], rank)
  {
    assert nodes[..k + 1][..k] == nodes[..k];
  }

  /** How the metal rows and the injected currents grow by one more node;
      the counter advances only on an owned node. */
  lemma InjectsOfNextNode(buffer: seq<real>, terms: BoundaryNode -> NodeTerms,
                          nodes: seq<BoundaryNode>, rank: nat, transient: bool, k: nat)
    requires k < |nodes|
    requires |Owned(nodes[..k + 1], rank)| <= |buffer|
    ensures nodes[k].owner == rank ==>
              |Owned(nodes[..k + 1], rank)| == |Owned(nodes[..k], rank)| + 1 &&
              MetalRows(nodes[..k + 1], rank) == MetalRows(nodes[..k], rank) + [nodes[k].metal] &&
              InfiniteInjects(buffer, terms, nodes[..k + 1], rank, transient) ==
                InfiniteInjects(buffer, terms, nodes[..k], rank, transient) +
                [InfiniteInject(buffer[|Owned(nodes[..k], rank)|], terms(nodes[k]), transient)]
    ensures nodes[k].owner != rank ==>
              |Owned(nodes[..k + 1], rank)| == |Owned(nodes[..k], rank)| &&
              MetalRows(nodes[..k + 1], rank) == MetalRows(nodes[..k], rank) &&
              InfiniteInjects(buffer, terms, nodes[..k + 1], rank, transient) == InfiniteInjects(buffer, terms, nodes[..k], rank, transient)
  {
    assert nodes[..k + 1][..k] == nodes[..k];
  }

  /** The node loop of the limited residual pass: builds `iy`, `y` and the
      local `current_buffer`. */
  method AssembleLimited(x: Vector, terms: BoundaryNode -> NodeTerms, nodes: seq<BoundaryNode>, rank: nat, transient: bool)
    returns (iy: seq<int>, y: seq<real>, currents: seq<real>)
    ensures iy == LimitedRows(nodes, rank)
    ensures y == LimitedValues(x, terms, nodes, rank, transient)
    ensures currents == LimitedCurrents(terms, nodes, rank, transient)
  {
    iy, y, currents := [], [], [];
    for k := 0 to |nodes|
      invariant iy == LimitedRows(nodes[..k], rank)
      invariant y == LimitedValues(x, terms, nodes[..k], rank, transient)
      invariant currents == LimitedCurrents(terms, nodes[..k], rank, transient)
    {
      var n := nodes[k];
      LimitedOfNextNode(x, terms, nodes, rank, transient, k);
      if n.owner == rank {
        iy, y := AppendNodeLimited(x, terms(n), n, transient, iy, y);
        currents := currents + [LimitedInject(terms(n), transient)];
      }
    }
    assert nodes[..|nodes|] == nodes;
  }

  /** An owned node's injected current goes straight into its metal row and
      onto the local current list. */
  method AddInject(f: Vector, ghost metalRows: seq<int>, g0: Vector, currents0: seq<real>, metal: int, inject: real)
    returns (g: Vector, currents: seq<real>)
    requires |metalRows| == |currents0|
    requires g0 == AddValues(f, metalRows, currents0)
    ensures currents == currents0 + [inject]
    ensures g == AddValues(f, metalRows + [metal], currents)
  {
    AddValuesPush(f, metalRows, currents0, metal, inject);
    g := g0[metal := Get(g0, metal) + inject];
    currents := currents0 + [inject];
  }

  /** An owned node's batch entries extend the batch of the nodes before it. */
  method AppendInfiniteBatch(x: Vector, terms: BoundaryNode -> NodeTerms, nodes: seq<BoundaryNode>, rank: nat, k: nat,
                             iy0: seq<int>, y0: seq<real>)
    returns (iy: seq<int>, y: seq<real>)
    requires k < |nodes| && nodes[k].owner == rank
    requires iy0 == InfiniteRows(nodes[..k], rank) && y0 == InfiniteValues(x, terms, nodes[..k], rank)
    ensures iy == InfiniteRows(nodes[..k + 1], rank) && y == InfiniteValues(x, terms, nodes[..k + 1], rank)
  {
    InfiniteOfNextNode(x, terms, nodes, rank, k);
    iy, y := AppendNodeInfinite(x, terms(nodes[k]), nodes[k], iy0, y0);
  }

  /** The node loop of the infinite residual pass: reads the buffered current
      with a counter that advances on owned nodes only, adds the injected
      current to the metal row of `f` at once, and builds `iy`, `y` and the
      local `current_buffer`. */
  method AssembleInfinite(x: Vector, f: Vector, buffer: seq<real>, terms: BoundaryNode -> NodeTerms,
                          nodes: seq<BoundaryNode>, rank: nat, transient: bool)
    returns (g: Vector, iy: seq<int>, y: seq<real>, currents: seq<real>)
    requires |Owned(nodes, rank)| <= |buffer|
    ensures g == AddValues(f, MetalRows(nodes, rank), InfiniteInjects(buffer, terms, nodes, rank, transient))
    ensures iy == InfiniteRows(nodes, rank)
    ensures y == InfiniteValues(x, terms, nodes, rank)
    ensures currents == InfiniteInjects(buffer, terms, nodes, rank, transient)
  {
    g, iy, y, currents := f, [], [], [];
    var i := 0;
    for k := 0 to |nodes|
      invariant |Owned(nodes[..k], rank)| <= |buffer|
      invariant i == |Owned(nodes[..k], rank)|
      invariant iy == InfiniteRows(nodes[..k], rank)
      invariant y == InfiniteValues(x, terms, nodes[..k], rank)
      invariant currents == InfiniteInjects(buffer, terms, nodes[..k], rank, transient)
      invariant g == AddValues(f, MetalRows(nodes[..k], rank), currents)
    {
      var n := nodes[k];
      OwnedPrefixCount(nodes, rank, k + 1);
      InjectsOfNextNode(buffer, terms, nodes, rank, transient, k);
      if n.owner == rank {
        var inject := InfiniteInject(buffer[i], terms(n), transient);
        ghost var metalRows := MetalRows(nodes[..k], rank);
        i := i + 1;
        g, currents := AddInject(f, metalRows, g, currents, n.metal, inject);
        iy, y := AppendInfiniteBatch(x, terms, nodes, rank, k, iy, y);
      } else {
        InfiniteOfNextNode(x, terms, nodes, rank, k);
      }
    }
    assert nodes[..|nodes|] == nodes;
  }

  // ----------------------------------------------------------------- lemmas

  /** The k-th owned node receives the k-th buffered value: the buffer is
      consumed once, in owned-node order. */
  lemma {:induction false} InfiniteInjectsInOrder(buffer: seq<real>, terms: BoundaryNode -> NodeTerms,
                                                  nodes: seq<BoundaryNode>, rank: nat, transient: bool, k: nat)
    requires |Owned(nodes, rank)| <= |buffer|
    requires k < |Owned(nodes, rank)|
    ensures InfiniteInjects(buffer, terms, nodes, rank, transient)[k] ==
              InfiniteInject(buffer[k], terms(Owned(nodes, rank)[k]), transient)
  {
    var init := nodes[..|nodes| - 1];
    if k < |Owned(init, rank)| {
      InfiniteInjectsInOrder(buffer, terms, init, rank, transient, k);
    }
  }

  /** The buffer filled by the residual preprocessing feeds the infinite
      pass: the k-th owned node injects the conduction current read back for
      it, minus its displacement current in a transient step. */
  lemma BufferedCurrentFeedsInfinitePass(f0: Vector, terms: BoundaryNode -> NodeTerms,
                                          nodes: seq<BoundaryNode>, rank: nat, transient: bool, k: nat)
    requires k < |Owned(nodes, rank)|
    ensures |Owned(nodes, rank)| <= |CarrierCurrents(f0, nodes, rank)|
    ensures InfiniteInjects(CarrierCurrents(f0, nodes, rank), terms, nodes, rank, transient)[k] ==
              CarrierCurrent(f0, Owned(nodes, rank)[k]) - (if transient then terms(Owned(nodes, rank)[k]).displacement else 0.0)
  {
    InfiniteInjectsInOrder(CarrierCurrents(f0, nodes, rank), terms, nodes, rank, transient, k);
    OwnedMapAt(nodes, rank, n => CarrierCurrent(f0, n), k);
  }

  /** A row is written by the pass exactly when it is one of the rows of an
      owned node. */
  lemma {:induction false} OnlyOwnedNodeRowsWritten(nodes: seq<BoundaryNode>, rank: nat, r: int)
    ensures r in LimitedRows(nodes, rank) <==> exists n :: n in nodes && n.owner == rank && r in NodeLimitedRows(n)
    ensures r in InfiniteRows(nodes, rank) <==> exists n :: n in nodes && n.owner == rank && r in NodeInfiniteRows(n)
    ensures r in MetalRows(nodes, rank) <==> exists n :: n in nodes && n.owner == rank && r == n.metal
  {
    if |nodes| > 0 {
      var init, last := nodes[..|nodes| - 1], nodes[|nodes| - 1];
      OnlyOwnedNodeRowsWritten(init, rank, r);
      assert forall n :: n in nodes <==> n in init || n == last;
    }
  }

  /** Every other row keeps its value: a row that belongs to no owned node
      reads the same before and after either residual pass. */
  lemma UnwrittenRowsUnchanged(x: Vector, f: Vector, buffer: seq<real>, terms: BoundaryNode -> NodeTerms,
                               nodes: seq<BoundaryNode>, rank: nat, transient: bool, r: int)
    requires |Owned(nodes, rank)| <= |buffer|
    ensures (forall n :: n in nodes && n.owner == rank ==> r !in NodeLimitedRows(n)) ==>
              Get(AddValues(f, LimitedRows(nodes, rank), LimitedValues(x, terms, nodes, rank, transient)), r) == Get(f, r)
    ensures (forall n :: n in nodes && n.owner == rank ==> r !in NodeInfiniteRows(n) && r != n.metal) ==>
              Get(AddValues(AddValues(f, MetalRows(nodes, rank), InfiniteInjects(buffer, terms, nodes, rank, transient)),
                            InfiniteRows(nodes, rank), InfiniteValues(x, terms, nodes, rank)), r) == Get(f, r)
  {
    OnlyOwnedNodeRowsWritten(nodes, rank, r);
    var limitedRows, limitedValues := LimitedRows(nodes, rank), LimitedValues(x, terms, nodes, rank, transient);
    AddValuesAt(f, limitedRows, limitedValues, r);
    if r !in limitedRows {
      SumAtAbsent(limitedRows, limitedValues, r);
    }
    var metalRows, injects := MetalRows(nodes, rank), InfiniteInjects(buffer, terms, nodes, rank, transient);
    var g := AddValues(f, metalRows, injects);
    var rows, values := InfiniteRows(nodes, rank), InfiniteValues(x, terms, nodes, rank);
    AddValuesAt(f, metalRows, injects, r);
    AddValuesAt(g, rows, values, r);
    if r !in metalRows {
      SumAtAbsent(metalRows, injects, r);
    }
    if r !in rows {
      SumAtAbsent(rows, values, r);
    }
  }

  /** A row `m` apart from a node's semiconductor block and insulator blocks
      is none of the rows the node writes in the infinite batch, nor, unless
      it is the node's own metal row, in the limited one. */
  lemma MetalRowMissesNode(n: BoundaryNode, m: int)
    requires Apart(n.semi, 4, m, 2)
    requires forall o :: o in Insulators(n.regions) ==> Apart(m, 2, o, 2)
    ensures m !in NodeInfiniteRows(n)
    ensures m != n.metal ==> m !in NodeLimitedRows(n)
  {
    InsulatorRowsExactly(n.regions, m);
  }

  /** With finite recombination the metal row of a node receives its own
      injected current and nothing else of its own node. */
  lemma NodeLimitedMetalRow(x: Vector, t: NodeTerms, n: BoundaryNode, transient: bool)
    requires Apart(n.semi, 4, n.metal, 2)
    requires forall o :: o in Insulators(n.regions) ==> Apart(n.metal, 2, o, 2)
    ensures SumAt(NodeLimitedRows(n), NodeLimitedValues(x, t, n, transient), n.metal) == LimitedInject(t, transient)
  {
    var head := [n.semi, n.semi + 1, n.semi + 2, n.semi + 3, n.metal];
    var values := [t.potential, t.electron, -t.hole, TemperatureResidual(x, n), LimitedInject(t, transient)];
    var rows, ys := InsulatorRows(n.regions), InsulatorResiduals(x, n.regions, n.metal);
    SumAtAppend(head, values, rows, ys, n.metal);
    InsulatorRowsExactly(n.regions, n.metal);
    SumAtAbsent(rows, ys, n.metal);
    assert head[..4] == [n.semi, n.semi + 1, n.semi + 2, n.semi + 3];
    SumAtAbsent(head[..4], values[..4], n.metal);
  }

  /** Conservation at the contact, finite recombination: the metal potential
      row of a boundary node receives exactly that node's injected current if
      the node is owned, and nothing otherwise. */
  lemma LimitedMetalRow(x: Vector, terms: BoundaryNode -> NodeTerms, nodes: seq<BoundaryNode>, rank: nat, transient: bool, p: nat)
    requires Layout(nodes)
    requires p < |nodes|
    ensures SumAt(LimitedRows(nodes, rank), LimitedValues(x, terms, nodes, rank, transient), nodes[p].metal) ==
              if nodes[p].owner == rank then LimitedInject(terms(nodes[p]), transient) else 0.0
  {
    LimitedMetalRowPrefix(x, terms, nodes, rank, transient, p, |nodes|);
    assert nodes[..|nodes|] == nodes;
  }

  /** `LimitedMetalRow` for the first `j` nodes. */
  lemma {:induction false} LimitedMetalRowPrefix(x: Vector, terms: BoundaryNode -> NodeTerms, nodes: seq<BoundaryNode>,
                                                 rank: nat, transient: bool, p: nat, j: nat)
    requires Layout(nodes)
    requires p < |nodes| && j <= |nodes|
    ensures SumAt(LimitedRows(nodes[..j], rank), LimitedValues(x, terms, nodes[..j], rank, transient), nodes[p].metal) ==
              if p < j && nodes[p].owner == rank then LimitedInject(terms(nodes[p]), transient) else 0.0
  {
    if j > 0 {
      var q, m := j - 1, nodes[p].metal;
      var n := nodes[q];
      LimitedOfNextNode(x, terms, nodes, rank, transient, q);
      LimitedMetalRowPrefix(x, terms, nodes, rank, transient, p, q);
      if n.owner == rank {
        SumAtAppend(LimitedRows(nodes[..q], rank), LimitedValues(x, terms, nodes[..q], rank, transient),
                    NodeLimitedRows(n), NodeLimitedValues(x, terms(n), n, transient), m);
        if q == p {
          NodeLimitedMetalRow(x, terms(n), n, transient);
        } else {
          assert Apart(n.semi, 4, m, 2) && Apart(n.metal, 2, m, 2);
          assert forall o :: o in Insulators(n.regions) ==> Apart(m, 2, o, 2);
          MetalRowMissesNode(n, m);
          SumAtAbsent(NodeLimitedRows(n), NodeLimitedValues(x, terms(n), n, transient), m);
        }
      }
    }
  }

  /** Conservation at the contact, infinite recombination: the batch never
      writes a metal row, and the metal row of an owned node receives exactly
      the current buffered for it, the one after as many entries as there are
      owned nodes before it. */
  lemma InfiniteMetalRow(x: Vector, buffer: seq<real>, terms: BoundaryNode -> NodeTerms,
                         nodes: seq<BoundaryNode>, rank: nat, transient: bool, p: nat)
    requires Layout(nodes)
    requires p < |nodes|
    requires |Owned(nodes, rank)| <= |buffer|
    ensures nodes[p].metal !in InfiniteRows(nodes, rank)
    ensures nodes[p].owner == rank ==> |Owned(nodes[..p], rank)| < |buffer|
    ensures SumAt(MetalRows(nodes, rank), InfiniteInjects(buffer, terms, nodes, rank, transient), nodes[p].metal) ==
              if nodes[p].owner == rank
              then InfiniteInject(buffer[|Owned(nodes[..p], rank)|], terms(nodes[p]), transient)
              else 0.0
  {
    var m := nodes[p].metal;
    forall n | n in nodes && n.owner == rank
      ensures m !in NodeInfiniteRows(n)
    {
      var q :| 0 <= q < |nodes| && nodes[q] == n;
      assert Apart(n.semi, 4, m, 2);
      assert forall o :: o in Insulators(n.regions) ==> Apart(m, 2, o, 2);
      MetalRowMissesNode(n, m);
    }
    OnlyOwnedNodeRowsWritten(nodes, rank, m);
    OwnedOfPrefix(nodes, rank, p + 1);
    assert nodes[..p + 1][..p] == nodes[..p];
    InfiniteMetalRowPrefix(buffer, terms, nodes, rank, transient, p, |nodes|);
    assert nodes[..|nodes|] == nodes;
  }

  /** The metal-row part of `InfiniteMetalRow` for the first `j` nodes. */
  lemma {:induction false} InfiniteMetalRowPrefix(buffer: seq<real>, terms: BoundaryNode -> NodeTerms,
                                                  nodes: seq<BoundaryNode>, rank: nat, transient: bool, p: nat, j: nat)
    requires Layout(nodes)
    requires p < |nodes| && j <= |nodes|
    requires |Owned(nodes, rank)| <= |buffer|
    ensures |Owned(nodes[..j], rank)| <= |buffer|
    ensures p < j && nodes[p].owner == rank ==> |Owned(nodes[..p], rank)| < |buffer|
    ensures SumAt(MetalRows(nodes[..j], rank), InfiniteInjects(buffer, terms, nodes[..j], rank, transient), nodes[p].metal) ==
              if p < j && nodes[p].owner == rank
              then InfiniteInject(buffer[|Owned(nodes[..p], rank)|], terms(nodes[p]), transient)
              else 0.0
  {
    OwnedOfPrefix(nodes, rank, j);
    if j > 0 {
      var q, m := j - 1, nodes[p].metal;
      var n := nodes[q];
      InjectsOfNextNode(buffer, terms, nodes, rank, transient, q);
      InfiniteMetalRowPrefix(buffer, terms, nodes, rank, transient, p, q);
      if n.owner == rank {
        var c := |Owned(nodes[..q], rank)|;
        SumAtAppend(MetalRows(nodes[..q], rank), InfiniteInjects(buffer, terms, nodes[..q], rank, transient),
                    [n.metal], [InfiniteInject(buffer[c], terms(n), transient)], m);
        if q != p {
          assert Apart(n.metal, 2, m, 2);
        }
      }
    }
  }
}
