/** The Ohmic contact between a semiconductor region and a resistive metal
    region, as one processor of a parallel run sees it: the state the contact
    keeps between the passes of a nonlinear solve (the conduction currents and
    the Jacobian rows harvested by the preprocessing passes, the terminal
    current and potential) and the passes that read and write it.

    The residual vector and the Jacobian matrix a pass writes are returned;
    the values other processors contribute to the collective operations of the
    solution update are parameters. */
module OhmicBC {
  import opened Mesh
  import opened Assembly
  import opened Elimination
  import opened Harvest
  import opened Residual
  import opened Jacobian
  import opened Terminal

  class MetalOhmicBC {
    /** The boundary nodes of the contact, in the order they are visited. */
    const nodes: seq<BoundaryNode>
    /** The processor this object lives on. */
    const rank: nat
    /** Whether the semiconductor side recombines infinitely fast (the
        carrier densities are pinned to equilibrium). */
    const infinite: bool
    /** The device width in z: the current scale of a 2D mesh. */
    const zWidth: real

    /** `_current_buffer`: the conduction current of each owned node, read
        back by the residual preprocessing with infinite recombination. */
    var currentBuffer: seq<real>
    /** `_buffer_rows`, `_buffer_cols`, `_buffer_jacobian_entries`: the
        current-derivative rows harvested by the Jacobian preprocessing. */
    var bufferRows: seq<int>
    var bufferCols: seq<seq<int>>
    var bufferEntries: seq<seq<real>>
    /** The terminal current and potential of the electrode. */
    var current: real
    var psi: real

    /** The harvested triples can be replayed row by row. */
    ghost predicate Valid()
      reads this
    {
      Aligned(bufferRows, bufferCols, bufferEntries)
    }

    constructor (nodes: seq<BoundaryNode>, rank: nat, infinite: bool, zWidth: real)
      ensures this.nodes == nodes && this.rank == rank && this.infinite == infinite && this.zWidth == zWidth
      ensures currentBuffer == [] && bufferRows == [] && bufferCols == [] && bufferEntries == []
      ensures Valid()
    {
      this.nodes := nodes;
      this.rank := rank;
      this.infinite := infinite;
      this.zWidth := zWidth;
      currentBuffer := [];
      bufferRows, bufferCols, bufferEntries := [], [], [];
    }

    /** Residual preprocessing: append the rows to eliminate to the caller's
        lists; with infinite recombination, first refill the current buffer
        with the conduction current of every owned node, read from the
        assembled residual `f`. */
    method FunctionPreprocess(f: Vector, src0: seq<int>, dst0: seq<int>, clear0: seq<int>)
      returns (src: seq<int>, dst: seq<int>, clear: seq<int>)
      modifies this
      ensures src == src0 + SrcRows(nodes, rank)
      ensures dst == dst0 + DstRows(nodes, rank)
      ensures clear == clear0 + ClearRows(nodes, rank, infinite)
      ensures currentBuffer == if infinite then CarrierCurrents(f, nodes, rank) else old(currentBuffer)
      ensures bufferRows == old(bufferRows) && bufferCols == old(bufferCols) && bufferEntries == old(bufferEntries)
      ensures current == old(current) && psi == old(psi)
    {
      if !infinite {
        src, dst, clear := AppendEliminatedRows(nodes, rank, false, src0, dst0, clear0);
        return;
      }
      currentBuffer := [];
      src, dst, clear := src0, dst0, clear0;
      for k := 0 to |nodes|
        invariant src == src0 + SrcRows(nodes[..k], rank)
        invariant dst == dst0 + DstRows(nodes[..k], rank)
        invariant clear == clear0 + ClearRows(nodes[..k], rank, true)
        invariant currentBuffer == CarrierCurrents(f, nodes[..k], rank)
        invariant bufferRows == old(bufferRows) && bufferCols == old(bufferCols) && bufferEntries == old(bufferEntries)
        invariant current == old(current) && psi == old(psi)
      {
        var n := nodes[k];
        OwnedMapOfNextNode(nodes, rank, m => CarrierCurrent(f, m), k);
        if n.owner == rank {
          currentBuffer := currentBuffer + [CarrierCurrent(f, n)];
        }
        src, dst, clear := VisitNode(nodes, rank, true, k, src0, dst0, clear0, src, dst, clear);
      }
      assert nodes[..|nodes|] == nodes;
    }

    /** Jacobian preprocessing: with infinite recombination, first refill
        the three row buffers from the assembled Jacobian `jac`; then append
        the rows to eliminate to the caller's lists. */
    method JacobianPreprocess(jac: Matrix, src0: seq<int>, dst0: seq<int>, clear0: seq<int>)
      returns (src: seq<int>, dst: seq<int>, clear: seq<int>)
      requires Valid()
      modifies this
      ensures Valid()
      ensures src == src0 + SrcRows(nodes, rank)
      ensures dst == dst0 + DstRows(nodes, rank)
      ensures clear == clear0 + ClearRows(nodes, rank, infinite)
      ensures infinite ==> bufferRows == HarvestRows(nodes, rank) && bufferCols == HarvestColumns(nodes, rank) &&
                           bufferEntries == HarvestValues(jac, nodes, rank)
      ensures !infinite ==> bufferRows == old(bufferRows) && bufferCols == old(bufferCols) && bufferEntries == old(bufferEntries)
      ensures currentBuffer == old(currentBuffer) && current == old(current) && psi == old(psi)
    {
      if infinite {
        bufferRows, bufferCols, bufferEntries := HarvestAll(jac, nodes, rank);
        HarvestAligned(jac, nodes, rank);
      }
      src, dst, clear := AppendEliminatedRows(nodes, rank, infinite, src0, dst0, clear0);
    }

    /** The residual pass of the regime the contact is in: returns the
        residual with the contact's contributions added, and sets the
        current this processor carries, `z_width` times its owned nodes'
        injected currents. With infinite recombination it consumes the
        current buffer, which must hold a value per owned node. */
    method Function(x: Vector, f: Vector, terms: BoundaryNode -> NodeTerms, transient: bool) returns (g: Vector)
      requires infinite ==> |Owned(nodes, rank)| <= |currentBuffer|
      modifies this
      ensures currentBuffer == old(currentBuffer) && psi == old(psi)
      ensures bufferRows == old(bufferRows) && bufferCols == old(bufferCols) && bufferEntries == old(bufferEntries)
      ensures !infinite ==>
                && g == AddValues(f, LimitedRows(nodes, rank), LimitedValues(x, terms, nodes, rank, transient))
                && current == Scaled(zWidth, Sum(LimitedCurrents(terms, nodes, rank, transient)))
      ensures infinite ==>
                && g == AddValues(AddValues(f, MetalRows(nodes, rank), InfiniteInjects(currentBuffer, terms, nodes, rank, transient)),
                                  InfiniteRows(nodes, rank), InfiniteValues(x, terms, nodes, rank))
                && current == Scaled(zWidth, Sum(InfiniteInjects(currentBuffer, terms, nodes, rank, transient)))
    {
      if !infinite {
        var iy, y, currents := AssembleLimited(x, terms, nodes, rank, transient);
        g := AddValues(f, iy, y);
        current := Scaled(zWidth, Sum(currents));
      } else {
        var g0, iy, y, currents := AssembleInfinite(x, f, currentBuffer, terms, nodes, rank, transient);
        current := Scaled(zWidth, Sum(currents));
        g := AddValues(g0, iy, y);
      }
    }

    /** The Jacobian pass with infinite recombination: replay the harvested
        current derivatives into the metal rows, then add the pinned
        equations, the displacement terms and the insulator rows of every
        owned node. */
    method JacobianInfiniteRecombination(jac: Matrix, gradients: BoundaryNode -> NodeGradients,
                                         displacement: (BoundaryNode, int) -> DisplacementSlots, transient: bool)
      returns (m: Matrix)
      requires infinite && Valid()
      ensures m == AddEntries(jac, ReplayEntries(bufferRows, bufferCols, bufferEntries) +
                                   AssemblyEntries(nodes, rank, gradients, displacement, transient))
    {
      m := JacobianInfinite(jac, bufferRows, bufferCols, bufferEntries, nodes, rank, gradients, displacement, transient);
    }

    /** The electrode update after a solve: the terminal current becomes the
        sum of the currents of all processors, and the terminal potential the
        mean of the metal-side potentials gathered from all processors.
        `lower` and `higher` are the currents of the processors below and
        above this one; `before` and `after` are their gathered potentials. */
    method UpdateSolution(x: Vector, lower: seq<real>, higher: seq<real>, before: seq<real>, after: seq<real>)
      modifies this
      ensures current == Sum(lower + [old(current)] + higher)
      ensures psi == Mean(before + LocalPotentials(x, nodes, rank) + after)
      ensures currentBuffer == old(currentBuffer)
      ensures bufferRows == old(bufferRows) && bufferCols == old(bufferCols) && bufferEntries == old(bufferEntries)
    {
      var potentials := [];
      for k := 0 to |nodes|
        invariant unchanged(this)
        invariant potentials == OwnedMap(nodes[..k], rank, n => MetalPotential(x, n))
      {
        OwnedMapOfNextNode(nodes, rank, n => MetalPotential(x, n), k);
        if nodes[k].owner == rank {
          potentials := potentials + [MetalPotential(x, nodes[k])];
        }
      }
      assert nodes[..|nodes|] == nodes;
      current := Sum(lower + [current] + higher);
      psi := Mean(before + potentials + after);
    }
  }

  /** With infinite recombination, the buffer the residual preprocessing
      fills makes every owned node inject its own conduction current, minus
      its displacement current in a transient step. */
  lemma BufferedInjects(f0: Vector, terms: BoundaryNode -> NodeTerms, nodes: seq<BoundaryNode>, rank: nat, transient: bool)
    ensures |Owned(nodes, rank)| <= |CarrierCurrents(f0, nodes, rank)|
    ensures InfiniteInjects(CarrierCurrents(f0, nodes, rank), terms, nodes, rank, transient) ==
              OwnedMap(nodes, rank, n => InfiniteInject(CarrierCurrent(f0, n), terms(n), transient))
  {
    var buffer := CarrierCurrents(f0, nodes, rank);
    var injects := InfiniteInjects(buffer, terms, nodes, rank, transient);
    var expected := OwnedMap(nodes, rank, n => InfiniteInject(CarrierCurrent(f0, n), terms(n), transient));
    forall k | 0 <= k < |injects|
      ensures injects[k] == expected[k]
    {
      InfiniteInjectsInOrder(buffer, terms, nodes, rank, transient, k);
      OwnedMapAt(nodes, rank, n => CarrierCurrent(f0, n), k);
      OwnedMapAt(nodes, rank, n => InfiniteInject(CarrierCurrent(f0, n), terms(n), transient), k);
    }
  }

  /** With infinite recombination and a buffer refilled by the preprocessing,
      the terminal current after the update is `z_width` times the injected
      currents of all boundary nodes, each counted once. `lower` and `higher`
      are the currents of the processors below and above `rank` after their
      own residual pass. */
  lemma InfiniteTerminalCurrent(f0: Vector, terms: BoundaryNode -> NodeTerms, nodes: seq<BoundaryNode>, transient: bool,
                                zWidth: real, rank: nat, p: nat, lower: seq<real>, higher: seq<real>)
    requires rank < p && OwnedBelow(nodes, p)
    requires lower == Scale(zWidth, RankTotals(nodes, n => InfiniteInject(CarrierCurrent(f0, n), terms(n), transient), 0, rank))
    requires higher == Scale(zWidth, RankTotals(nodes, n => InfiniteInject(CarrierCurrent(f0, n), terms(n), transient), rank + 1, p))
    ensures |Owned(nodes, rank)| <= |CarrierCurrents(f0, nodes, rank)|
    ensures Sum(lower + [Scaled(zWidth, Sum(InfiniteInjects(CarrierCurrents(f0, nodes, rank), terms, nodes, rank, transient)))] + higher) ==
              Scaled(zWidth, Sum(NodeValues(nodes, n => InfiniteInject(CarrierCurrent(f0, n), terms(n), transient))))
  {
    BufferedInjects(f0, terms, nodes, rank, transient);
    TerminalCurrent(nodes, n => InfiniteInject(CarrierCurrent(f0, n), terms(n), transient), zWidth, rank, p, lower, higher);
  }
}
