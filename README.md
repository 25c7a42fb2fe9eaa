# Ohmic contact between a semiconductor and a resistive metal — bookkeeping model

This project models the bookkeeping of `IF_Metal_OhmicBC`, the Genius TCAD
boundary condition that joins a semiconductor region to a resistive metal
region with an Ohmic contact, as the DDM level-2 solver drives it on one
processor of a parallel run. The physics of the contact (built-in potential,
equilibrium densities, Fermi pinning, storage and displacement currents, and
the derivatives the automatic differentiation gives for them) is not
modelled: it enters as parameters. What is modelled is how the contact
decides which rows it touches and in what order:

- **Row elimination** (`Elimination`). Both preprocessing passes walk the
  boundary nodes, skip those another processor owns, and append to the
  caller's `clear_row`, `src_row` and `dst_row` lists. With finite
  recombination a node clears its semiconductor rows +0 and +3. With
  infinite recombination it also clears +1 and +2. Either way it moves its
  semiconductor temperature row, and the temperature row of each insulator
  node at the location, onto the metal temperature row. Every insulator node
  clears its two rows.
- **The infinite-recombination buffers** (`Harvest`, `Residual`,
  `Jacobian`). The residual preprocessing fills `_current_buffer` with one
  conduction current per owned node, read back from the assembled residual.
  The residual pass consumes it with a counter that advances on owned nodes
  only. The Jacobian preprocessing harvests, for each owned node, one triple
  per neighbour and one for the node itself. Each triple holds the metal
  row, a four-column block, and the derivatives `-(A1[k]-A2[k])`. The
  Jacobian pass replays every triple with `add_row` before it adds its own
  entries.
- **Residual layout** (`Residual`). The `iy`/`y` lists of both residual
  passes are modelled, together with the injected metal currents and the
  continuity residuals of the temperature and insulator equations.
- **Terminal values** (`Terminal`). The current is `z_width` times the sum
  of the injected currents of the owned nodes. The solution update sums it
  over all processors. The potential is the mean of the metal-side
  potentials gathered from all processors, or 0 when there are none.
- **The contact object** (`OhmicBC.MetalOhmicBC`). It holds those buffers
  and the `current`/`psi` fields. Its methods are the passes the solver
  calls.

Representation. Degrees of freedom are integer offsets:

- a semiconductor node owns rows +0..+3 (potential, electron density, hole
  density, temperature);
- a metal or insulator node owns rows +0 and +1 (potential, temperature).

The residual vector is a `map<int, real>` and the sparse Jacobian a
`map<(int, int), real>`. An absent entry reads as zero. Every insertion is an
addition, so an assembly pass is a list of (row, value) pairs or of
`Entry(row, col, value)` records applied in order. The specification
functions build their lists from the end, so the forward loops of the passes
extend them one node at a time.

Some lemmas assume `Mesh.Layout`: the semiconductor, metal and insulator
blocks of different boundary nodes do not overlap. This is a property of the
mesh's numbering, not something the contact checks.

## Model

| member | source | states |
|---|---|---|
| Mesh.InsulatorsAreInsulatorNodes | src/solver/ddm2/ddm2_boundary_resistance_ohmic.cc:96-104 | an offset is among a location's insulator offsets exactly when some region node there is an insulator node with that offset; every other region kind is skipped |
| Mesh.InsulatorRowsInPairs | src/solver/ddm2/ddm2_boundary_resistance_ohmic.cc:360-380 | the insulator rows come two per insulator node, in order: the j-th pair is its potential row then its temperature row |
| Mesh.InsulatorRowsExactly | src/solver/ddm2/ddm2_boundary_resistance_ohmic.cc:104-108 | a row is an insulator row exactly when it is +0 or +1 of one of the location's insulator nodes |
| Mesh.OwnedMembers | src/solver/ddm2/ddm2_boundary_resistance_ohmic.cc:83 | a node is among the owned nodes exactly when it is a boundary node whose owner is this processor |
| Mesh.OwnedMapAt | src/solver/ddm2/ddm2_boundary_resistance_ohmic.cc:1131-1140 | the k-th value a per-owned-node loop pushes belongs to the k-th owned node |
| Assembly.AddValuesAt | src/solver/ddm2/ddm2_boundary_resistance_ohmic.cc:383 | after `VecSetValues(..., ADD_VALUES)` a row holds its old value plus every value listed for it, and every unlisted row is unchanged |
| Assembly.AddValuesAppend | src/solver/ddm2/ddm2_boundary_resistance_ohmic.cc:557-588 | adding two batches one after the other is adding their concatenation |
| Assembly.AddEntriesAt | src/solver/ddm2/ddm2_boundary_resistance_ohmic.cc:1049-1052 | after `add`/`add_row` an entry holds its old value plus every value inserted at it |
| Assembly.AddEntriesAppend | src/solver/ddm2/ddm2_boundary_resistance_ohmic.cc:951-1110 | inserting two lists of entries one after the other is inserting their concatenation |
| Elimination.AppendInsulatorRows | src/solver/ddm2/ddm2_boundary_resistance_ohmic.cc:96-110 | the insulator loop appends each insulator node's +1 to the sources, the metal +1 to the destinations, and +0, +1 to the rows to clear |
| Elimination.AppendNodeRows | src/solver/ddm2/ddm2_boundary_resistance_ohmic.cc:127-167 | one owned node appends its clear rows (semi+0..+2 with infinite recombination, semi+0 otherwise, then semi+3), the move semi+3 to metal+1, then its insulator rows |
| Elimination.VisitNode | src/solver/ddm2/ddm2_boundary_resistance_ohmic.cc:80-109 | one turn of the node loop: lists holding the rows of the first k nodes then hold those of the first k + 1, so a node of another processor adds nothing |
| Elimination.AppendEliminatedRows | src/solver/ddm2/ddm2_boundary_resistance_ohmic.cc:606-641 | the node loop extends the caller's three lists by exactly the rows of the owned nodes, in node order |
| Elimination.DstRows | src/solver/ddm2/ddm2_boundary_resistance_ohmic.cc:90-91 | `dst_row` grows by exactly as many entries as `src_row`, because the two are pushed together |
| Elimination.OnlyOwnedNodesEliminate | src/solver/ddm2/ddm2_boundary_resistance_ohmic.cc:80-83 | the three lists are those of the owned nodes alone: a node of another processor appends nothing |
| Elimination.NodeMovesPaired | src/solver/ddm2/ddm2_boundary_resistance_ohmic.cc:88-108 | a node appends as many sources as destinations; each destination is metal+1 and each source is semi+3 or an insulator's +1 |
| Elimination.InsulatorMoves | src/solver/ddm2/ddm2_boundary_resistance_ohmic.cc:104-108 | the j-th insulator move takes the j-th insulator node's +1 row to the metal temperature row |
| Elimination.MovesTargetMetalTemperature | src/solver/ddm2/ddm2_boundary_resistance_ohmic.cc:619-637 | every move in the lists goes from semi+3 or an insulator +1 of some owned node to that node's metal+1 |
| Elimination.NodeClearRowsExactly | src/solver/ddm2/ddm2_boundary_resistance_ohmic.cc:130-166 | a node clears exactly semi+0, semi+3, semi+1 and semi+2 when recombination is infinite, and +0, +1 of each insulator node |
| Elimination.ClearedRowsAreOwnedNodeRows | src/solver/ddm2/ddm2_boundary_resistance_ohmic.cc:713-743 | a row is cleared exactly when it is a clear row of some owned node |
| Elimination.MovedRowsAreCleared | src/solver/ddm2/ddm2_boundary_resistance_ohmic.cc:725-727 | every source row is also in the rows to clear |
| Elimination.FiniteClearMissesCarrierRows | src/solver/ddm2/ddm2_boundary_resistance_ohmic.cc:88-92 | with finite recombination no node's cleared row is the carrier row +1 or +2 of any node |
| Elimination.CarrierRowsClearedOnlyWhenInfinite | src/solver/ddm2/ddm2_boundary_resistance_ohmic.cc:617-621 | semi+1 and semi+2 are never cleared with finite recombination, and always cleared for owned nodes with infinite recombination |
| Harvest.HarvestNode | src/solver/ddm2/ddm2_boundary_resistance_ohmic.cc:683-709 | one owned node appends one triple per neighbour, in neighbour order, then one for its own block |
| Harvest.HarvestAll | src/solver/ddm2/ddm2_boundary_resistance_ohmic.cc:646-710 | the harvest loop starts from empty buffers and leaves exactly the triples of the owned nodes, in node order |
| Harvest.NodeHarvestShape | src/solver/ddm2/ddm2_boundary_resistance_ohmic.cc:685-709 | a node's k-th triple is its metal row, the block of its k-th neighbour (its own block, last), and the current derivatives read from that block |
| Harvest.NeighbourTriple | src/solver/ddm2/ddm2_boundary_resistance_ohmic.cc:685-706 | the neighbour loop's k-th columns are the k-th neighbour's block and its values are the derivatives there |
| Harvest.HarvestAligned | src/solver/ddm2/ddm2_boundary_resistance_ohmic.cc:703-709 | the three buffers stay equally long and every triple has four columns and four values |
| Harvest.HarvestTriple | src/solver/ddm2/ddm2_boundary_resistance_ohmic.cc:653-709 | every buffered triple belongs to an owned node: its row is that node's metal row, its columns a block of the node or of a neighbour, its values `-(A1[k]-A2[k])` there |
| Residual.InsulatorResiduals | src/solver/ddm2/ddm2_boundary_resistance_ohmic.cc:360-380 | the insulator residuals are as many as the insulator rows |
| Residual.NodeLimitedValues | src/solver/ddm2/ddm2_boundary_resistance_ohmic.cc:267-380 | one node's values match its rows one to one |
| Residual.LimitedValues | src/solver/ddm2/ddm2_boundary_resistance_ohmic.cc:218-383 | `y` of the limited pass is as long as `iy` when it is handed to `VecSetValues` |
| Residual.NodeInfiniteValues | src/solver/ddm2/ddm2_boundary_resistance_ohmic.cc:475-581 | one node's values match its rows one to one |
| Residual.InfiniteValues | src/solver/ddm2/ddm2_boundary_resistance_ohmic.cc:432-588 | `y` of the infinite pass is as long as `iy` when it is handed to `VecSetValues` |
| Residual.MetalRows | src/solver/ddm2/ddm2_boundary_resistance_ohmic.cc:557 | the infinite pass adds to one metal row per owned node |
| Residual.InfiniteInjects | src/solver/ddm2/ddm2_boundary_resistance_ohmic.cc:519-558 | the infinite pass injects one current per owned node, consuming one buffer entry each |
| Residual.AppendInsulatorResiduals | src/solver/ddm2/ddm2_boundary_resistance_ohmic.cc:360-380 | the insulator loop appends each insulator node's two rows and the differences of its potential and temperature from the metal node's |
| Residual.AppendNodeLimited | src/solver/ddm2/ddm2_boundary_resistance_ohmic.cc:267-380 | one owned node appends semi+0..+3, the metal row and its insulator rows, with the pinning equation, In, -Ip, the temperature difference, the injected current and the insulator residuals |
| Residual.AppendNodeInfinite | src/solver/ddm2/ddm2_boundary_resistance_ohmic.cc:475-515 | one owned node appends semi+0..+3 with its three pinning equations and the temperature difference |
| Residual.AssembleLimited | src/solver/ddm2/ddm2_boundary_resistance_ohmic.cc:216-383 | the limited pass's `iy`, `y` and per-node currents are those of the owned nodes, in node order |
| Residual.AddInject | src/solver/ddm2/ddm2_boundary_resistance_ohmic.cc:557-558 | adding one injected current to its metal row keeps the vector equal to the residual plus every current added so far |
| Residual.AppendInfiniteBatch | src/solver/ddm2/ddm2_boundary_resistance_ohmic.cc:508-581 | one owned node extends the batch by its rows and values |
| Residual.AssembleInfinite | src/solver/ddm2/ddm2_boundary_resistance_ohmic.cc:430-582 | the infinite pass adds every owned node's injected current to its metal row as it goes, and returns the batch and the currents of the owned nodes |
| Residual.InfiniteInjectsInOrder | src/solver/ddm2/ddm2_boundary_resistance_ohmic.cc:432-519 | the k-th owned node reads the k-th buffer entry: the counter advances on owned nodes only |
| Residual.BufferedCurrentFeedsInfinitePass | src/solver/ddm2/ddm2_boundary_resistance_ohmic.cc:519-552 | with the buffer the preprocessing filled, the k-th owned node injects its own `I[1]-I[0]`, minus its displacement current in a transient step |
| Residual.OnlyOwnedNodeRowsWritten | src/solver/ddm2/ddm2_boundary_resistance_ohmic.cc:218-221 | a row is written by either pass exactly when it is a row of some owned node |
| Residual.UnwrittenRowsUnchanged | src/solver/ddm2/ddm2_boundary_resistance_ohmic.cc:381-382 | a row that belongs to no owned node reads the same after the limited pass, and after the infinite pass (its metal injects and its batch, 587), as before |
| Residual.MetalRowMissesNode | src/solver/ddm2/ddm2_boundary_resistance_ohmic.cc:508-515 | a metal row apart from a node's blocks is not among that node's batch rows |
| Residual.NodeLimitedMetalRow | src/solver/ddm2/ddm2_boundary_resistance_ohmic.cc:353-354 | a node's limited rows add exactly its injected current to its metal row |
| Residual.LimitedMetalRow | src/solver/ddm2/ddm2_boundary_resistance_ohmic.cc:353-383 | after the limited pass a node's metal row has gained its injected current if it is owned, and nothing otherwise |
| Residual.InfiniteMetalRow | src/solver/ddm2/ddm2_boundary_resistance_ohmic.cc:557-588 | after the infinite pass a node's metal row has gained the current built from its buffer entry if it is owned, and nothing otherwise; the batch never touches it |
| Jacobian.Replay | src/solver/ddm2/ddm2_boundary_resistance_ohmic.cc:951-954 | the replay loop adds every buffered triple, in buffer order |
| Jacobian.AddDisplacement | src/solver/ddm2/ddm2_boundary_resistance_ohmic.cc:1056-1087 | the displacement loop adds to the metal row two derivatives per neighbour: at the node and at the neighbour |
| Jacobian.AddInsulators | src/solver/ddm2/ddm2_boundary_resistance_ohmic.cc:1090-1110 | each insulator node's two continuity rows get -1 at the metal column and +1 at its own |
| Jacobian.AddNode | src/solver/ddm2/ddm2_boundary_resistance_ohmic.cc:1040-1110 | one owned node adds its four equation rows, then the displacement entries in a transient step, then its insulator entries |
| Jacobian.JacobianInfinite | src/solver/ddm2/ddm2_boundary_resistance_ohmic.cc:942-1116 | the pass adds the replayed triples first, then the entries of every owned node in node order |
| Jacobian.ReplayEntriesInOrder | src/solver/ddm2/ddm2_boundary_resistance_ohmic.cc:951-954 | the replay holds four entries per triple, and entry 4k+j is the j-th column and value of triple k on its row |
| Jacobian.ReplayLength | src/solver/ddm2/ddm2_boundary_resistance_ohmic.cc:953 | every triple is replayed once, with four entries |
| Jacobian.ReplayEntryOfTriple | src/solver/ddm2/ddm2_boundary_resistance_ohmic.cc:953 | every replayed entry comes from one buffered triple |
| Jacobian.ReplayOfHarvest | src/solver/ddm2/ddm2_boundary_resistance_ohmic.cc:653-709 | every replayed harvested entry lies on an owned node's metal row, at a column of its own or a neighbour's block, with the current derivative there |
| Jacobian.NodeEntriesInOwnRows | src/solver/ddm2/ddm2_boundary_resistance_ohmic.cc:1040-1110 | a node only writes its semiconductor rows, its metal row and its insulator rows |
| Jacobian.EquationEntriesInRows | src/solver/ddm2/ddm2_boundary_resistance_ohmic.cc:1040-1052 | the four `add_row` calls write rows semi+0..semi+3 only |
| Jacobian.DisplacementEntriesInMetalRow | src/solver/ddm2/ddm2_boundary_resistance_ohmic.cc:1084-1085 | displacement derivatives go to the metal row only |
| Jacobian.InsulatorEntriesInRows | src/solver/ddm2/ddm2_boundary_resistance_ohmic.cc:1102-1108 | insulator derivatives go to insulator rows only |
| Jacobian.AssemblyInOwnedRows | src/solver/ddm2/ddm2_boundary_resistance_ohmic.cc:963-966 | everything added after the replay lies on a row of some owned node |
| Terminal.MeanWithinBounds | src/solver/ddm2/ddm2_boundary_resistance_ohmic.cc:1144 | the reported potential of a non-empty gather lies between the smallest and largest gathered potential |
| Terminal.MeanOfConstant | src/solver/ddm2/ddm2_boundary_resistance_ohmic.cc:1144 | an equipotential metal side reports its potential |
| Terminal.GatheredAround | src/solver/ddm2/ddm2_boundary_resistance_ohmic.cc:1143 | the gathered list is the lists of the processors below, then the local list, then those above |
| Terminal.GatheredTotal | src/solver/ddm2/ddm2_boundary_resistance_ohmic.cc:1143 | gathering from a range of processors collects as many values as they own nodes, with the same sum |
| Terminal.GatheredCoversAllNodes | src/solver/ddm2/ddm2_boundary_resistance_ohmic.cc:1131-1143 | when every node has an owner, the gather holds one value per boundary node, with the same sum as the node values |
| Terminal.ScaleSum | src/solver/ddm2/ddm2_boundary_resistance_ohmic.cc:386 | scaling every current by `z_width` scales their sum |
| Terminal.RankTotalsSum | src/solver/ddm2/ddm2_boundary_resistance_ohmic.cc:1125 | the per-processor sums of a range of processors add up to the values of the nodes they own |
| Terminal.TerminalCurrent | src/solver/ddm2/ddm2_boundary_resistance_ohmic.cc:1125 | after `Parallel::sum` every processor holds `z_width` times the sum of all boundary nodes' currents, each counted once |
| Terminal.TerminalPotential | src/solver/ddm2/ddm2_boundary_resistance_ohmic.cc:1127-1144 | after the gather every processor reports the mean metal potential of all boundary nodes, each counted once |
| OhmicBC.MetalOhmicBC.FunctionPreprocess | src/solver/ddm2/ddm2_boundary_resistance_ohmic.cc:70-173 | the caller's lists grow by the owned nodes' rows; with infinite recombination the current buffer is reset and then holds `f[semi+2]-f[semi+1]` of each owned node, in node order; nothing else changes |
| OhmicBC.MetalOhmicBC.JacobianPreprocess | src/solver/ddm2/ddm2_boundary_resistance_ohmic.cc:600-751 | with infinite recombination the three buffers are reset and refilled with the owned nodes' triples, then the caller's lists grow by the owned nodes' rows; the buffers stay replayable |
| OhmicBC.MetalOhmicBC.Function | src/solver/ddm2/ddm2_boundary_resistance_ohmic.cc:179-592 | the residual gains the contact's rows for the regime, and `current` becomes `z_width` times the sum of the owned nodes' injected currents |
| OhmicBC.MetalOhmicBC.JacobianInfiniteRecombination | src/solver/ddm2/ddm2_boundary_resistance_ohmic.cc:942-1116 | the Jacobian gains the buffered triples first, then every owned node's entries |
| OhmicBC.MetalOhmicBC.UpdateSolution | src/solver/ddm2/ddm2_boundary_resistance_ohmic.cc:1123-1145 | `current` becomes the sum over all processors and `psi` the mean of the gathered metal potentials, 0 when there are none |
| OhmicBC.BufferedInjects | src/solver/ddm2/ddm2_boundary_resistance_ohmic.cc:118-149 | the buffer the preprocessing fills makes the infinite pass inject, for every owned node, its own conduction current minus its displacement current |
| OhmicBC.InfiniteTerminalCurrent | src/solver/ddm2/ddm2_boundary_resistance_ohmic.cc:585 | with infinite recombination the terminal current after the update is `z_width` times all boundary nodes' injected currents, each counted once |

## Left out

- The physics: built-in potential, equilibrium and Fermi-pinned densities, recombination velocities, BDF1/BDF2 storage and displacement terms. These are floating-point formulas over material-model functions that are not part of this model. Their values enter as `NodeTerms` parameters.
- The derivative values of the automatic differentiation (`AutoDScalar` slots). They enter as `NodeGradients` and `DisplacementSlots` parameters. Only where the derivatives go, and the constant derivatives of the temperature and insulator continuity equations, are modelled.
- The limited-recombination Jacobian pass (`_DDM2_Jacobian_Limited_Recombination`, 758-940) is not modelled. It writes its own layout: `add_row` on semi+0 and semi+3 only, single diagonal entries at semi+1 and semi+2, the emission derivatives and, in a transient step, the storage derivatives on the metal row at semi+1 and semi+2. Its skip of nodes another processor owns (780) is not covered either. The `DDM2_Jacobian` dispatcher is modelled only for infinite recombination: `OhmicBC.MetalOhmicBC.JacobianInfiniteRecombination` requires `infinite`.
- PETSc assembly state: `VecAssemblyBegin/End` and the `add_value_flag` insert mode. Every insertion is modelled as an addition to a map.
- `Parallel::sum` and `Parallel::allgather`. What the other processors contribute is a parameter of `UpdateSolution`, and the lemmas state what those parameters are when every processor ran the same passes.
- Region `dynamic_cast`s and `genius_assert`. Boundary nodes are given with their semiconductor and metal nodes.
- Local and global offsets are identified: the source reads `x` at local offsets and writes `f` at global ones, and the model uses one offset for both.
- `get_row` reads only the locally stored block. The model reads every entry of the map, with absent entries read as zero.
- Floating point: values are mathematical reals, so the summation order of `std::accumulate` and of the collective sum does not matter here.
- OhmicBC.MetalOhmicBC.Function: with infinite recombination it requires a buffer entry for every owned node. The source reads `_current_buffer[i++]` without a check, and an out-of-range read is not modelled.
