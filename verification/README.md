# Verification of the Tala compiler's analyses and protocols

This project models, in Dafny 4.11, the parts of the Tala compiler whose answers other stages
treat as proofs, and proves what they promise. `dafny verify dfyconfig.toml` checks everything.

## What is modelled

**Control flow.** `ControlFlow` cleans a possibly malformed block list into an edge map and walks
it with an explicit stack; `DepthFirst` holds the invariant of such walks and the facts about
finish orders. `Graphs` and `ReachableGraph` are the vocabulary: paths, reachability, edge maps.

**Structure.** `DominanceTheory` and `DominanceSets` hold the dominator iteration, immediate
parents and frontiers for one root or many; `BackwardSearch` the backward floods (exit
reachability, natural loops); `Components` and `Regions` the two-pass strongly connected
components and the irreducible regions; `Dominance` the analysis that puts them together for
dominance and post-dominance; `ControlDependence` what follows from it. Every answer is proved
equal to its definition over paths.

**Dataflow.** `Worklist` is the queue with its counters, `Scheduling` the cost of a run,
`DenseBits` the packed sets. `Liveness` runs backwards (`LivenessTheory` gives its path meaning);
`DefiniteInitialization` and `OwnershipFlow` run forwards over the shared theory in `ForwardFlow`
(`InitializationTheory`, `OwnershipTheory`, `OwnershipGuarantee`). `LivenessPruning` gives programs
a meaning and shows that erasing what the analysis does not retain preserves it. `LivenessMeaning`,
`InitializationMeaning` and `OwnershipMeaning` say what the answers mean for the accesses and actions
an execution performs, without transfer functions or sets, and prove both directions.

**Parity of lowerings.** `PreorderNumbering`, `SymbolRenaming`, `CorePrepModel` and
`CorePrepParity`: the canonical form decides whether two modules are the same but for block
identities, unreachable blocks and generated names. `CorePrepComparison` is the check as it runs,
and `CorePrepBehaviour` gives modules an execution semantics in which modules without a difference
cannot be told apart. `CorePrepMeaning` says field by field what no difference means, `SymbolKinds`
what the kind of a symbol is and that renumbering leaves no difference.

**Core.** `CoreVerifier` is the verifier in its recursive formulation, with one flat scope copied
at every region; `CoreVerifierWalk` is the verifier as it runs, with environments that refer to the
one around them and loops along else-if links and first operands. Both report the same issues in
the same order, and `CoreVerifier.AcceptedModuleReturns` says what acceptance means for executions.
`CoreVerifierMeaning` is the judgement behind the issues: the places of a program, each with the
definitions around it, and what can be wrong there. `CoreModuleMeaning` proves that the issues of a
module are exactly its faults, and `CoreSoundness` what holds everywhere in a module without any.
`FallThrough` gives statements an execution semantics and proves the fall-through check sound for
it; `FallThroughExactness` says for which bodies it is exact. `TypeIdentity` proves that the textual
identity of a type is exactly its meaning, and `SpecializationTable` that the intern table is right
in every interleaving of its callers.

**Wire and diagnostics.** `WireFormat`, `WireTypes` and `WireLiterals` are the fields of the artifact
wire as functions from one writer or reader state to the next; `WireSupport` holds the writer and the
reader as classes with those states. `CoreScalars` is the scalar catalog and its literals.
`DiagnosticProtocol` is the diagnostic document over these fields, `DiagnosticStreams` drives a
writer or reader through it, and `DiagnosticCollection` is the accumulator that tells records apart
by their bytes. Writing and reading are inverse to each other in both directions. `WireLayout`,
`WireReading` and `DiagnosticLayout` tell the octets of every value apart from any codec: a writer
succeeds exactly for what is allowed and appends exactly these octets, and a reader accepts nothing else.
`WireErrors` says which error comes first, and at which octet.

**Artifacts and arithmetic.** `ProjectArtifacts` is the replace-and-roll-back protocol over every
schedule of failing file operations, `Utf8Names` the encoder and checker of names (section 3 of
RFC 3629), `GeneratorArithmetic` the emitted rounding division and power loop over bit patterns of
any width.

## What the proofs found

- Ownership flow fixes the entry facts, so a reachable edge back to the entry is ignored. The
  guarantee of `Documents/OWNERSHIP-FLOW.md` (no release of a handle that was released) then
  fails: `OwnershipGuarantee.GivesUpAtEntry` releases a handle in an entry block that loops to
  itself and is accepted. The guarantee holds for every function on a graph if and only if no
  reachable block leads back to the entry. Definite initialization fixes its entry facts in the
  same way and loses nothing, because writes only ever add.
- The frontier loop skips joins with fewer than two incoming edges, so an entry with exactly one
  incoming edge is in no frontier. The frontiers are the textbook ones if and only if no root has
  exactly one incoming edge.
- The control-dependence loop leaves out edges from a block to itself; the separately computed
  post-dominance frontier does not.
- The header of the dominance analysis says that the exits of a natural loop are the blocks the
  leaving edges start from. The code stores the targets of those edges, and the model follows it.
- The header of the control-flow analysis speaks of successors in declared order; the facts list
  them sorted, and the model follows the code.
- Two types that differ only in payload their kind does not use have the same identity
  (`TypeIdentity.SparePayloadIsNotIdentity`). The type identity is exactly the meaning without that
  payload.
- The wire, too, drops payload that the kind of a type does not use; only scalars with payload and
  named types with components are refused. A type comes back unchanged if and only if it has none:
  `WireTypes.SparePayloadIsLost`, `WireTypes.ReadBackUnchanged`. Two types have the same bytes
  exactly when they have the same textual identity.
- The fall-through check is sound, and not complete: a break or a test that no execution reaches
  misleads it (`FallThroughExactness.RefusedButNeverFalls`). It is exact for a loop if and only if the
  loop is tidy, and for a body if and only if the body is clear (`FallThroughExactness.ExactIffClear`);
  for bodies of tidy loops it accepts exactly those that never fall off their end.
- The parity check compares the kind of a generated symbol where it is used first and nowhere else.
  Where one identity always has one kind, as lowering spells them, that is every use.

## Conventions

Identities of blocks, storage, handles and symbols are unbounded naturals: the code compares and
orders them and never computes with them. Containers whose iteration order the code does not rely
on are sets and maps. A bit mask of ownership states is the set of its bits. Where a method returns
ghost results beside its real ones, they name the mathematical facts its contract speaks about.

## Model

| member | source | states |
|---|---|---|
| ControlFlow.CatalogBlocks | Talac/Analysis/ControlFlow.cpp:20-34 | the first record of an identity wins; repeats and a missing entry are reported in order |
| ControlFlow.ResolveTargets | Talac/Analysis/ControlFlow.cpp:36-72 | a target is kept once if it exists and reported each time if it does not |
| ControlFlow.ValidSuccessors | Talac/Analysis/ControlFlow.cpp:36-72 | the edge map of the first records, and the missing targets in block order |
| ControlFlow.BuildPredecessors | Talac/Analysis/ControlFlow.cpp:74-94 | the exact converse of the edges, each list ascending |
| ControlFlow.Traverse | Talac/Analysis/ControlFlow.cpp:102-140 | the explicit frame stack visits exactly the reachable blocks, in recursive preorder, and its postorder is a depth-first finish order |
| ControlFlow.BuildFacts | Talac/Analysis/ControlFlow.cpp:142-170 | one record a block: reachability, sorted successors, sorted reachable predecessors |
| ControlFlow.AnalyzeControlFlow | Talac/Analysis/ControlFlow.cpp:173-188 | the whole result describes the graph: issues, both orders and all facts |
| ControlFlow.IssueMeaning | Talac/Analysis/ControlFlow.cpp:20-72 | each kind of issue is reported exactly for the defect it names |
| ControlFlow.EdgeMeaning | Talac/Analysis/ControlFlow.cpp:36-72 | the edges of a block are the existing targets of the first record of its identity |
| ControlFlow.TargetsInOrder | Talac/Analysis/ControlFlow.cpp:36-72 | targets keep the order in which they are first named |
| ControlFlow.ValidIffWellFormed | Talac/Analysis/ControlFlow.cpp:20-72 | no issue if and only if identities are unique and entry and targets exist |
| ControlFlow.ReversePostorderFollowsEdges | Talac/Analysis/ControlFlow.cpp:102-140 | reverse postorder visits the source of an edge first unless the edge closes a cycle |
| ControlFlow.PresentationIsIrrelevant | Talac/Analysis/ControlFlow.cpp:173-188 | permuting the blocks of a well-formed graph changes no issue, no preorder and no fact |
| DepthFirst.EarlierReachesBack | Talac/Analysis/Dominance.cpp:311-373 | what finished earlier and reaches a block, within what had finished, is reached back: the heart of the two-pass component search |
| DepthFirst.VisitSplit | Talac/Analysis/ControlFlow.cpp:102-140 | in recursive preorder everything below the first targets comes before anything below the later ones |
| DepthFirst.EdgeFinishesEarlier | Talac/Analysis/ControlFlow.cpp:102-140 | along an edge the finish order falls unless the edge closes a cycle |
| ReachableGraph.ReachableEdges | Talac/Analysis/Dominance.cpp:31-42 | the reachable part of the graph in either direction, from the records |
| DominanceTheory.DominatorsFormChain | Talac/Analysis/Dominance.cpp:117-147 | the path dominators of a block form a chain, with one root or many |
| DominanceTheory.SolutionIsDominance | Talac/Analysis/Dominance.cpp:74-115 | a family above the dominators that solves every equation is exactly path dominance |
| DominanceSets.IntersectInputs | Talac/Analysis/Dominance.cpp:54-72 | the intersection over the inputs, or the fallback without inputs |
| DominanceSets.ComputeDominatingSets | Talac/Analysis/Dominance.cpp:74-115 | the in-place iteration ends with d in the set of n exactly when every path from a root to n passes d |
| DominanceSets.DeepestIsClosest | Talac/Analysis/Dominance.cpp:117-147 | the strict dominator with the largest dominating set is dominated by all others |
| DominanceSets.ImmediateParents | Talac/Analysis/Dominance.cpp:117-147 | each node gets its closest strict dominator, or none exactly when it has none |
| DominanceSets.ParentsAreUnique | Talac/Analysis/Dominance.cpp:117-147 | the immediate parents are determined: there is one such map |
| DominanceSets.Run | Talac/Analysis/Dominance.cpp:149-178 | one walk up the parents adds the join to exactly the blocks that dominate the predecessor and do not strictly dominate the join |
| DominanceSets.ComputeFrontiers | Talac/Analysis/Dominance.cpp:149-178 | the frontiers over all joins with at least two incoming edges |
| DominanceSets.FrontiersAreTextbookIff | Talac/Analysis/Dominance.cpp:149-178 | they are the textbook frontiers exactly when no root has a single incoming edge |
| BackwardSearch.EveryReachableBlockCanReachAnExit | Talac/Analysis/Dominance.cpp:197-220 | true exactly when there is an exit and every block reaches one |
| BackwardSearch.NaturalLoopMembers | Talac/Analysis/Dominance.cpp:229-251 | the blocks that reach the latch without passing the header, and the header |
| BackwardSearch.HeaderDominatesLoop | Talac/Analysis/Dominance.cpp:229-251 | a header that dominates its latch dominates the whole loop |
| BackwardSearch.LoopExits | Talac/Analysis/Dominance.cpp:253-268 | the targets of the edges that leave the members |
| Components.FinishOrder | Talac/Analysis/Dominance.cpp:311-341 | the iterative search over all nodes yields a finish order of all of them |
| Components.Gather | Talac/Analysis/Dominance.cpp:343-373 | one backward sweep takes exactly the untaken blocks that reach the start through untaken ones |
| Components.StronglyConnectedComponents | Talac/Analysis/Dominance.cpp:343-373 | a partition of the nodes into exactly the mutual-reachability classes |
| Components.IsCyclicComponent | Talac/Analysis/Dominance.cpp:375-388 | true exactly when the members lie on cycles |
| Components.RegionEntries | Talac/Analysis/Dominance.cpp:390-407 | the members with a predecessor outside the component |
| Components.HeaderMeans | Talac/Analysis/Dominance.cpp:409-418 | true exactly when some member dominates all members |
| Components.IrreducibleIffTwoEntries | Talac/Analysis/Dominance.cpp:409-442 | a component has no dominating header exactly when it has two entries, and then it does not hold the graph entry |
| Regions.FindNaturalLoops | Talac/Analysis/Dominance.cpp:270-303 | one sorted record for every back edge, with its members and exit targets |
| Regions.FindIrreducibleRegions | Talac/Analysis/Dominance.cpp:420-442 | the records are exactly the cyclic components with two or more entries, sorted |
| Dominance.FindExits | Talac/Analysis/Dominance.cpp:186-195 | the reachable blocks without successors, ascending |
| Dominance.Analyze | Talac/Analysis/Dominance.cpp:507-570 | sets, parents and frontiers of one direction together |
| Dominance.AddLoopFact | Talac/Analysis/Dominance.cpp:444-464 | the depth is the number of loops around a block, the headers are theirs, ascending |
| Dominance.BuildBlockFacts | Talac/Analysis/Dominance.cpp:466-504 | one record a block with its dominators, post-dominators, parents and frontiers |
| Dominance.AnalyzeDominance | Talac/Analysis/Dominance.cpp:507-578 | the whole result describes the graph; post-dominance is available only when every reachable block reaches an exit |
| Dominance.FactsFor | Talac/Analysis/Dominance.cpp:580-591 | the record of a block, or none when there is none |
| Dominance.DominatesIsPathDominance | Talac/Analysis/Dominance.cpp:593-609 | the query is path dominance: reachable, and on every path from the entry |
| Dominance.PostDominatesIsPathPostDominance | Talac/Analysis/Dominance.cpp:611-629 | the query is path post-dominance to any exit where available, and false elsewhere |
| Dominance.StrictQueriesArePathQueries | Talac/Analysis/Dominance.cpp:603-629 | the strict queries leave out the block itself and nothing else |
| ControlDependence.PostDominatorChain | Talac/Analysis/ControlDependence.cpp:18-36 | the walk yields exactly the blocks that post-dominate the successor and not strictly the controller |
| ControlDependence.EdgesOf | Talac/Analysis/ControlDependence.cpp:38-75 | one record for every successor and dependent of a branch |
| ControlDependence.BuildEdges | Talac/Analysis/ControlDependence.cpp:38-75 | the records are exactly the control dependences over edges to other blocks, sorted and distinct |
| ControlDependence.BuildFacts | Talac/Analysis/ControlDependence.cpp:77-104 | each block lists its controllers and dependents, as the edges say |
| ControlDependence.AnalyzeControlDependence | Talac/Analysis/ControlDependence.cpp:107-118 | the whole result: unavailable without post-dominance, otherwise exact |
| ControlDependence.FrontierIsControlDependence | Talac/Analysis/ControlDependence.cpp:38-75 | control dependence and the separately computed post-dominance frontier agree, apart from self-loops |
| Worklist.DataflowWorklist.constructor | Talac/Analysis/Worklist.cpp:28-50 | starts with the reachable blocks in propagation order and counts them |
| Worklist.DataflowWorklist.Schedule | Talac/Analysis/Worklist.cpp:52-61 | enqueues a reachable block that does not wait yet; keeps scheduled = evaluated + pending |
| Worklist.DataflowWorklist.Next | Talac/Analysis/Worklist.cpp:63-73 | first in, first out; counts the evaluation |
| Worklist.DataflowWorklist.NotifyChanged | Talac/Analysis/Worklist.cpp:75-87 | enqueues every affected block in order |
| Scheduling.SeededFor | Talac/Analysis/Worklist.cpp:28-50 | every reachable block waits once at the start, and changes travel along the reachable edges |
| Scheduling.AccountBounds | Talac/Analysis/Worklist.cpp:52-87 | a run schedules at most one visit a block and one for every bit and edge |
| DenseBits.DenseBitSet.constructor | Talac/Analysis/DenseBitSet.cpp:23-25 | the empty or the full set of the universe |
| DenseBits.DenseBitSet.Size | Talac/Analysis/DenseBitSet.cpp:38-42 | the size of the universe |
| DenseBits.DenseBitSet.None | Talac/Analysis/DenseBitSet.cpp:50-54 | true exactly for the empty set |
| DenseBits.DenseBitSet.Any | Talac/Analysis/DenseBitSet.cpp:56-60 | true exactly for a set with a member |
| DenseBits.DenseBitSet.Count | Talac/Analysis/DenseBitSet.cpp:62-66 | the number of members |
| DenseBits.DenseBitSet.Test | Talac/Analysis/DenseBitSet.cpp:68-72 | membership, false outside the universe |
| DenseBits.DenseBitSet.Set | Talac/Analysis/DenseBitSet.cpp:74-79 | adds an index of the universe, nothing outside |
| DenseBits.DenseBitSet.Reset | Talac/Analysis/DenseBitSet.cpp:81-86 | removes an index |
| DenseBits.DenseBitSet.Assign | Talac/Analysis/DenseBitSet.cpp:88-95 | sets or resets one index and no other |
| DenseBits.DenseBitSet.Clear | Talac/Analysis/DenseBitSet.cpp:97-101 | the empty set of the same universe |
| DenseBits.DenseBitSet.Fill | Talac/Analysis/DenseBitSet.cpp:103-107 | the full set of the same universe |
| DenseBits.DenseBitSet.UnionWith | Talac/Analysis/DenseBitSet.cpp:109-118 | union, refused without a change for another universe |
| DenseBits.DenseBitSet.IntersectWith | Talac/Analysis/DenseBitSet.cpp:120-129 | intersection, refused without a change for another universe |
| DenseBits.DenseBitSet.Subtract | Talac/Analysis/DenseBitSet.cpp:131-140 | difference, refused without a change for another universe |
| DenseBits.DenseBitSet.SetIndices | Talac/Analysis/DenseBitSet.cpp:142-149 | the members in ascending order |
| DenseBits.NamedInjective | Talac/Analysis/Liveness.cpp:65-73 | packed facts are equal exactly when they name the same identities |
| DenseBits.Visible | Talac/Analysis/Liveness.cpp:65-73 | the named identities in ascending order |
| Liveness.BuildStorageCatalog | Talac/Analysis/Liveness.cpp:35-63 | a sorted catalogue without duplicates that covers every storage of the function |
| Liveness.Apply | Talac/Analysis/Liveness.cpp:106-123 | the bits before an access: a removable write to dead storage asks for nothing |
| Liveness.Transfer | Talac/Analysis/Liveness.cpp:125-133 | the accesses applied from last to first |
| Liveness.ExitFacts | Talac/Analysis/Liveness.cpp:135-146 | the union of what the successors need |
| Liveness.ComputeFixedPoint | Talac/Analysis/Liveness.cpp:148-181 | liveness exactly as demanded along paths, within N + 2 B E evaluations |
| LivenessTheory.LivenessIsLeast | Talac/Analysis/Liveness.cpp:148-181 | whatever the order of evaluation, the least solution of the equations |
| LivenessTheory.SolutionIsLiveness | Talac/Analysis/Liveness.cpp:148-181 | a solution that records only demanded storage is exactly path liveness |
| Liveness.BuildAccessFacts | Talac/Analysis/Liveness.cpp:183-210 | an access is retained exactly when it is no removable write to storage dead after it; live vectors around it |
| LivenessMeaning.FactsAreLiveness | Talac/Analysis/Liveness.cpp:106-181 | at every position the facts hold exactly the storage that some execution reads, in a needed access, before it is written |
| LivenessMeaning.BlockFactsAreLiveness | Talac/Analysis/Liveness.cpp:135-181 | the same on entry to and exit of every block |
| LivenessMeaning.RetainedIffNeeded | Talac/Analysis/Liveness.cpp:183-210 | an access is retained exactly when it is needed: it writes nothing, may not be removed, or its destination is live after it |
| Liveness.BuildFacts | Talac/Analysis/Liveness.cpp:212-264 | one sorted record a block; nothing is erased from a block that cannot execute |
| Liveness.Analyze | Talac/Analysis/Liveness.cpp:267-286 | the whole analysis: the issues of the graph and records about path liveness |
| LivenessPruning.PruningPreservesMeaning | Talac/Analysis/Liveness.cpp:183-210 | erasing every access that is not retained keeps, for runs of any length, the blocks taken and the values every retained access reads |
| LivenessPruning.ObservableIsRetained | Talac/Analysis/Liveness.cpp:183-210 | effects and stores without permission to be removed are never erased |
| LivenessPruning.PrunedLiveSets | Talac/Analysis/Liveness.cpp:148-210 | the pruned function has the same live sets |
| LivenessPruning.OnePassIsEnough | Talac/Analysis/Liveness.cpp:183-210 | analysing the pruned function again retains everything: dead chains of any length go in one pass |
| ForwardFlow.FlowIsLeast | Talac/Analysis/DefiniteInitialization.cpp:222-268 | whatever the order of evaluation, the least set of facts that solves the forward equations, so the greatest set of initialized storage |
| ForwardFlow.PartialEnds | Talac/Analysis/DefiniteInitialization.cpp:222-268 | when nothing waits, the facts solve every equation and are exactly what some path establishes |
| DefiniteInitialization.BuildStorageCatalog | Talac/Analysis/DefiniteInitialization.cpp:46-77 | the declared storage, sorted; every repetition is reported in order |
| DefiniteInitialization.AppendControlFlowIssues | Talac/Analysis/DefiniteInitialization.cpp:100-138 | every graph issue at its place; a missing target at the terminator |
| DefiniteInitialization.InitialStorage | Talac/Analysis/DefiniteInitialization.cpp:150-172 | the declared initial storage; what is not declared is reported |
| DefiniteInitialization.TransferWrites | Talac/Analysis/DefiniteInitialization.cpp:174-184 | whatever the accesses write is no longer missing |
| DefiniteInitialization.IncomingFacts | Talac/Analysis/DefiniteInitialization.cpp:186-220 | the entry is fixed; any other block misses what some predecessor misses |
| DefiniteInitialization.ComputeFixedPoint | Talac/Analysis/DefiniteInitialization.cpp:222-268 | exactly the storage missing along some path, within N + 2 B E evaluations |
| DefiniteInitialization.ValidateAccesses | Talac/Analysis/DefiniteInitialization.cpp:270-318 | the reports of all reachable accesses, in preorder and program order |
| DefiniteInitialization.BuildFacts | Talac/Analysis/DefiniteInitialization.cpp:332-353 | one record a block with the initialized storage on entry and exit |
| DefiniteInitialization.Analyze | Talac/Analysis/DefiniteInitialization.cpp:356-383 | the whole analysis: all issues in order, all records, and the evaluation bound |
| InitializationTheory.TraceIsMissing | Talac/Analysis/DefiniteInitialization.cpp:186-220 | going back through the entry uncovers nothing more: fixing the entry loses no path |
| DefiniteInitialization.InitializedOnEveryPath | Talac/Analysis/DefiniteInitialization.cpp:222-268 | storage is recorded on entry to a block exactly when every path from the entry initializes it first |
| InitializationTheory.ReportedIffReadTooEarly | Talac/Analysis/DefiniteInitialization.cpp:270-318 | a read is reported exactly when some path reaches it with its storage neither given nor written |
| InitializationTheory.NoReportNoEarlyRead | Talac/Analysis/DefiniteInitialization.cpp:270-318 | without a report no path reads declared storage before it is initialized |
| InitializationMeaning.InitializedIffWritten | Talac/Analysis/DefiniteInitialization.cpp:186-268 | storage is recorded on entry to a block exactly when on every path the caller gives it or some access writes it |
| InitializationMeaning.AccessReportMeaning | Talac/Analysis/DefiniteInitialization.cpp:270-318 | a report about an access is made exactly for a read or write of undeclared storage, or for a read that some path reaches without a write |
| InitializationMeaning.StructuralReportMeaning | Talac/Analysis/DefiniteInitialization.cpp:46-172 | every report about the graph and the declarations names exactly its defect, at its place |
| InitializationMeaning.ReportMeaning | Talac/Analysis/DefiniteInitialization.cpp:356-383 | the whole list holds exactly the reports of both sorts |
| OwnershipFlow.PackedState.constructor | Talac/Analysis/OwnershipFlow.cpp:47-58 | every handle starts in the given states |
| OwnershipFlow.PackedState.At | Talac/Analysis/OwnershipFlow.cpp:60-71 | the states of a handle, gathered from the five bit sets; absent outside the universe |
| OwnershipFlow.PackedState.Assign | Talac/Analysis/OwnershipFlow.cpp:73-82 | replaces the states of one handle and of no other |
| OwnershipFlow.PackedState.UnionWith | Talac/Analysis/OwnershipFlow.cpp:84-89 | the union of the states of every handle |
| OwnershipFlow.BuildHandleCatalog | Talac/Analysis/OwnershipFlow.cpp:186-208 | all nonzero handles, sorted, once each |
| OwnershipFlow.InitialState | Talac/Analysis/OwnershipFlow.cpp:210-249 | the kinds the caller gives, absent otherwise; zero handles and conflicting kinds are reported |
| OwnershipFlow.Apply | Talac/Analysis/OwnershipFlow.cpp:251-283 | one action on the packed states, in place |
| OwnershipFlow.Transfer | Talac/Analysis/OwnershipFlow.cpp:285-293 | all actions of a block in order |
| OwnershipFlow.JoinPredecessors | Talac/Analysis/OwnershipFlow.cpp:295-320 | the entry is fixed; any other block unites what its predecessors leave |
| OwnershipFlow.ComputeFixedPoint | Talac/Analysis/OwnershipFlow.cpp:322-362 | exactly the facts some path establishes, within N + 10 H E evaluations for H handles |
| OwnershipTheory.MaskIsExact | Talac/Analysis/OwnershipFlow.cpp:251-362 | the mask of a handle on entry to a block is the set of states that paths which do not come back to the entry leave it in, and is never empty |
| OwnershipGuarantee.VerdictMeaning | Talac/Analysis/OwnershipFlow.cpp:364-408 | a use is accepted exactly when its mask is the expected state alone or absence alone; what each diagnostic means |
| OwnershipFlow.ValidateRequirement | Talac/Analysis/OwnershipFlow.cpp:371-408 | reports the verdict at the use |
| OwnershipFlow.ValidateActions | Talac/Analysis/OwnershipFlow.cpp:410-446 | the reports of all reachable actions, in preorder and program order |
| OwnershipGuarantee.ReportedIffPathsDisagree | Talac/Analysis/OwnershipFlow.cpp:371-446 | a use draws a report exactly when the states the paths bring are neither all expected nor all absent |
| OwnershipGuarantee.GuaranteeHoldsIffEntryIsFresh | Talac/Analysis/OwnershipFlow.cpp:295-320 | acceptance means that no execution uses a handle it gave up, for every function on a graph, exactly when no reachable block leads back to the entry |
| OwnershipGuarantee.BackEdgeIsUnsafe | Talac/Analysis/OwnershipFlow.cpp:295-320 | a way back to the entry lets a handle be given up twice without a report |
| OwnershipGuarantee.NoReportIsSafe | Talac/Analysis/OwnershipFlow.cpp:517-544 | without a report, and without a way back to the entry, every use on every path finds its expected state or absence |
| OwnershipMeaning.StateTellsHistory | Talac/Analysis/OwnershipFlow.cpp:251-283 | a handle is consumed exactly when some action gave it up and none defined or forgot it since; otherwise its state is what the last such action left |
| OwnershipMeaning.InitialMaskIsBrought | Talac/Analysis/OwnershipFlow.cpp:210-249 | the states at the start are the kinds the caller lists for a handle, or absence |
| OwnershipMeaning.NoUseAfterGivingUp | Talac/Analysis/OwnershipFlow.cpp:410-446 | without a report, and without a way back to the entry, no execution observes or consumes a handle after giving it up unless it was defined or forgotten in between |
| OwnershipMeaning.ReportMeaning | Talac/Analysis/OwnershipFlow.cpp:364-446 | a report about an action is made exactly for an action on no handle, or an observing or consuming one whose handle paths bring in disagreeing states, with these states |
| OwnershipMeaning.StatesAreHistories | Talac/Analysis/OwnershipFlow.cpp:251-362 | the states of a report are those in which the histories of the paths leave the handle |
| OwnershipMeaning.StructuralReportMeaning | Talac/Analysis/OwnershipFlow.cpp:136-249 | every report about the graph and the entry handles names exactly its defect, at its place |
| OwnershipFlow.BuildFacts | Talac/Analysis/OwnershipFlow.cpp:465-487 | one record a block with the states of every handle around it |
| OwnershipFlow.Analyze | Talac/Analysis/OwnershipFlow.cpp:517-544 | the whole analysis: all issues in order, all records, and the evaluation bound |
| SymbolRenaming.KindOf | Talac/Fuzzing/CorePrepParity.cpp:34-42 | a spelling without its trailing digits |
| SymbolKinds.KindMeaning | Talac/Fuzzing/CorePrepParity.cpp:34-42 | the kind is the one text that does not end in a digit and is followed by digits alone |
| SymbolKinds.NumberedKind | Talac/Fuzzing/CorePrepParity.cpp:34-42 | a kind with any number written after it has that kind |
| SymbolKinds.SameKindIff | Talac/Fuzzing/CorePrepParity.cpp:34-42 | numbered spellings have the same kind exactly when they are the same before the number |
| SymbolKinds.RenumberingLeavesNoDifference | Talac/Fuzzing/CorePrepParity.cpp:169-200 | other identities, one to one, and other numbers for the generated symbols leave no difference |
| SymbolRenaming.Renamer.Apply | Talac/Fuzzing/CorePrepParity.cpp:51-72 | a generated symbol is named at its first use and keeps the name; others are untouched |
| SymbolRenaming.NamedAtFirst | Talac/Fuzzing/CorePrepParity.cpp:51-72 | a name has the kind of the first use of its identity |
| SymbolRenaming.RenamingDecidesCorrespondence | Talac/Fuzzing/CorePrepParity.cpp:51-72 | any two lists of symbols become equal exactly when a one-to-one correspondence turns one into the other and every identity has the same kind where it is used first |
| SymbolRenaming.FirstKindsAreAllKinds | Talac/Fuzzing/CorePrepParity.cpp:32-66 | where one identity always has one kind, that is the same kind everywhere |
| PreorderNumbering.NumberBlocks | Talac/Fuzzing/CorePrepParity.cpp:106-136 | the pending stack numbers the blocks as the specification walk does |
| PreorderNumbering.NumberedIffReached | Talac/Fuzzing/CorePrepParity.cpp:106-136 | exactly the reachable blocks are numbered, once each |
| PreorderNumbering.NumberingIsPreorder | Talac/Fuzzing/CorePrepParity.cpp:96-136 | the numbering is the recursive depth-first preorder that takes the true edge first |
| PreorderNumbering.NumberingDecidesIsomorphism | Talac/Fuzzing/CorePrepParity.cpp:96-136 | two graphs get the same numbered exits exactly when an isomorphism with matching edge roles relates them |
| PreorderNumbering.IsomorphismIsPairing | Talac/Fuzzing/CorePrepParity.cpp:96-136 | there is at most one such isomorphism |
| CorePrepParity.CanonicalizeBlocks | Talac/Fuzzing/CorePrepParity.cpp:106-167 | reachable blocks in preorder, targets renumbered, dangling targets kept apart |
| CorePrepParity.CanonicalAlikeIffBodiesAlike | Talac/Fuzzing/CorePrepParity.cpp:96-167 | canonical blocks correspond exactly when an isomorphism pairs blocks that do |
| CorePrepComparison.RenameInstruction | Talac/Fuzzing/CorePrepParity.cpp:182-196 | operands, captures, closure function and destination, in this order, with the names given so far |
| CorePrepComparison.RenameFunction | Talac/Fuzzing/CorePrepParity.cpp:175-197 | symbol, parameters and blocks in visiting order, in place of the symbols found there |
| CorePrepComparison.CanonicalizeModule | Talac/Fuzzing/CorePrepParity.cpp:169-200 | one renamer through all functions, each after its blocks were put in order, gives the canonical form |
| CorePrepComparison.CompareCorePrep | Talac/Fuzzing/CorePrepParity.cpp:278-300 | runs both canonicalizations and reports the first difference |
| CorePrepComparison.FirstDifferenceIs | Talac/Fuzzing/CorePrepParity.cpp:278-300 | nothing is reported exactly for equal modules; otherwise header, number of functions or first function, in this order |
| CorePrepComparison.NothingReportedIffEquivalent | Talac/Fuzzing/CorePrepParity.cpp:278-300 | nothing is reported exactly for equivalent modules |
| CorePrepParity.NoDifferenceIffEquivalent | Talac/Fuzzing/CorePrepParity.cpp:278-300 | for any modules, no difference exactly when they are the same but for block identities, unreachable blocks and generated names of the same kind at first use |
| CorePrepParity.NoDifferenceIffKindsKept | Talac/Fuzzing/CorePrepParity.cpp:278-300 | where one generated identity always has one kind, exactly when the kind of every use is kept |
| CorePrepMeaning.NoDifferenceIffModulesMatch | Talac/Fuzzing/CorePrepParity.cpp:278-300 | no difference exactly when the modules match field by field under one correspondence of symbols and one pairing of blocks along their targets, and kinds agree at first use |
| CorePrepParity.RenumberingIsIsomorphism | Talac/Fuzzing/CorePrepParity.cpp:106-167 | canonical numbering is an isomorphism of the reachable blocks |
| CorePrepParity.CanonicalFormIsCanonical | Talac/Fuzzing/CorePrepParity.cpp:169-200 | the canonical form is equivalent to the module and its own canonical form |
| CorePrepBehaviour.FunctionsRunAlike | Talac/Fuzzing/CorePrepParity.cpp:96-167 | functions that are alike take the same steps, block by block, for any machine, arguments and number of blocks |
| CorePrepBehaviour.InstructionsAlikeMatch | Talac/Fuzzing/CorePrepParity.cpp:182-196 | instructions are alike exactly when shape, operands, captures with their inner symbols, closure function and destination correspond |
| CorePrepBehaviour.BlocksAlikeMatch | Talac/Fuzzing/CorePrepParity.cpp:137-197 | blocks are alike exactly when instructions, terminator kind, value and unused targets are |
| CorePrepBehaviour.EquivalentModulesRunAlike | Talac/Fuzzing/CorePrepParity.cpp:169-200 | equivalent modules cannot be told apart by running them |
| CorePrepBehaviour.NoDifferenceRunsAlike | Talac/Fuzzing/CorePrepParity.cpp:278-300 | two lowerings without a difference behave alike |
| CorePrepBehaviour.CanonicalFormRunsAlike | Talac/Fuzzing/CorePrepParity.cpp:169-200 | canonicalization keeps what every function does |
| FallThrough.CannotBeLeft | Talac/Core/Verifier.cpp:248-283 | the search from a list decides whether a literal-true loop holds no break of its own |
| FallThrough.AlwaysReturns | Talac/Core/Verifier.cpp:290-321 | the loop along else-if chains equals the recursive definition |
| FallThrough.AcceptedNeverFalls | Talac/Core/Verifier.cpp:290-321 | a body that is accepted never falls off its end, however conditions turn out and however deep it nests |
| FallThrough.NoReportNoTransfer | Talac/Core/Verifier.cpp:416-465 | without a report nothing outside a loop breaks or continues |
| FallThrough.EveryEndReturns | Talac/Core/Verifier.cpp:110-147 | an accepted body without a transfer report ends only by returning |
| FallThroughExactness.CanIffEndsBy | Talac/Core/Verifier.cpp:248-321 | how executions of a list can end is decided by its structure, at any depth |
| FallThroughExactness.ExactIffClear | Talac/Core/Verifier.cpp:290-321 | the check is exact for a body exactly when the body is clear: up to a statement that decides, every loop shows what it does |
| FallThroughExactness.LoopExactIffTidy | Talac/Core/Verifier.cpp:248-283 | for a single loop exactly when a break it has can be reached, or its test, or a break, where it does not test the literal true |
| FallThroughExactness.TidyBodiesAreDecided | Talac/Core/Verifier.cpp:290-321 | a body of tidy loops without stray transfers is accepted exactly when no execution falls off its end |
| FallThroughExactness.RefusedButNeverFalls | Talac/Core/Verifier.cpp:248-321 | both ways of being untidy: a break and a test that no execution reaches |
| TypeIdentity.AppendText | Talac/Core/Template.cpp:392-417 | appends the counted, hexadecimal text |
| TypeIdentity.AppendInteger | Talac/Core/Template.cpp:419-430 | appends sign, counted octets |
| TypeIdentity.AppendSymbol | Talac/Core/Template.cpp:432-438 | appends identity and spelling |
| TypeIdentity.AppendType | Talac/Core/Template.cpp:440-499 | appends the rendering of a type of any nesting |
| TypeIdentity.TypeApart | Talac/Core/Template.cpp:440-499 | renderings are self-delimiting: equal texts, whatever follows them, come from types that mean the same |
| TypeIdentity.IdentityIsMeaning | Talac/Core/Template.cpp:575-582 | two types have the same identity exactly when they mean the same |
| TypeIdentity.SparePayloadIsNotIdentity | Talac/Core/Template.cpp:440-499 | a scalar type and the same with a name have one identity |
| TypeIdentity.Identity | Talac/Core/Template.cpp:575-582 | the buffer ends up with the identity |
| SpecializationTable.Specializations.Intern | Talac/Core/Template.cpp:584-623 | answers with the entry of an equal type or inserts one; existing entries stay |
| SpecializationTable.Specializations.FindById | Talac/Core/Template.cpp:625-633 | the entry of an identifier in range, and no other |
| SpecializationTable.Specializations.FindByType | Talac/Core/Template.cpp:635-645 | finds an entry exactly when one of equal meaning exists |
| SpecializationTable.StepKeepsConsistent | Talac/Core/Template.cpp:596-622 | one critical section of any thread keeps the table valid, all answers right and one inserter an entry |
| SpecializationTable.AnswersAgree | Talac/Core/Template.cpp:584-623 | in every interleaving two calls get the same identifier exactly when their types mean the same |
| SpecializationTable.TableGrowsOnce | Talac/Core/Template.cpp:584-623 | in every interleaving entries stay, identifiers are dense from one, and each new entry has exactly one inserter |
| SpecializationTable.TwoSectionsAnswer | Talac/Core/Template.cpp:584-623 | a call is answered after two critical sections, whatever the others do |
| Utf8Names.AppendUtf8 | Talac/Driver/ProjectArtifacts.cpp:31-63 | the encoding of a scalar, and refusal of anything else |
| Utf8Names.Utf8 | Talac/Driver/ProjectArtifacts.cpp:65-77 | the encoding of a text, refused exactly when it holds a value that is no scalar |
| Utf8Names.EncodingTable | Talac/Driver/ProjectArtifacts.cpp:31-63 | the number of bytes, their marks and the place of every bit, as section 3 of RFC 3629 has them |
| Utf8Names.IsValidUtf8 | Talac/Driver/ProjectArtifacts.cpp:88-146 | the loop over the bytes decides the recursive definition of validity |
| Utf8Names.ValidIffEncoding | Talac/Driver/ProjectArtifacts.cpp:88-146 | a byte string is accepted exactly when it encodes some sequence of Unicode scalars |
| Utf8Names.EncodeInjective | Talac/Driver/ProjectArtifacts.cpp:31-77 | no two texts share a byte spelling |
| ProjectArtifacts.CheckNames | Talac/Driver/ProjectArtifacts.cpp:427-446 | a batch passes exactly when it is not empty and its names are safe, supported and apart under ASCII folding; otherwise the first name that does not pass decides the failure |
| ProjectArtifacts.FoldMeaning | Talac/Driver/ProjectArtifacts.cpp:79-86 | names fold alike exactly when they differ in the case of ASCII letters at most |
| ProjectArtifacts.UndoOne | Talac/Driver/ProjectArtifacts.cpp:319-354 | undoes one replacement as far as the file system lets it, and nothing is lost at any moment |
| ProjectArtifacts.RollBack | Talac/Driver/ProjectArtifacts.cpp:313-359 | complete exactly when every replacement is undone; nothing is lost at any moment |
| ProjectArtifacts.UndoneIsRestored | Talac/Driver/ProjectArtifacts.cpp:313-359 | when all are undone every destination is exactly as it was |
| ProjectArtifacts.ReplaceOne | Talac/Driver/ProjectArtifacts.cpp:526-561 | preserve, then install; on failure the flags still say what the files hold |
| ProjectArtifacts.ReplaceAll | Talac/Driver/ProjectArtifacts.cpp:526-562 | success installs every file, a complete rollback restores everything, and otherwise originals are at their place or in their backup |
| ProjectArtifacts.CommitArtifactFiles | Talac/Driver/ProjectArtifacts.cpp:427-563 | the whole commit over every schedule of failures, at every moment; it fails only for a name that does not pass or a call that failed, and a rollback stays incomplete only after a second failed call |
| GeneratorArithmetic.ComputableDivisorDivides | Talac/Backend/LLVM/GeneratorArithmetic.cpp:255-278 | from two bits on, the divisor that is used always divides, with the quotient and remainder of the one asked for, wrapped; zero stops the program |
| GeneratorArithmetic.OneBitIsTooNarrow | Talac/Backend/LLVM/GeneratorArithmetic.cpp:255-278 | with one bit the replacement divisor is the one it replaces |
| GeneratorArithmetic.SignedRoundedDivision | Talac/Backend/LLVM/GeneratorArithmetic.cpp:45-91 | emitted signed // is the nearest integer, halves away from zero, wrapped, for every width from two bits and every nonzero divisor |
| GeneratorArithmetic.UnsignedRoundedDivision | Talac/Backend/LLVM/GeneratorArithmetic.cpp:93-111 | the same for unsigned operands of every width |
| GeneratorArithmetic.NearestIsUnique | Talac/Backend/LLVM/GeneratorArithmetic.cpp:45-111 | only one integer is nearest in this sense |
| GeneratorArithmetic.NearestSigned | Talac/Backend/LLVM/GeneratorArithmetic.cpp:45-91 | rounding magnitudes and putting the sign back gives the nearest integer |
| GeneratorArithmetic.Power | Talac/Backend/LLVM/GeneratorArithmetic.cpp:131-190 | the emitted loop ends with the power of the unsigned exponent, wrapped |
| WireSupport.Writer.Fail | Talac/Artifact/WireSupport.cpp:337-345 | the first error stays, with the offset it was found at |
| WireSupport.Writer.Byte | Talac/Artifact/WireSupport.cpp:60-73 | one octet, or the limit as error; nothing after an error |
| WireSupport.Writer.Unsigned | Talac/Artifact/WireSupport.cpp:17-26 | a number of any of the widths, least significant octet first, whole or not at all |
| WireSupport.Writer.Count | Talac/Artifact/WireSupport.cpp:126-139 | a count within its limit and 32 bits, otherwise an error |
| WireSupport.Writer.Text | Talac/Artifact/WireSupport.cpp:142-157 | count and scalars, up to the first value that is no scalar |
| WireSupport.Writer.QualifiedName | Talac/Artifact/WireSupport.cpp:159-165 | count and parts |
| WireSupport.Writer.Symbol | Talac/Artifact/WireSupport.cpp:168-179 | a positive identity and its spelling |
| WireSupport.Writer.TemplateArgument | Talac/Artifact/WireSupport.cpp:209-254 | kind and payload of a template argument, integers only if canonical |
| WireSupport.Writer.Type | Talac/Artifact/WireSupport.cpp:182-282 | a type of any nesting within the depth limit, with every error of the source in its place |
| WireSupport.Writer.Literal | Talac/Artifact/WireSupport.cpp:284-335 | a literal its type accepts, each integer form as one |
| WireSupport.Reader.constructor | Talac/Artifact/WireSupport.cpp:371-378 | an input beyond the limit is an error before anything is read |
| WireSupport.Reader.Byte | Talac/Artifact/WireSupport.cpp:381-394 | the next octet, or zero and an error at the end; zero after an error |
| WireSupport.Reader.Unsigned | Talac/Artifact/WireSupport.cpp:28-38 | the loop over shifted octets reads the number they spell |
| WireSupport.Reader.Boolean | Talac/Artifact/WireSupport.cpp:414-423 | zero or one, anything else is an error |
| WireSupport.Reader.Count | Talac/Artifact/WireSupport.cpp:425-433 | a count within its limit, zero with an error |
| WireSupport.Reader.Text | Talac/Artifact/WireSupport.cpp:436-453 | scalars up to the count or the first error |
| WireSupport.Reader.Symbol | Talac/Artifact/WireSupport.cpp:467-476 | a positive identity and its spelling |
| WireSupport.Reader.TemplateArgument | Talac/Artifact/WireSupport.cpp:504-568 | kind and payload of a template argument, or an error for an unknown tag |
| WireSupport.Reader.Type | Talac/Artifact/WireSupport.cpp:478-594 | a type within the depth limit, with every error of the source in its place |
| WireSupport.Reader.Literal | Talac/Artifact/WireSupport.cpp:596-658 | a literal by its tag, accepted by its type |
| WireFormat.LittleEndianAt | Talac/Artifact/WireSupport.cpp:17-26 | the octet at each place is that base-256 digit of the number |
| WireFormat.TextReadsBack | Talac/Artifact/WireSupport.cpp:436-453 | a text that was written is read back, whatever stands before and after it |
| WireFormat.TextWritesBack | Talac/Artifact/WireSupport.cpp:436-453 | a text that was read writes the bytes it was read from |
| WireFormat.NameReadsBack | Talac/Artifact/WireSupport.cpp:455-465 | the same for qualified names |
| WireFormat.SymbolReadsBack | Talac/Artifact/WireSupport.cpp:467-476 | the same for symbols of 64-bit identity |
| WireFormat.SymbolWritesBack | Talac/Artifact/WireSupport.cpp:467-476 | a symbol that was read writes its own bytes again |
| WireFormat.IntegerReadsBack | Talac/Artifact/WireSupport.cpp:240-254 | a canonical integer is read back |
| WireFormat.IntegerWritesBack | Talac/Artifact/WireSupport.cpp:545-559 | only canonical integers are read, and they write their own bytes again |
| WireTypes.TypeReadsBack | Talac/Artifact/WireSupport.cpp:182-282 | every type that was written is read back as its meaning, at any nesting, whatever follows |
| WireTypes.TypeWritesBack | Talac/Artifact/WireSupport.cpp:478-594 | every type that was read writes exactly the bytes it was read from |
| WireTypes.ReadBackUnchanged | Talac/Artifact/WireSupport.cpp:182-282 | it comes back unchanged exactly when no part has payload that its kind does not use |
| WireTypes.SparePayloadIsLost | Talac/Artifact/WireSupport.cpp:256-269 | a function type with a name is written and comes back without it |
| WireTypes.MeaningWritesAlike | Talac/Artifact/WireSupport.cpp:182-282 | a type and its meaning have the same bytes |
| WireTypes.NoneBeginsAnother | Talac/Artifact/WireSupport.cpp:478-594 | the type codec is prefix-free |
| WireTypes.WireIsIdentity | Talac/Artifact/WireSupport.cpp:182-282 | two types have the same bytes exactly when they have the same textual identity |
| WireLiterals.LiteralReadsBack | Talac/Artifact/WireSupport.cpp:284-335 | a written literal is read back, the two older integer forms as the canonical one |
| WireLiterals.LiteralWritesBack | Talac/Artifact/WireSupport.cpp:596-658 | a literal that was read writes exactly its own bytes |
| WireLiterals.StoredKeepsNumber | Talac/Artifact/WireSupport.cpp:40-51 | the canonical form keeps the number; only the two older forms change |
| WireLayout.BooleanAppends | Talac/Artifact/WireSupport.cpp:120-124 | true is the octet one and false the octet zero |
| WireLayout.TextAppends | Talac/Artifact/WireSupport.cpp:142-157 | a text is written exactly when it is within its limit and all scalars, as its count and four octets a scalar |
| WireLayout.SymbolAppends | Talac/Artifact/WireSupport.cpp:168-179 | eight octets of a positive identity and then the spelling |
| WireLayout.TypeAppends | Talac/Artifact/WireSupport.cpp:182-282 | a type is written exactly when it is allowed and has room, as the octets of its layout: kind, argument and value tags and fields in their order |
| WireLayout.LiteralAppends | Talac/Artifact/WireSupport.cpp:284-335 | a literal is written exactly when its type accepts it, it is within limits and has room, as its tag and payload |
| WireReading.BooleanIsRead | Talac/Artifact/WireSupport.cpp:414-423 | a truth value is read exactly from its octet |
| WireReading.TextIsRead | Talac/Artifact/WireSupport.cpp:436-453 | a text is read exactly from its layout, if it may be written |
| WireReading.SymbolIsRead | Talac/Artifact/WireSupport.cpp:467-476 | a symbol is read exactly from its layout, if it may be written |
| WireReading.IntegerIsRead | Talac/Artifact/WireSupport.cpp:545-559 | an integer is read exactly from its layout, if it is canonical and within its limit |
| WireReading.TypeIsRead | Talac/Artifact/WireSupport.cpp:478-594 | a type is read exactly from its layout, if it may be written and has no payload to spare |
| WireReading.LiteralIsRead | Talac/Artifact/WireSupport.cpp:596-658 | a literal is read exactly from its layout, if it may be written and is in its stored form |
| WireErrors.TypeRuns | Talac/Artifact/WireSupport.cpp:182-282 | a type is written as its fields: the same octets up to the same error at the same offset, whatever fails |
| WireErrors.LiteralRuns | Talac/Artifact/WireSupport.cpp:284-335 | a literal is written as its fields, with the same error at the same offset |
| WireErrors.WordStops | Talac/Artifact/WireSupport.cpp:381-412 | an input that ends within a number is truncated where it ends |
| WireErrors.BooleanStops | Talac/Artifact/WireSupport.cpp:414-423 | an octet above one is no truth value |
| WireErrors.CountStops | Talac/Artifact/WireSupport.cpp:425-433 | a count beyond its limit |
| WireErrors.ScalarStops | Talac/Artifact/WireSupport.cpp:436-453 | the first value that is no scalar, after any that are |
| WireErrors.SymbolStops | Talac/Artifact/WireSupport.cpp:467-476 | a symbol without an identity |
| WireErrors.IntegerStops | Talac/Artifact/WireSupport.cpp:545-559 | an integer that is not canonical, once it has been read |
| WireErrors.TypeStops | Talac/Artifact/WireSupport.cpp:478-594 | nesting beyond the limit, an unknown kind, a function without a result |
| WireErrors.LiteralStops | Talac/Artifact/WireSupport.cpp:596-658 | a literal that another type accepts and this one does not |
| WireLiterals.AcceptedByValue | Talac/Core/Scalar.cpp:349-403 | an integer literal of any form is accepted exactly when its number belongs to the type |
| CoreScalars.FitsIsRange | Talac/Core/Scalar.cpp:230-247 | counting bits accepts exactly the canonical literals whose number is in the range of the type |
| CoreScalars.KindRanges | Talac/Core/Scalar.cpp:53-107 | the least and the largest value of every integer and character kind, and no value for any other kind |
| CoreScalars.CanonicalIsOne | Talac/Core/Scalar.cpp:181-197 | a number has one canonical literal |
| CoreScalars.HighBits | Talac/Core/Scalar.cpp:200-211 | the mask loop counts the bits of an octet |
| CoreScalars.MinimumIsExact | Talac/Core/Scalar.cpp:213-227 | the bit pattern test singles out the least signed number |
| CoreScalars.UnsignedOctets | Talac/Core/Scalar.cpp:249-261 | octets pushed and reversed spell the number |
| CoreScalars.FromSignedIsValue | Talac/Core/Scalar.cpp:263-275 | every 64-bit number becomes the canonical literal of the same value, the least one too |
| CoreScalars.CheckFloating | Talac/Core/Scalar.cpp:297-347 | the cursor loops decide the grammar of floating spellings |
| CoreScalars.FloatingIsGrammar | Talac/Core/Scalar.cpp:297-347 | accepted are exactly the special spellings and sign, digits, fraction and exponent with a digit before the exponent |
| CoreScalars.FloatingIsAscii | Talac/Core/Scalar.cpp:297-347 | an accepted spelling is ASCII, so the reader accepts what the writer wrote |
| DiagnosticStreams.CheckArguments | Talac/Diagnostic/Protocol.cpp:142-157 | names are neither empty nor repeated, by a set that grows |
| DiagnosticStreams.ValidateRecord | Talac/Diagnostic/Protocol.cpp:99-198 | the kind of the first problem of a record, or none |
| DiagnosticStreams.WriteLocation | Talac/Diagnostic/Protocol.cpp:200-208 | source and range, field by field |
| DiagnosticStreams.WriteRecord | Talac/Diagnostic/Protocol.cpp:210-258 | the fields of a record in wire order |
| DiagnosticStreams.EncodeDocument | Talac/Diagnostic/Protocol.cpp:364-391 | limits and validation first, then the bytes of the document or the first error |
| DiagnosticStreams.ReadRecord | Talac/Diagnostic/Protocol.cpp:300-361 | the fields of a record, each list up to its count or the first error |
| DiagnosticStreams.DecodeDocument | Talac/Diagnostic/Protocol.cpp:393-449 | a document that is valid and complete, or the first error |
| DiagnosticProtocol.RecordReadsBack | Talac/Diagnostic/Protocol.cpp:210-258 | a written record is read back |
| DiagnosticProtocol.RecordWritesBack | Talac/Diagnostic/Protocol.cpp:300-361 | a record that was read writes exactly its own bytes |
| DiagnosticProtocol.EncodeThenDecode | Talac/Diagnostic/Protocol.cpp:364-449 | an encoded document decodes to itself under the same limits |
| DiagnosticProtocol.DecodeThenEncode | Talac/Diagnostic/Protocol.cpp:364-449 | a decoded document encodes to exactly the bytes it came from |
| DiagnosticProtocol.EncodingsDiffer | Talac/Diagnostic/Protocol.cpp:364-391 | two documents have the same bytes exactly when they are equal |
| DiagnosticLayout.PositionsAreOrdered | Talac/Diagnostic/Protocol.cpp:48-54 | positions are totally ordered, an earlier line always first and columns within a line |
| DiagnosticLayout.TextsAreLimited | Talac/Diagnostic/Protocol.cpp:200-258 | a text may be written exactly when it is within the limit of the document and all scalars |
| DiagnosticLayout.RecordIsValid | Talac/Diagnostic/Protocol.cpp:70-198 | validation accepts exactly the records with known tags, code, message, distinct named arguments, ordered ranges and complete fixes |
| DiagnosticLayout.RecordFails | Talac/Diagnostic/Protocol.cpp:99-198 | which error a record draws: tags first, then texts, numbers of parts, the parts and the first defective fix |
| DiagnosticLayout.RecordAppends | Talac/Diagnostic/Protocol.cpp:210-258 | a record is written exactly when it is allowed and has room, as the octets of its layout |
| DiagnosticLayout.EncodingIsLayout | Talac/Diagnostic/Protocol.cpp:364-391 | encoding succeeds exactly for the allowed documents and gives their octets |
| DiagnosticLayout.DecodingIsLayout | Talac/Diagnostic/Protocol.cpp:393-449 | decoding gives a document exactly from its octets, if it is allowed |
| DiagnosticCollection.IdentityIsEquality | Talac/Diagnostic/Collection.cpp:31-37 | byte identity of records is equality |
| DiagnosticCollection.KnownIdentity | Talac/Diagnostic/Collection.cpp:36-37 | looking up the bytes finds exactly the equal record |
| DiagnosticCollection.EncodableMeaning | Talac/Diagnostic/Collection.cpp:20-37 | a record has an identity exactly when the document of it alone is allowed |
| DiagnosticCollection.StatusMeaning | Talac/Diagnostic/Collection.cpp:20-56 | an allowed record is known, has no room or is added; any other is over a limit or invalid, as its problem says |
| DiagnosticCollection.CountersAreExact | Talac/Diagnostic/Collection.cpp:38-56 | the counters are the numbers of records of severity error and warning |
| DiagnosticCollection.Collection.Append | Talac/Diagnostic/Collection.cpp:20-56 | invalid, over a limit, equal to a record that is there, or added at the end with its severity counted |
| DiagnosticCollection.Collection.MergeDocument | Talac/Diagnostic/Collection.cpp:58-76 | the copy that takes the batch replaces the collection only when all of it was accepted |
| DiagnosticCollection.Collection.Take | Talac/Diagnostic/Collection.cpp:108-117 | hands out the records and leaves an empty collection without old identities |
| DiagnosticCollection.MergeAllOrNothing | Talac/Diagnostic/Collection.cpp:58-76 | a batch is accepted exactly when every record is valid and the new ones fit; otherwise nothing changes |
| DiagnosticCollection.MergeIsWhole | Talac/Diagnostic/Collection.cpp:58-76 | accepted batches append exactly the new records, and say whether there were any |
| DiagnosticCollection.FreshIsNew | Talac/Diagnostic/Collection.cpp:58-76 | nothing is there twice and nothing of the batch is missing |
| DiagnosticCollection.FreshInOrder | Talac/Diagnostic/Collection.cpp:58-76 | first-emission order is kept |
| DiagnosticCollection.FreshOfBoth | Talac/Diagnostic/Collection.cpp:58-76 | two batches one after the other bring what one batch of both brings |
| DiagnosticCollection.SnapshotMerges | Talac/Diagnostic/Collection.cpp:102-106 | a snapshot rebuilds an empty collection and is a duplicate to its own |
| CoreVerifierWalk.Environment.Extend | Talac/Core/Verifier.cpp:57-65 | an inner region sees what is visible around it, without a copy |
| CoreVerifierWalk.Environment.Find | Talac/Core/Verifier.cpp:67-77 | the walk outwards finds what a flat scope would hold |
| CoreVerifierWalk.Environment.InsertOrAssign | Talac/Core/Verifier.cpp:85-92 | a definition hides outer ones in the flat scope; outer regions do not change |
| CoreVerifierWalk.FunctionVerifier.VerifyStatements | Talac/Core/Verifier.cpp:335-346 | reports and leaves in scope what the recursive definition does |
| CoreVerifierWalk.FunctionVerifier.VerifyConditionalChain | Talac/Core/Verifier.cpp:374-410 | the loop over else-if links with one shared environment reports what the recursion with flat copies reports, in its order |
| CoreVerifierWalk.FunctionVerifier.VerifyBinding | Talac/Core/Verifier.cpp:466-490 | checks in order, then the definition for the statements after it |
| CoreVerifierWalk.FunctionVerifier.VerifyAssignment | Talac/Core/Verifier.cpp:492-515 | undefined, immutable or of the wrong type |
| CoreVerifierWalk.FunctionVerifier.VerifyLoop | Talac/Core/Verifier.cpp:517-538 | body and update each in a scope of their own, the update for a for loop only |
| CoreVerifierWalk.FunctionVerifier.VerifyExpression | Talac/Core/Verifier.cpp:551-574 | down the first operands and back with a stack reports what the recursion reports, in its order |
| CoreVerifierWalk.FunctionVerifier.VerifyLet | Talac/Core/Verifier.cpp:635-665 | value around, body with the definition |
| CoreVerifierWalk.FunctionVerifier.VerifyConditional | Talac/Core/Verifier.cpp:667-700 | test and arms in order, then their types |
| CoreVerifierWalk.FunctionVerifier.VerifyCall | Talac/Core/Verifier.cpp:711-744 | callee and arguments, then the signature |
| CoreVerifierWalk.FunctionVerifier.VerifyClosure | Talac/Core/Verifier.cpp:889-996 | captures against the scope around, body with captures and parameters, outside any loop |
| CoreVerifierWalk.FunctionVerifier.Run | Talac/Core/Verifier.cpp:110-147 | the report of a whole function |
| CoreVerifierWalk.CheckSources | Talac/Core/Verifier.cpp:1014-1028 | paths that are not normalized, and repeated ones, in order |
| CoreVerifierWalk.Declare | Talac/Core/Verifier.cpp:1030-1072 | owner, symbol and repetition of every function; the first of a symbol stays declared |
| CoreVerifierWalk.Verify | Talac/Core/Verifier.cpp:1000-1076 | name, sources, declarations, then every function, each issue with the function it is about |
| CoreVerifier.NoIssueNoTransferIssue | Talac/Core/Verifier.cpp:416-465 | a body without issues has no transfer outside a loop |
| CoreVerifierMeaning.FoundMeaning | Talac/Core/Verifier.cpp:67-83 | a symbol refers to its nearest binding, capture or parameter, and otherwise to the first function of that symbol; lookup finds exactly that |
| CoreVerifierMeaning.ExpressionMeaning | Talac/Core/Verifier.cpp:551-996 | the issues of an expression are exactly the faults at the places in it, at any depth, each judged with the definitions around it |
| CoreVerifierMeaning.StatementsMeaning | Talac/Core/Verifier.cpp:335-538 | the same for statements: bindings, assignments, returns, conditions and transfers |
| CoreModuleMeaning.FunctionMeaning | Talac/Core/Verifier.cpp:110-147 | the issues of a function are exactly the faults of its head and of its places |
| CoreModuleMeaning.ModuleMeaning | Talac/Core/Verifier.cpp:1000-1076 | the issues of a module are exactly its faults, each with the function it belongs to |
| CoreModuleMeaning.ImmutableIsReported | Talac/Core/Verifier.cpp:492-515 | the immutability issue is reported exactly for the assignments, at any depth, whose nearest definition cannot be assigned to |
| CoreSoundness.PlaceClean | Talac/Core/Verifier.cpp:412-996 | nothing is wrong at a place exactly when it is sound: right type, right definition, right arguments, loop around a transfer |
| CoreSoundness.AcceptedIffSound | Talac/Core/Verifier.cpp:1000-1076 | a module is accepted exactly when it is sound at every place of every function |
| CoreSoundness.AssignmentsAreSound | Talac/Core/Verifier.cpp:492-515 | in an accepted module every assignment goes to a nearest definition that can be assigned to and has the type of the value |
| CoreVerifier.AcceptedModuleReturns | Talac/Core/Verifier.cpp:110-147 | in an accepted module every function with a result returns in every execution that ends |
| CoreVerifier.AcceptedClosureReturns | Talac/Core/Verifier.cpp:978-995 | so does every accepted closure with a result, in whatever loop it stands |
| CoreVerifier.FallingThroughIsReported | Talac/Core/Verifier.cpp:140-147 | a function of tidy loops that nothing else is said about is reported exactly when some execution falls off its end |

## Left out

- Interactive tools, command line, linker, process and thread handling: input and output only.
- `WireFormat.TextReadsBack`: field names and texts of wire errors; an error is its kind and offset. Limits are numbers without an upper bound, so that one more than a limit exists.
- `WireTypes.TypeReadsBack`: for types whose kinds, identities and octets fit the source's number types; the model's types can hold others.
- The instruction and control-flow schemas of the artifact stages that use the wire fields, and the default limits.
- `DiagnosticCollection.Collection.MergeDocument`: no claim that all records of a collection fit one encoded document; the byte limit is checked record by record.
- The Core verifier's rules of single primitives, of type shapes and of capture modes: `CoreVerifier.Rules` leaves them open, and the results hold for any such rules. Normalization of source paths is a parameter too, and issue texts are not part of this model.
- Validation, substitution, measures and parameter collection of template types; interning starts from a type that was accepted.
- Floating-point rounding division and power, the zero check as code of its own, and shift amounts.
- `ControlFlow.ReversePostorderFollowsEdges`: no claim that two presentations of a graph give the same reverse postorder.
- Block numbers wider than their type: `CorePrepParity.Numbered` asks that a canonical number fits, and bit sets are not limited to the largest unsigned count.
- `CorePrepBehaviour.NoDifferenceRunsAlike`: a call of another function is one instruction whose result the machine chooses; a closure is known by the place of its function. The symbol a capture has inside the closure is not read.
- `Regions.FindIrreducibleRegions`: nothing is said about an irreducible part of a component that has a dominating header, because the code decides whole components.
- `LivenessPruning.PruningPreservesMeaning`: for programs whose removable accesses compute their value from what they read and have no other effect, as the permission to remove them promises.
- `ProjectArtifacts.CommitArtifactFiles`: directories, permissions, Unicode name probes, symbolic links and other processes; the safety of a single name is a parameter.
- `GeneratorArithmetic.SignedRoundedDivision`: widths from two bits on, see `GeneratorArithmetic.OneBitIsTooNarrow`.
- `SpecializationTable.AnswersAgree`: locks are atomic sections; fairness and memory order of the lock itself are not modelled.
- `TypeIdentity.AppendType`: the numbers of the kinds are taken as numbers, and octets as their value modulo 256.
- `Dominance.FactsFor`: the binary search over sorted records is modelled as a search for the record.
