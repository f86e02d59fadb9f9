# Verified model of Alive2's core algorithms

This project models the algorithms that a translation validator for LLVM IR rests
on, as they stand in the Alive2 snapshot kept in this repository, and the wire
format between the relay server and the validator server. Properties are proved
for every control-flow graph, every run, every history of memory operations and
every byte string.

The source builds SMT expressions. The model fixes one valuation of their free
variables, so that an expression is a concrete truth value, number or bit-vector;
where the source looks at whether an expression is a literal (`isTrue`, `isFalse`,
`isConst`, `isUInt`, `eq`), the model carries that answer as a separate flag, and
every result holds for every such flag. Objects that the source updates in place
are classes with the same fields; pure code is functions.

## Modules

| file | what it models |
|---|---|
| `Graph`, `Dominators` | control-flow graphs, dominance, the iterative dominator tree |
| `TopSort`, `BlockOrder`, `ExitOrder` | the topological sort, the block order the dominator tree relies on, sorting with the exit blocks of loops |
| `UnionFind`, `EGraph` | union-find and equality saturation for floating-point expressions |
| `Unroll`, `SsaRename`, `PhiSources` | loop unrolling: jump targets, operand names, phi sources |
| `SpanningTree`, `LoopNesting`, `LoopAnalysis` | numbering of blocks, loops of a numbered graph, the loop forest |
| `LoopCycles`, `LoopNests` | which cycles the forest finds; on reducible graphs it is what the unroller needs |
| `LoopForest`, `UnrollOrder` | the forest's member lists, the order in which loops are taken from it, which are not taken |
| `BodyOrder`, `UnrollRuns` | the list of a loop's blocks, and what it is after every step of unrolling a nest |
| `UnrolledOrder`, `ExitRuns` | the order of the function's blocks after every step, with the exit blocks that were recorded |
| `Exprs`, `FnCalls`, `SymExec`, `Executor` | guarded values, call-count ranges, the symbolic executor against a concrete machine |
| `PathRecords` | the memories the executor records along a path |
| `AliasSets`, `Memory` | may-alias sets, the block memory against a flat memory, type tags |
| `BitVectors`, `LocalAddresses`, `PhysicalPointers` | liveness bits, addresses of local blocks, resolving physical pointers |
| `Aggregates`, `Granularity`, `ByteEncoding`, `ByteRefinement`, `MixedBytes` | packing of nested types, the width and poison bits of a byte, bytes in both byte orders, refinement of integer bytes and of all bytes |
| `LoopApprox` | bounded encodings of `strlen` and `memcmp` |
| `Wire` | length framing and separator-based commands |
| `Options` | a value that may be missing |

## What the proofs found

Where the code does less than a reader would expect, the model keeps the code, a
member shows a concrete input, and another one says exactly when it does what is
expected.

- Equality saturation can stop with two equal expressions in different classes:
  `EGraph.MissedCongruence`. It decides equality exactly if the final graph is
  congruence closed (`EGraph.SaturatedDecides`), which is exactly if one more pass
  would merge no class (`EGraph.OneMorePass`): the exit test does not ask whether
  the last pass did. Before saturation, a graph without nodes alike in different
  classes is enough, and it is exactly when no pass merges: `EGraph.EGraph.Saturate`.
- `top_sort` can leave a block before its only predecessor, even in a natural loop:
  `BlockOrder.LatchFirst`. It gives every block an earlier predecessor exactly if
  the numbers place all blocks (`BlockOrder.SortBlocks`). No front end hands the sort
  such numbers: those an LLVM function gets place all blocks
  (`BlockOrder.CreateBlocks`), and the text parser builds no branches. Unrolling
  keeps it so: after every step all blocks are placed, and sorting gives every block
  an earlier one that jumps to it, although it also follows edges to exit blocks and
  a recorded exit block may have become the header of a loop around
  (`ExitOrder.SortFunction`, `ExitRuns.SortAfterStep`).
- Inner loops of a single block are not unrolled: the loop forest has no entry for
  them, and the worklist takes only its entries. Such a block still jumps to itself
  when all loops that are taken have been unrolled: `UnrollOrder.InnerSelfSkipped`,
  `UnrollOrder.InnerSelfStays`. All loops are taken exactly if there is none:
  `UnrollOrder.TakenLoops`.
- A phi that names itself falls one copy behind when it is cloned:
  `SsaRename.SelfPhiFallsBehind`, with the exact condition in
  `SsaRename.CloneNamesReachingDef`.
- The numbering marks blocks when they are pushed, so it is not a depth-first tree
  and an irreducible cycle can be missed: `LoopCycles.CycleMissed`. A cycle is
  found exactly if it lies in the subtree of its header
  (`LoopNesting.CycleFoundIff`), and the graph is reducible exactly if every cycle
  is found in a loop not marked irreducible: `LoopCycles.ReducibleIffFound`.
- The scan for gaps in an alias set looks at one fixed element, so the symbolic
  query can lose a block: `AliasSets.GapLosesBlock`, `AliasSets.AnswerExact`.
- After a call that does not return, the path condition stays true, and a later
  return overrides the recorded memory: `Executor.StoppedMemoryLost`. The memory is
  kept, in every order of merging, exactly if the last record under a literal on the
  path holds it, or without such a record all do: `PathRecords.StoppedMemoryIff`, with
  a guard in the program text in `PathRecords.GuardKeepsMemory`.
- A pointer one past the end of a block resolves to its neighbour, and a dead
  block that overlaps a live one can be chosen:
  `PhysicalPointers.OnePastResolvesElsewhere`, `PhysicalPointers.DeadBlockChosen`.
  Ids and base addresses are merged in two maps, each ordered by its expressions, so
  that among blocks that overlap a pointer may get its id from one and its offset from
  another: `PhysicalPointers.BaseOfAnother`. When each happens is
  `PhysicalPointers.OnePastIff` and `PhysicalPointers.EveryOrderIff`.
- Refinement of bytes is not transitive, because a pointer byte and an integer byte are
  compared by poison and zero alone: `MixedBytes.PartialPoison`, with the exact condition
  in `MixedBytes.TransitiveIff`.
- Starting the lifetime of a block that was not allocated records no condition on its
  address, and it may then share addresses with a live block:
  `LocalAddresses.WrappedBlockWoken`. While all blocks that were woken are in place, as
  allocated ones are, none does: `LocalAddresses.LocalBlocks.OneOwner`.
- The test that a new block does not wrap around refuses the topmost aligned address to
  a block whose size is known to be at most the exponent of its alignment, although it
  ends inside the area (`LocalAddresses.TopFits`); everywhere else it is exact
  (`LocalAddresses.NoWrapIff`, `LocalAddresses.LocalBlocks.Alloc`).
- In a program with integers that are no whole number of octets, every byte carries the
  number of its place in the value it belongs to, and a load that starts at another
  place is poison even if all widths are whole octets: so is, on a big-endian target,
  a shorter load at the address of the store, unless the two numbers agree
  (`ByteEncoding.ShorterLoad`, `ByteEncoding.ReadAcross`).
- The two readers of framed messages accept different numbers of length digits, 7
  and 8: `Wire.ReadRelayMessage`, `Wire.ReadValidatorMessage`. The command fields
  carry no escapes, so they arrive exactly if they are clean:
  `Wire.ValidateRoundTrip`.

## Model

| member | source | states |
|---|---|---|
| `Dominators.DomTree.DominatesQuery` | alive2_snapshot/ir/function.cpp:1064-1076 | `dominates(a, b)` answers true exactly when every walk from the first block to `b` passes through `a` |
| `Dominators.DomTree.constructor` | alive2_snapshot/ir/function.cpp:1003-1046 | the fixpoint loop ends on every function whose blocks have an earlier predecessor, and leaves a tree whose chains are exactly the dominators |
| `TopSort.Sort` | alive2_snapshot/util/sort.cpp:13-36 | every block once; an edge that goes backwards in the order leads to a block that comes back to where the edge starts through blocks behind it alone; a block other than the first has an earlier predecessor if and only if a smaller block leads to it or it has a predecessor it does not lead to |
| `TopSort.Sorter.Visit` | alive2_snapshot/util/sort.cpp:18-27 | the recursive search appends exactly unmarked blocks that the start leads to, the start last, each other one before a block it was entered from |
| `TopSort.Sorter.Start` | alive2_snapshot/util/sort.cpp:29-30 | a search from the next block keeps, for every listed block, the reason why a predecessor does or does not come after it |
| `TopSort.StartSorted` | alive2_snapshot/util/sort.cpp:18-30 | of the predecessors of a block a search starts at, exactly those it leads to are left before it |
| `TopSort.SortedIff` | alive2_snapshot/util/sort.cpp:29-34 | in the complete list a predecessor comes later exactly if the block is placed by the numbers |
| `BlockOrder.SortBlocks` | alive2_snapshot/util/sort.cpp:13-36 | sorted by its jumps alone, a function has the order the dominator tree relies on if and only if all blocks are placed by the numbers they came with |
| `BlockOrder.OrderedPlaced` | alive2_snapshot/ir/function.cpp:470-472 | in a function that is in order all blocks are placed |
| `BlockOrder.AcyclicPlaced` | alive2_snapshot/ir/function.cpp:470-472 | without cycles all blocks are placed, whatever their numbers |
| `BlockOrder.NumberBlocks` | alive2_snapshot/llvm_util/llvm2alive.cpp:1871-1890 | the blocks of an LLVM function are numbered once each, the targets of the first block right after it |
| `BlockOrder.TargetsFirstPlaced` | alive2_snapshot/llvm_util/llvm2alive.cpp:1871-1895 | with these numbers every reachable block is placed |
| `BlockOrder.CreateBlocks` | alive2_snapshot/llvm_util/llvm2alive.cpp:1868-1895 | the order in which an LLVM function with reachable blocks is created is the one the dominator tree relies on |
| `ExitOrder.SortFunction` | alive2_snapshot/ir/function.cpp:430-472 | `Function::topSort` on the list of blocks, which also follows edges from loop headers to exit blocks: afterwards every block but the first has an earlier block that jumps to it if and only if all blocks are placed, by their places in the list before, in the graph with these edges |
| `ExitOrder.JumpsEarlier` | alive2_snapshot/ir/function.cpp:447-456 | where the earlier predecessor is one by an exit edge, there is another one that jumps to the block |
| `ExitOrder.InOrderPlaced` | alive2_snapshot/ir/function.cpp:470-472 | sorting a list that is in order keeps it in order, whatever exit edges are followed |
| `ExitOrder.InOrderIff` | alive2_snapshot/ir/function.cpp:1003-1046 | a list is in order exactly if the dominator tree may rely on the function in that order |
| `UnrolledOrder.UnrolledPlaced` | alive2_snapshot/ir/function.cpp:706-711 | after a natural loop of a function in order was unrolled, with the clones appended to the list of blocks, all blocks are placed in every graph that has the jumps and any more edges not into the first block, such as those from headers to exit blocks, whether outer loops are still cyclic or not |
| `UnrolledOrder.SortUnrolled` | alive2_snapshot/ir/function.cpp:706-711 | so `topSort` puts the function in order again: every block but the first has an earlier block that jumps to it |
| `ExitRuns.SortAfterStep` | alive2_snapshot/ir/function.cpp:587-711 | every step of a run keeps the list of blocks in order: clones are appended, the loops that are left are a nest and may be cyclic, and the sort follows the exit edges that the run recorded |
| `ExitRuns.RunStarts` | alive2_snapshot/ir/function.cpp:587-605 | a nest of natural loops and a list of blocks in order are a state of a run, with nothing unrolled and nothing recorded |
| `ExitRuns.ExitStep` | alive2_snapshot/ir/function.cpp:640-704 | unrolling the next loop and recording its exit blocks keeps what a run knows: loops that were unrolled are entered at their headers and nested, and a recorded exit block is still one, or has become the header of a loop around |
| `ExitRuns.ExitsHold` | alive2_snapshot/ir/function.cpp:447-456 | so the edges that are sorted besides jumps leave a loop for a block that some block in it jumps to, or lead back to the header of a loop around |
| `UnrolledOrder.HeaderLeads` | alive2_snapshot/ir/function.cpp:656-704 | the header leads to every copy of every block of its loop |
| `UnrolledOrder.EarlierKept` | alive2_snapshot/ir/function.cpp:656-704 | every original block keeps an earlier predecessor |
| `BlockOrder.LatchFirst` | alive2_snapshot/util/sort.cpp:13-36 | run on `[[2], [2], [3], [1]]`, where block 3 leads to itself through block 1 only and the loop of 2, 3 and 1 is entered at 2: the latch is numbered before its header, is not placed, and the sorted function is not in order |
| `Dominators.DomTree.BuildPredecessors` | alive2_snapshot/ir/function.cpp:1012-1015 | the predecessor list of every node, the sink included, holds the sources of exactly the edges into it, in block order |
| `Dominators.DomTree.Sweep` | alive2_snapshot/ir/function.cpp:1024-1045 | one pass keeps every dominator on every chain, and either reports no change and leaves a stable tree, or lowers the sum of the parents |
| `Dominators.DomTree.BuildDominators` | alive2_snapshot/ir/function.cpp:1017-1046 | from null parents the passes end in a tree with `Valid`: parents answer dominance exactly |
| `Dominators.DomTree.Intersect` | alive2_snapshot/ir/function.cpp:1048-1057 | the result is on both chains and below everything that is on both, by walking up block order |
| `Dominators.DomTree.CommonParent` | alive2_snapshot/ir/function.cpp:1030-1035 | the new parent is the lowest block on the chains of all visited predecessors, starting the fold at a predecessor that was visited |
| `Dominators.DomTree.GetIDominator` | alive2_snapshot/ir/function.cpp:1059-1062 | the immediate dominator is a strict dominator that all strict dominators dominate |
| `Dominators.StepKeepsInv` | alive2_snapshot/ir/function.cpp:1024-1041 | recomputing one parent keeps the invariant of the sweep and never moves a parent away from the root |
| `Dominators.NewParentAbove` | alive2_snapshot/ir/function.cpp:1030-1041 | a recomputed parent lies on the chain of the old parent, so chains only shrink |
| `Dominators.DominatorsKept` | alive2_snapshot/ir/function.cpp:1024-1041 | after an update every block still has all its true dominators on its chain |
| `Dominators.AncAlongForward` | alive2_snapshot/ir/function.cpp:1024-1041 | behind the sweep, chains are inherited along walks that go forward in block order |
| `Dominators.StableChainOnWalk` | alive2_snapshot/ir/function.cpp:1044-1046 | in a stable tree, a block on the chain of `x` is on every walk from the first block to `x` |
| `Dominators.StableIsExact` | alive2_snapshot/ir/function.cpp:1044-1046 | a stable tree that still contains all dominators is exactly the dominance relation |
| `Dominators.WeightDrops` | alive2_snapshot/ir/function.cpp:1037-1041 | every changed parent lowers a natural number, which is why the loop ends |
| `UnionFinds.UnionFind.Find` | alive2_snapshot/util/unionfind.cpp:22-28 | returns the representative of the class, to which the element that was asked for, and no other, is then linked; this changes no class |
| `UnionFinds.UnionFind.Merge` | alive2_snapshot/util/unionfind.cpp:30-35 | all members of the class of `p`, and no others, get the representative of `q`, which is returned; exactly the links of `p`, `q` and the old representative are set |
| `UnionFinds.UnionFind.Mk` | alive2_snapshot/util/unionfind.cpp:16-20 | adds one element in a class of its own |
| `EGraph.EGraph.Saturate` | alive2_snapshot/ir/fast_math.cpp:154-201 | the loop ends, keeps the meaning of every id, and exits with every commutative node and its swapped twin in one class; if the last pass merged no class the result is congruence closed, and no pass merges anything if and only if the graph had no two nodes alike in different classes from the start |
| `EGraph.FloatRefined` | alive2_snapshot/ir/fast_math.cpp:303-322 | equal roots mean that the two expressions have one meaning under every interpretation of the operations that lets operands be swapped in `add` and `mul` and in no other; different roots mean they differ under one if the graph is congruence closed, as it is if the last pass merged nothing; on a graph without nodes alike in different classes the answer is exact |
| `EGraph.SwapRefined` | alive2_snapshot/ir/fast_math.cpp:174-181 | built, saturated and compared: for two different atoms `x op y` and `y op x` come out the same if and only if `op` is `add` or `mul` |
| `EGraph.SwapMeans` | alive2_snapshot/ir/fast_math.cpp:174-181 | under the lawful interpretations the two have one meaning exactly for these two operations |
| `EGraph.FlattenMeans` | alive2_snapshot/ir/fast_math.cpp:109-152 | moving the `reassoc` markers into the nodes keeps the meaning of every expression |
| `EGraph.EqualIff` | alive2_snapshot/ir/fast_math.cpp:154-201 | two expressions are equal by the rules of the graph exactly if no lawful interpretation tells them apart |
| `EGraph.SaturatedDecides` | alive2_snapshot/ir/fast_math.cpp:154-201 | after saturation, roots decide equality of all expressions in the graph if and only if no two nodes with the same operand classes are in different classes |
| `EGraph.OneMorePass` | alive2_snapshot/ir/fast_math.cpp:155-200 | on a graph closed under swapping, where the loop may exit, one more pass would merge no class exactly if the graph is congruence closed |
| `EGraph.QuietEnd` | alive2_snapshot/ir/fast_math.cpp:155-200 | a pass that merges no class leaves canonical nodes only, and the graph was congruence closed before it |
| `EGraph.ConsistentIff` | alive2_snapshot/ir/fast_math.cpp:175-181 | on a graph closed under swapping, no two nodes alike are in different classes exactly if it is congruence closed |
| `EGraph.ConsistentBefore` | alive2_snapshot/ir/fast_math.cpp:154-201 | if saturation kept the partition, the graph it started from had no two nodes alike in different classes |
| `EGraph.VisitConsistent` | alive2_snapshot/ir/fast_math.cpp:159-182 | on a graph without nodes alike in different classes, a visit merges nothing and leaves it so |
| `EGraph.MissedCongruence` | alive2_snapshot/ir/fast_math.cpp:154-201 | `x*y - z` and `y*x - z` are equal, but a pass in map order exits with different roots for them |
| `EGraph.EGraph.Pass` | alive2_snapshot/ir/fast_math.cpp:155-200 | one pass exits closed under swapping, or has lost a class, or canonicalised nodes, or added the missing twins; if it merged no class the graph is congruence closed, and on a swap-closed graph it merges none exactly if the graph was congruence closed before |
| `EGraph.PassEnd` | alive2_snapshot/ir/fast_math.cpp:155-200 | the exit test and the measure that goes down when it fails |
| `EGraph.EGraph.VisitNode` | alive2_snapshot/ir/fast_math.cpp:159-182 | one node of a pass: replaced by its canonical form, or its swapped twin is declared equal |
| `EGraph.EGraph.GetNode` | alive2_snapshot/ir/fast_math.cpp:72-79 | finds the node or makes a new id in a class of its own |
| `EGraph.EGraph.GetExpr` | alive2_snapshot/ir/fast_math.cpp:109-152 | the id made for an expression stands for that expression, with its `reassoc` markers moved into the node below |
| `EGraph.EGraph.DeclEquivalent` | alive2_snapshot/ir/fast_math.cpp:81-95 | the class of the node joins the class of the given id |
| `EGraph.DeclareKeeps` | alive2_snapshot/ir/fast_math.cpp:81-95 | declaring a node equal to an id of the same meaning keeps the graph sound and complete |
| `EGraph.RemoveCovered` | alive2_snapshot/ir/fast_math.cpp:97-102 | removing a node whose canonical form is in the same class loses no expression |
| `EGraph.VisitKeeps` | alive2_snapshot/ir/fast_math.cpp:159-182 | every step keeps soundness, adds at most one id and keeps all other nodes |
| `EGraph.VisitRoots` | alive2_snapshot/ir/fast_math.cpp:159-182 | classes never increase, and if none was lost the partition of the old ids is unchanged |
| `EGraph.EvalIsRoot` | alive2_snapshot/ir/fast_math.cpp:154-201 | in a congruence closed graph, evaluating an expression over roots gives its root: the graph itself is the counter-model |
| `EGraph.RootsSound` | alive2_snapshot/ir/fast_math.cpp:303-322 | one root means equal expressions |
| `Unroll.WalkLifts` | alive2_snapshot/ir/function.cpp:635-704 | a walk of the original function lifts to a walk of the unrolled one exactly if no iteration needs a copy that does not exist, and then the lift is a walk |
| `Unroll.WalkProjects` | alive2_snapshot/ir/function.cpp:635-704 | a walk of the unrolled function projects to a walk of the original one, of which it is the only lift |
| `Unroll.CopyIsIteration` | alive2_snapshot/ir/function.cpp:679-704 | the copy a walk is in is the number of back edges it has taken since it entered the loop |
| `Unroll.FewBackEdgesFit` | alive2_snapshot/ir/function.cpp:669-677 | every walk with fewer than `k` back edges lifts |
| `Unroll.OverflowReachesSink` | alive2_snapshot/ir/function.cpp:691-700 | where a walk stops fitting, its lift can step into the sink |
| `Unroll.Function.UnrollNest` | alive2_snapshot/ir/function.cpp:608-704 | unrolling all loops of a nest, inner ones first, leaves no cycle; every walk from an original block is block for block a walk of the original function, and every original walk with fewer than `k` back edges per entry of each loop lifts to exactly one walk of the result |
| `Unroll.FewLiftOnce` | alive2_snapshot/ir/function.cpp:573-704 | after a nest was unrolled, every original walk with fewer than `k` back edges of each loop has exactly one lift |
| `Unroll.NestShrinks` | alive2_snapshot/ir/function.cpp:608-704 | unrolling the first loop of a nest leaves a nest of natural loops with one loop less |
| `Unroll.NoCycle` | alive2_snapshot/ir/function.cpp:608-704 | a function without remaining loops has no cyclic walk |
| `Unroll.CoversTrans` | alive2_snapshot/ir/function.cpp:608-704 | the projections of successive unrollings compose |
| `Unroll.LiftIsWalk` | alive2_snapshot/ir/function.cpp:635-704 | the lift of a walk that fits is a walk and projects back to it |
| `Unroll.PlaceOf` | alive2_snapshot/ir/function.cpp:635-677 | a block of the unrolled function is the copy its origin says, within the number of copies made |
| `Unroll.Function.UnrollLoop` | alive2_snapshot/ir/function.cpp:635-704 | one loop: the result is the original with every copy's targets redirected to the same, the next, or no copy |
| `Unroll.Function.CloneLoop` | alive2_snapshot/ir/function.cpp:656-677 | `k` copies of every block and one more of the header of a multi-block loop, numbered one to one, still with the original targets |
| `Unroll.Function.CloneRound` | alive2_snapshot/ir/function.cpp:662-667 | one more copy of every block of the loop |
| `Unroll.Function.CloneBlock` | alive2_snapshot/ir/function.cpp:507-527 | a clone is a new block with the targets of its original |
| `Unroll.Function.ReplaceTarget` | alive2_snapshot/ir/instr.cpp:3149-3157 | every operand equal to the old target becomes the new one, all others stay |
| `Unroll.Function.PatchCopy` | alive2_snapshot/ir/function.cpp:683-703 | replacing targets one after the other, over a list that changes, redirects every operand exactly once |
| `Unroll.Function.PatchLoop` | alive2_snapshot/ir/function.cpp:680-704 | all copies of the loop are redirected and nothing else changes |
| `Unroll.Function.UnrollFirst` | alive2_snapshot/ir/function.cpp:608-704 | one entry of the worklist, with the block lists of the outer loops brought up to date |
| `Unroll.Function.GrowAll` | alive2_snapshot/ir/function.cpp:618-667 | outer loops get the clones of the inner loop's blocks |
| `SsaRename.CloneNamesReachingDef` | alive2_snapshot/ir/function.cpp:473-506 | in every execution, an operand in copy `j` names the copy of the definition that reaches it, except exactly for a phi that names itself from the second copy on |
| `SsaRename.ReachIterReaches` | alive2_snapshot/ir/function.cpp:486-499 | the last definition before a read is of the same iteration if it stands earlier, else of the previous one; phis read on entry |
| `SsaRename.RenamedNames` | alive2_snapshot/ir/function.cpp:473-506 | `rauw_op` picks copy `j`, `j - 1`, or `j - 2` for a phi naming itself; values from outside the loop keep their name |
| `SsaRename.SelfPhiFallsBehind` | alive2_snapshot/ir/function.cpp:486-499 | run on a loop of one phi that names itself, the second copy still names the original phi, not the first copy |
| `SsaRename.Cloner.CloneInstr` | alive2_snapshot/ir/function.cpp:514-527 | a cloned instruction has a fresh name and renamed operands, and the value map grows by it |
| `SsaRename.Cloner.CloneBlock` | alive2_snapshot/ir/function.cpp:507-527 | all instructions of a block are cloned in order, phis recorded as they are met |
| `SsaRename.Cloner.CloneRound` | alive2_snapshot/ir/function.cpp:662-667 | all blocks are cloned once in topological order |
| `SsaRename.Cloner.CloneLoop` | alive2_snapshot/ir/function.cpp:656-677 | the copies 1 to `k - 1` and the extra header copy `k` |
| `PhiSources.SourcesMatch` | alive2_snapshot/ir/function.cpp:528-539 | for every edge into a clone, its phi takes the value the original phi takes from the block the edge comes from, and a source of a cloned phi is a predecessor exactly if the original one was |
| `PhiSources.PatchPhi` | alive2_snapshot/ir/function.cpp:528-539 | replacing and removing sources while walking a snapshot of them leaves the entries from the loop, each renamed to the last copy so far |
| `PhiSources.PhiFunction.UnrollLoop` | alive2_snapshot/ir/function.cpp:635-704 | a whole loop unrolled with the phis of all its clones |
| `PhiSources.PhiFunction.CloneBB` | alive2_snapshot/ir/function.cpp:507-539 | a clone made in round `j` names copy `j` of blocks cloned before it and copy `j - 1` of the others |
| `PhiSources.EntersFrom` | alive2_snapshot/ir/function.cpp:528-539 | the copy a cloned phi names is the one whose jump is later patched to lead there |
| `PhiSources.EmptiedIff` | alive2_snapshot/ir/function.cpp:541-560 | a cloned phi is left without entries exactly if it had none from the loop |
| `PhiSources.RemoveValue` | alive2_snapshot/ir/instr.cpp:2944-2952 | removes every entry with the source |
| `PhiSources.ReplaceSource` | alive2_snapshot/ir/instr.cpp:2962-2969 | replaces the first entry with the source only |
| `FnCalls.SameCountsOverlap` | alive2_snapshot/ir/state.cpp:144-212 | sites whose real call counts agree on all functions that matter to both are never rejected |
| `FnCalls.FnCallRanges.Overlaps` | alive2_snapshot/ir/state.cpp:144-212 | the loops over the two maps of ranges answer whether some count of every function that matters fits both |
| `FnCalls.SkipIff` | alive2_snapshot/ir/state.cpp:144-212 | which functions do not matter to the one that asks |
| `FnCalls.MeetAdmitsEither` | alive2_snapshot/ir/state.cpp:102-123 | after a meet, a count of a function is possible exactly if it was on one side; a missing entry means zero |
| `FnCalls.MeetAdmits` | alive2_snapshot/ir/state.cpp:102-123 | the real counts of a path are possible after the meet with any other path |
| `FnCalls.IncAdmits` | alive2_snapshot/ir/state.cpp:125-142 | counting one more call keeps the real counts possible; calls that cannot write are not counted |
| `FnCalls.FnCallRanges.Increment` | alive2_snapshot/ir/state.cpp:125-142 | the in-place update of one entry |
| `FnCalls.FnCallRanges.MeetWith` | alive2_snapshot/ir/state.cpp:102-123 | the in-place merge in its two passes |
| `FnCalls.MeetAccess` | alive2_snapshot/ir/state.cpp:102-123 | the accesses of a meet are those of both sides |
| `FnCalls.IncAccess` | alive2_snapshot/ir/state.cpp:125-142 | a call that is counted adds its accesses |
| `Exprs.Or` | alive2_snapshot/smt/exprs.h:41-48 | the disjunction holds exactly if some added condition does |
| `Exprs.OrLiterals` | alive2_snapshot/smt/exprs.cpp:69-85 | a disjunction is a literal exactly if one part is literally true or all are literally false |
| `Exprs.Literals` | alive2_snapshot/smt/exprs.cpp:69-85 | what negations and conjunctions fold to |
| `Exprs.MkPicks` | alive2_snapshot/smt/exprs.h:93-122 | if some domain is true, the merged value is one whose domain is true, and under a literal one if there is any |
| `Exprs.PicksIff` | alive2_snapshot/smt/exprs.h:60-122 | the values that may be merged, under a literal domain if there is one and else under any true one, are exactly those that some order of the entries gives |
| `Exprs.AddPicks` | alive2_snapshot/smt/exprs.h:66-77 | what may be merged after one more value: it alone under a literal, it too under a true domain unless an earlier one is literal |
| `Exprs.AddHas` | alive2_snapshot/smt/exprs.h:67-77 | adding a value under a true domain keeps only what may still be chosen; under a false one it changes nothing |
| `Exprs.AddDisjSome` | alive2_snapshot/smt/exprs.h:79-91 | a nested disjunction contributes exactly if its own domain and an inner one hold |
| `Executor.Execute` | alive2_snapshot/util/symexec.cpp:64-76 | running the executor over all blocks agrees with the concrete run: exactly its outcome is recorded, with its value and memory; the memories that some order of merging takes are exactly those recorded at the return and at the calls that end the run on the path the path conditions describe, of which the last one under a literal hides all others |
| `PathRecords.StoppedMemoryIff` | alive2_snapshot/ir/state.cpp:856-867 | the memory of a run that a call ended is what every order of merging takes if and only if the last record under a literal on the path holds it, or, if none is under a literal, all records do |
| `PathRecords.GuardKeepsMemory` | alive2_snapshot/ir/state.cpp:856-867 | it is kept in every run of a program in which no other call follows a call that may not return in its block, and the block ends in `unreachable` |
| `Executor.StoppedMemoryLost` | alive2_snapshot/ir/state.cpp:856-867 | run on a call that does not return, a write and a return, the memory recorded is that of the return: the path stays true for both |
| `PathRecords.RunTogether` | alive2_snapshot/ir/state.cpp:856-867 | until a call ends the run, the path and the run are in the same place with the same registers and memory; the first record is the memory of the run's end |
| `PathRecords.SettledIff` | alive2_snapshot/smt/exprs.h:67-77 | the memories that may be merged are that of the last record under a literal, or, without one, all that were recorded |
| `PathRecords.PathInstrStep` | alive2_snapshot/ir/state.cpp:829-867 | every instruction keeps the recorded memories those of the path |
| `PathRecords.PathTermStep` | alive2_snapshot/ir/instr.cpp:3122-3196 | every terminator keeps the recorded memories those of the path |
| `PathRecords.PathJumpStep` | alive2_snapshot/ir/state.cpp:775-804 | recording a jump moves the path along if its condition holds |
| `PathRecords.StartPath` | alive2_snapshot/ir/state.cpp:724-773 | merging the records of all predecessors at a block gives the state of the path there |
| `PathRecords.PathBlockStep` | alive2_snapshot/util/symexec.cpp:69-76 | a block executed after it was started leaves the records those of the path |
| `SymExec.FinalAgrees` | alive2_snapshot/ir/state.cpp:1338-1348 | return, no-return, sink and UB domains hold exactly for the corresponding outcomes |
| `SymExec.StartInside` | alive2_snapshot/ir/state.cpp:724-773 | the merged path-and-UB condition of a block holds exactly if the run reaches it without UB, with the merged memory and call ranges right |
| `SymExec.StartReached` | alive2_snapshot/ir/state.cpp:724-773 | if the run is at the block, the merged domain holds and the merged memory is that of the predecessor taken |
| `SymExec.StartDomain` | alive2_snapshot/ir/state.cpp:724-773 | the merged path holds exactly if a recorded jump is taken; with UB excluded the run is there |
| `SymExec.MergeTaken` | alive2_snapshot/ir/state.cpp:741-764 | merging the records of all predecessors has a true domain exactly if one of them is taken |
| `SymExec.JumpStep` | alive2_snapshot/ir/state.cpp:775-804 | recording a jump moves the run along if it is the one taken and leaves everything else alone |
| `SymExec.JumpTaken` | alive2_snapshot/ir/state.cpp:775-804 | the record of the jump taken hands over the run's memory and UB condition |
| `SymExec.JumpNotTaken` | alive2_snapshot/ir/state.cpp:775-804 | a recorded jump that is not taken changes nothing that can be observed |
| `SymExec.TermStep` | alive2_snapshot/ir/instr.cpp:3122-3196 | every terminator leaves the block the way the concrete run does |
| `SymExec.CasesStep` | alive2_snapshot/ir/instr.cpp:3182-3196 | a switch takes the matching case, and the default exactly if none matches |
| `SymExec.ReturnStep` | alive2_snapshot/ir/state.cpp:817-827 | a return records value and memory under the path and ends it |
| `SymExec.NoReturnStep` | alive2_snapshot/ir/state.cpp:856-867 | a call that does not return ends the run there exactly if its condition holds |
| `SymExec.PhiPicks` | alive2_snapshot/ir/instr.cpp:3022-3036 | a phi takes the value of the predecessor actually taken |
| `SymExec.PhiTakes` | alive2_snapshot/ir/instr.cpp:3022-3036 | what a phi gives in a concrete run: the value of the register its entries name for the predecessor, and no result if they name none or one without a value |
| `SymExec.PhiStuck` | alive2_snapshot/ir/instr.cpp:3022-3036 | or different ones |
| `SymExec.InstrTakes` | alive2_snapshot/ir/state.cpp:829-867 | what the other instructions do in a concrete run, on the values of their operands in order |
| `SymExec.InstrStep` | alive2_snapshot/ir/state.cpp:829-867 | every instruction keeps the agreement of executor and run, call counts included |
| `Executor.State.StartBlock` | alive2_snapshot/ir/state.cpp:724-773 | merges path, UB, memory and ranges over all recorded predecessors, and says whether the block need be executed |
| `Executor.State.Jump` | alive2_snapshot/ir/state.cpp:775-804 | records path, UB, memory and ranges for the target, or for the sink if the target has been started |
| `Executor.State.ExecTerm` | alive2_snapshot/ir/instr.cpp:3122-3196 | the terminator as jumps in order, the last one unconditional |
| `Executor.State.ExecBlock` | alive2_snapshot/util/symexec.cpp:69-76 | a started block is executed and left by the state and the run together |
| `Executor.State.AddRet` | alive2_snapshot/ir/state.cpp:817-827 | the in-place effect of a return on all five records |
| `Executor.State.AddStop` | alive2_snapshot/ir/state.cpp:856-867 | the in-place effect of a call that may not return |
| `AliasSets.AnswerExact` | alive2_snapshot/ir/memory.cpp:715-744 | the symbolic query never claims a block that is not in the set, and matches the bits for all blocks exactly if bit 0 is clear or the set has no gap |
| `AliasSets.AliasSet.IsFullUpToAlias` | alive2_snapshot/ir/memory.cpp:715-727 | the end of the leading run of set bits; the scan that should notice gaps never fires |
| `AliasSets.AliasSet.MayAlias` | alive2_snapshot/ir/memory.cpp:729-740 | the in-place query, by prefix or by enumeration |
| `AliasSets.GapLosesBlock` | alive2_snapshot/ir/memory.cpp:715-744 | run on the set `[true, false, true]`, the query for block 2 answers no |
| `AliasSets.AliasSet.SetMayAliasUpTo` | alive2_snapshot/ir/memory.cpp:755-759 | sets exactly the bits up to the limit |
| `AliasSets.AliasSet.IntersectWith` | alive2_snapshot/ir/memory.cpp:765-774 | a block of both sets survives, a block of one set that the other has a bit for does not, and one the other has no bit for stays; the result is the intersection exactly if there is no such block |
| `AliasSets.AliasSet.UnionWith` | alive2_snapshot/ir/memory.cpp:776-785 | no block of the set is lost; a block of the other set this one has no bit for is, so the result is the union exactly if there is none |
| `AliasSets.ComputeAliasing` | alive2_snapshot/ir/memory.cpp:978-1050 | the alias set of an access has exactly the blocks that some leaf pointer which is not ruled out may reach, by the checks and by what is known of that leaf, and that what is known of the whole pointer admits |
| `AliasSets.AddLeaf` | alive2_snapshot/ir/memory.cpp:993-1039 | starting a leaf from the blocks of the leaves before it, then intersecting and uniting, adds exactly the blocks of that leaf |
| `AliasSets.AliasSet.SetCandidates` | alive2_snapshot/ir/memory.cpp:985-990 | sets exactly the bits of the blocks that pass the checks |
| `AliasSets.CountOne` | alive2_snapshot/ir/memory.cpp:746-749 | with one bit set, the one block is the target: the singleton shortcut is sound |
| `AliasSets.CountIs` | alive2_snapshot/ir/memory.cpp:746-749 | the number of bits that are set is the number of blocks in the set |
| `MemoryModel.Memory.RunOps` | alive2_snapshot/ir/memory.cpp:1183-1291 | any history of stores, memsets and memcpys leaves the memory standing for the flat memory after the same history |
| `MemoryModel.Memory.RunOp` | alive2_snapshot/ir/memory.cpp:1183-1291 | one operation is one step of the flat memory |
| `MemoryModel.Memory.Store` | alive2_snapshot/ir/memory.cpp:1183-1243 | a store through the fan-out writes its bytes to the flat memory and nothing else, whatever the alias set claims besides the target |
| `MemoryModel.Memory.StoreLambda` | alive2_snapshot/ir/memory.cpp:1245-1291 | a lambda store writes `n` computed bytes to the flat memory and nothing else |
| `MemoryModel.Memory.Load` | alive2_snapshot/ir/memory.cpp:1115-1156 | a load returns the flat bytes of the target, or poison bytes if its tag excludes the type |
| `MemoryModel.Memory.Memset` | alive2_snapshot/ir/memory.cpp:2287-2319 | both the store-by-store form and the lambda form write `n` equal bytes |
| `MemoryModel.Memory.Memcpy` | alive2_snapshot/ir/memory.cpp:2354-2386 | the destination gets the bytes the source had before, for short, long and self copies |
| `MemoryModel.Memory.LoadPtr` | alive2_snapshot/ir/memory.cpp:2209-2236 | a pointer load decodes the flat bytes, although the tag may have skipped the load |
| `MemoryModel.Memory.LoadInt` | alive2_snapshot/ir/memory.cpp:2209-2236 | an integer load keeps the bits of the flat bytes, although the tag may have skipped the load |
| `MemoryModel.Memory.StoreThenLoadInt` | alive2_snapshot/ir/memory.cpp:672-699 | storing integer bytes and loading as many at the same place in either byte order gives each stored bit whose poison bit is set and none of the others; a pointer byte, or a byte whose sub-byte marks are not those the load asks for, gives none |
| `MemoryModel.Memory.StoreThenLoadPtr` | alive2_snapshot/ir/memory.cpp:612-670 | storing the bytes of a pointer's width and loading a pointer gives `q` exactly if the bytes are those of `q` without poison and numbered in order, or `q` is null and they are integer bytes of zeros without poison |
| `MemoryModel.OneByteMemory` | alive2_snapshot/ir/memory.cpp:626-699 | run on a memory of one byte: any byte stored is read back, as a pointer and as bits |
| `MemoryModel.KeptBits` | alive2_snapshot/ir/memory.cpp:677-698 | bit by bit what a load keeps of one byte |
| `MemoryModel.PoisonKeepsNone` | alive2_snapshot/ir/memory.cpp:677-698 | a byte that never got a value keeps none |
| `MemoryModel.PtrOfIff` | alive2_snapshot/ir/memory.cpp:626-670 | which bytes decode to which pointer |
| `MemoryModel.ReadsNull` | alive2_snapshot/ir/memory.cpp:626-670 | a byte counts as zero exactly if it reads as part of a null pointer when it has no poison; which kinds meet a tag |
| `MemoryModel.Memory.constructor` | alive2_snapshot/ir/memory.cpp:1414-1450 | local blocks start as poison without a tag, the others may hold anything |
| `MemoryModel.Memory.StoreSide` | alive2_snapshot/ir/memory.cpp:1075-1097 | one side of the fan-out changes the target block only, and keeps all tags sound |
| `MemoryModel.Memory.LambdaSide` | alive2_snapshot/ir/memory.cpp:1075-1097 | the same for lambda stores |
| `MemoryModel.AccessHits` | alive2_snapshot/ir/memory.cpp:1055-1097 | if the alias set contains the target, the access condition of a block holds exactly for the target, also in the singleton and one-sided forms |
| `MemoryModel.StoreBlockAt` | alive2_snapshot/ir/memory.cpp:1199-1239 | one block after a store, single value or array, fully overwritten or not: the data where it was hit, the old bytes elsewhere |
| `MemoryModel.LambdaBlockAt` | alive2_snapshot/ir/memory.cpp:1260-1288 | one block after a lambda store in each of its forms |
| `MemoryModel.StoreBlockTagOk` | alive2_snapshot/ir/memory.cpp:1199-1239 | every store keeps a block's type tag sound |
| `MemoryModel.LambdaBlockTagOk` | alive2_snapshot/ir/memory.cpp:1260-1288 | every lambda store keeps a block's type tag sound |
| `MemoryModel.FullTagOk` | alive2_snapshot/ir/memory.cpp:1210-1223 | replacing the tag on a full overwrite is sound |
| `MemoryModel.WriteTagOk` | alive2_snapshot/ir/memory.cpp:1224-1226 | adding to the tag on a partial write is sound |
| `MemoryModel.FewZeros` | alive2_snapshot/ir/memory.cpp:1175-1179 | a fully written block with fewer zero bytes than a pointer has holds no null pointer |
| `MemoryModel.ComputeDataType` | alive2_snapshot/ir/memory.cpp:1158-1181 | the tag of a store, with the early exit and the two rules for zero bytes |
| `MemoryModel.DataTypeIff` | alive2_snapshot/ir/memory.cpp:1158-1181 | the tag has integers exactly if a byte may be an integer for what is literal about it, pointers exactly if one may be a pointer byte or enough may be zero integer bytes for a null pointer |
| `MemoryModel.LitsTagIff` | alive2_snapshot/ir/memory.cpp:1158-1181 | the tag of a byte that depends on the offset has exactly the kinds that its literal conditions allow |
| `MemoryModel.SkippedPtrLoad` | alive2_snapshot/ir/memory.cpp:1126-1131 | a pointer load that the tag skips would have decoded to poison |
| `MemoryModel.SkippedIntLoad` | alive2_snapshot/ir/memory.cpp:1126-1131 | an integer load that the tag skips would have kept no bit of any byte |
| `MemoryModel.LoadByteIs` | alive2_snapshot/ir/memory.cpp:1126-1147 | the merged contributions of all blocks are the byte of the target |
| `MemoryModel.WroteIsPut` | alive2_snapshot/ir/memory.cpp:1183-1243 | if all blocks but the target keep their bytes, the flat memory gets one write |
| `MemoryModel.LoadIs` | alive2_snapshot/ir/memory.cpp:1115-1156 | loaded bytes in either order against the flat memory |
| `MemoryModel.PtrLoadIs` | alive2_snapshot/ir/memory.cpp:612-670 | skipping a pointer load by tag does not change its decoded result |
| `MemoryModel.IntLoadIs` | alive2_snapshot/ir/memory.cpp:672-699 | skipping an integer load by tag does not change its decoded result |
| `MemoryModel.BytesToPtr` | alive2_snapshot/ir/memory.cpp:626-670 | bytes decode to a pointer if none is poison, they agree in kind and pointer and their numbers are in order; zero integer bytes are a null pointer |
| `MemoryModel.BytesToInts` | alive2_snapshot/ir/memory.cpp:677-698 | which bits of each byte an integer load keeps |
| `SpanningTree.DepthFirst` | alive2_snapshot/ir/function.cpp:1093-1118 | the numbering is a spanning tree of the reachable blocks in which the interval test is exactly tree ancestry and the parent is the first predecessor to get a number |
| `SpanningTree.VisitKeeps` | alive2_snapshot/ir/function.cpp:1109-1114 | numbering a block and pushing its unvisited targets keeps the invariant of the search |
| `SpanningTree.LeaveKeeps` | alive2_snapshot/ir/function.cpp:1105-1107 | leaving a block closes the interval of its subtree |
| `SpanningTree.PushTargets` | alive2_snapshot/ir/function.cpp:1112-1114 | exactly the targets that were not visited are pushed, each once |
| `SpanningTree.AncChain` | alive2_snapshot/ir/function.cpp:1131-1133 | of two ancestors of a node one is an ancestor of the other |
| `SpanningTree.SearchDone` | alive2_snapshot/ir/function.cpp:1103-1117 | when the stack is empty every reachable block has a number and every interval is closed |
| `LoopAnalysis.Analysis.constructor` | alive2_snapshot/ir/function.cpp:1125-1195 | on any graph with all blocks reachable and no edge into the first block, headers have smaller numbers than members, and every loop is the nodes that lead back to its header inside its subtree, with its type right |
| `LoopAnalysis.ReducibleDominates` | alive2_snapshot/ir/function.cpp:1152-1176 | a header is marked reducible exactly if it dominates all members of its loop |
| `LoopCycles.CycleMissed` | alive2_snapshot/ir/function.cpp:1103-1117 | an irreducible cycle between two blocks that one block pushed is not found: no block gets a parent |
| `LoopCycles.TwoWayNotReducible` | alive2_snapshot/ir/function.cpp:1103-1117 | the cycle of that graph has no block that dominates it, so the graph is not reducible |
| `LoopAnalysis.NoBackNoLoop` | alive2_snapshot/ir/function.cpp:1139-1195 | without an edge into an ancestor no loop is found |
| `LoopAnalysis.GuardsIsDominates` | alive2_snapshot/ir/function.cpp:1093-1118 | dominance by numbers is dominance by blocks |
| `LoopAnalysis.AllHeaders` | alive2_snapshot/ir/function.cpp:1149-1182 | the main loop from the largest number down finds a loop for every header |
| `LoopAnalysis.ProcessHeader` | alive2_snapshot/ir/function.cpp:1149-1182 | one header: its body is collected, typed, given headers and collapsed |
| `LoopAnalysis.FindBody` | alive2_snapshot/ir/function.cpp:1150-1176 | the worklist collects the nodes that lead back to the header inside its subtree; a predecessor outside makes the loop irreducible |
| `LoopAnalysis.LookAt` | alive2_snapshot/ir/function.cpp:1167-1175 | one member of the worklist |
| `LoopAnalysis.BackMembers` | alive2_snapshot/ir/function.cpp:1150-1158 | the representatives of the sources of back edges, and self loops |
| `LoopAnalysis.MergeBody` | alive2_snapshot/ir/function.cpp:1178-1181 | the members get their header and are merged into it; the result of `merge` is the header |
| `LoopAnalysis.SplitEdges` | alive2_snapshot/ir/function.cpp:1139-1145 | every edge is sorted into the back or the other predecessors of its target |
| `LoopAnalysis.FindLoops` | alive2_snapshot/ir/function.cpp:1125-1182 | the loops of a whole function from its numbering |
| `LoopAnalysis.Forest` | alive2_snapshot/ir/function.cpp:1184-1194 | roots are the outermost headers, parents the headers of the others |
| `LoopAnalysis.Analysis.GetParent` | alive2_snapshot/ir/function.cpp:1197-1200 | the header of the innermost loop around a block, if any |
| `LoopAnalysis.Step` | alive2_snapshot/ir/function.cpp:1149-1182 | collapsing the body that was found keeps the invariant for all smaller numbers |
| `LoopNesting.BodyExact` | alive2_snapshot/ir/function.cpp:1150-1176 | a body is exactly the nodes of the subtree that lead back to the header inside the subtree |
| `LoopNesting.CycleFoundIff` | alive2_snapshot/ir/function.cpp:1150-1176 | a closed walk through a header lies in its loop exactly if it lies in its subtree |
| `LoopNesting.LoopConnected` | alive2_snapshot/ir/function.cpp:1150-1176 | a body is strongly connected without leaving it |
| `LoopNesting.ReducibleIff` | alive2_snapshot/ir/function.cpp:1152-1176 | the type is reducible exactly if every walk from the first node to a member passes the header |
| `LoopNesting.EntersAtHeader` | alive2_snapshot/ir/function.cpp:1167-1171 | with one entry, every walk into the loop passes the header |
| `LoopNesting.SideEntryUnguarded` | alive2_snapshot/ir/function.cpp:1167-1171 | a side entry leads around the header |
| `LoopCycles.ReducibleIffFound` | alive2_snapshot/ir/function.cpp:1125-1195 | every cycle has a block that dominates it if and only if every cycle lies in a loop, headed by one of its blocks, that is not marked irreducible |
| `LoopCycles.DominatedCycleFound` | alive2_snapshot/ir/function.cpp:1125-1195 | a cycle with a block that dominates all of it lies in that block's loop |
| `LoopCycles.ReducibleAllFound` | alive2_snapshot/ir/function.cpp:1125-1195 | on a reducible graph every cycle is found: it lies in the loop of one of its blocks, and its other blocks have a parent in the forest |
| `LoopCycles.MemberCycle` | alive2_snapshot/ir/function.cpp:1150-1176 | a member of a loop lies on a cycle with the header, inside the loop |
| `LoopCycles.HeaderGuards` | alive2_snapshot/ir/function.cpp:1152-1176 | the header of a loop not marked irreducible dominates its members |
| `LoopCycles.NotIrreducible` | alive2_snapshot/ir/function.cpp:1152-1176 | on a reducible graph no loop is marked irreducible |
| `LoopNests.ForestIsNest` | alive2_snapshot/ir/function.cpp:1184-1194 | the loops of every reducible function, listed with their blocks, are a nest of natural loops, as unrolling expects it |
| `LoopNests.ReducibleIsNest` | alive2_snapshot/ir/function.cpp:1184-1194 | in every list from the inside out they are a nest |
| `LoopNests.NaturalAt` | alive2_snapshot/ir/function.cpp:1149-1182 | a loop of a reducible function is natural: entered at its header alone, with back edges to it |
| `LoopNests.NestedOrApart` | alive2_snapshot/ir/function.cpp:1178-1181 | of two loops one contains the other, or they share no block |
| `LoopNests.ForwardAcyclic` | alive2_snapshot/ir/function.cpp:1125-1195 | without the edges from members to their headers no cycle is left |
| `LoopNests.InnerFirstExists` | alive2_snapshot/ir/function.cpp:587-622 | an order from the inside out exists |
| `LoopForest.BuildForest` | alive2_snapshot/ir/function.cpp:1183-1194 | the forest has exactly the outermost loops and the loops with members, each with the list of the nodes that have it as their innermost loop, and the roots |
| `LoopForest.TakeLoops` | alive2_snapshot/ir/function.cpp:587-618 | the worklist takes exactly the loops of the forest, each once, none after a loop that it is in |
| `LoopForest.InsideBefore` | alive2_snapshot/ir/function.cpp:594-618 | all loops inside a loop are taken before it |
| `UnrollOrder.TakenIff` | alive2_snapshot/ir/function.cpp:1189-1194 | a loop is in the forest exactly if it is not an inner loop of a single block |
| `UnrollOrder.TakenLoops` | alive2_snapshot/ir/function.cpp:587-618 | the loops that are taken, in order, are all loops if and only if no inner loop is a single block |
| `UnrollOrder.TakenIsNest` | alive2_snapshot/ir/function.cpp:587-618 | on a reducible function they then are a nest of natural loops, as unrolling expects it |
| `UnrollOrder.InnerSelfStays` | alive2_snapshot/ir/function.cpp:607-614 | a block that jumps to itself inside another loop still does when all loops that are taken have been unrolled |
| `UnrollOrder.InnerSelfSkipped` | alive2_snapshot/ir/function.cpp:607-614 | run on a loop of blocks 1 and 2, of which 2 also jumps to itself: the inner loop is not taken |
| `BodyOrder.LoopBlocks` | alive2_snapshot/ir/function.cpp:620-634 | the list of a loop has its header first and every block once, and every jump inside the loop that does not lead to the header goes forward in it |
| `BodyOrder.SortMembers` | alive2_snapshot/ir/function.cpp:430-468 | the sorted members have no edge that goes backwards, an inner loop counting its exit blocks as targets |
| `BodyOrder.UnrolledOrdered` | alive2_snapshot/ir/function.cpp:635-678 | in the list of the blocks of an unrolled loop every jump inside the loop goes forward, the header first |
| `UnrollRuns.PartsOk` | alive2_snapshot/ir/function.cpp:620-634 | in every state of a run the members of the next loop meet what the list needs |
| `UnrollRuns.StepKeeps` | alive2_snapshot/ir/function.cpp:635-678 | unrolling the next loop with its list keeps the state of the run: the remaining loops are a nest, the lists of unrolled loops are entered at their header, free of cycles and apart from each other |
| `UnrollRuns.NewRegion` | alive2_snapshot/ir/function.cpp:635-678 | the list of an unrolled loop is entered at its header alone, which comes first, with all jumps inside going forward |
| `UnrollRuns.RegionKept` | alive2_snapshot/ir/function.cpp:656-704 | the list of a loop apart from the one that is unrolled keeps this |
| `UnrollRuns.ExitsKept` | alive2_snapshot/ir/function.cpp:447-456 | the exit blocks recorded before unrolling are those of all copies |
| `UnrollRuns.OtherExitsKept` | alive2_snapshot/ir/function.cpp:447-456 | a loop apart from the one that is unrolled keeps its exit blocks |
| `LocalAddresses.LocalBlocks.Alloc` | alive2_snapshot/ir/memory.cpp:2026-2118 | while all blocks that were woken are in place, what is recorded stays true exactly if the new block has a nonzero address where there is no local bit and, when it is allocated, ends inside the area, is not at the one address the wrap test excludes, and shares no address with a live block, nor its own where both fit between aligned addresses; an allocated block then is aligned, and live blocks are pairwise disjoint |
| `LocalAddresses.LocalBlocks.StartLifetime` | alive2_snapshot/ir/memory.cpp:2120-2132 | for every local block, allocated or not: when it is in place, what is recorded stays true exactly if it was alive already or shares no address with a live block, and a block that was allocated is in place; live blocks are pairwise disjoint while all blocks that were woken are in place |
| `LocalAddresses.LocalBlocks.OneOwner` | alive2_snapshot/ir/memory.cpp:1966-2024 | while the recorded conditions hold and all blocks that were woken are in place, no address belongs to two live blocks, and all addresses of live blocks are inside the local area and not null, with aligned starts |
| `BitVectors.WrapIsMod` | alive2_snapshot/ir/memory.cpp:201-221 | numbers of a bit-vector's width are computed modulo two to the width |
| `LocalAddresses.LocalBlocks.RecordAddress` | alive2_snapshot/ir/memory.cpp:1983-2024 | the conditions recorded for the address of a new block, which put it in place if it is allocated |
| `LocalAddresses.NoWrapIff` | alive2_snapshot/ir/memory.cpp:2011-2014 | a block of whatever size that ends below the last address passes the test, and conversely, except at the topmost aligned address: a block there of a size known to be at most the alignment exponent is refused although it fits |
| `LocalAddresses.TopFits` | alive2_snapshot/ir/memory.cpp:2011-2014 | run on such a block |
| `LocalAddresses.NewBlockIff` | alive2_snapshot/ir/memory.cpp:2007-2023 | the address conditions together, without the test: aligned, inside, nonzero where there is no local bit, and apart from all live blocks |
| `LocalAddresses.WrappedEnd` | alive2_snapshot/ir/memory.cpp:1966-1981 | how the test against a block that runs over the end of the area comes out |
| `LocalAddresses.AwayIsApart` | alive2_snapshot/ir/memory.cpp:1966-1981 | the test against all live blocks holds exactly if no address is shared with one |
| `LocalAddresses.WrappedBlockWoken` | alive2_snapshot/ir/memory.cpp:2120-2132 | run on a block that was not allocated and wraps around: its lifetime starts although a live block has addresses in common with it |
| `LocalAddresses.LocalBlocks.Free` | alive2_snapshot/ir/memory.cpp:2134-2150 | freeing is defined for null and at the start of a heap block that is alive; it clears the block's own liveness bit and no other, and null and non-local pointers clear nothing |
| `LocalAddresses.LocalBlocks.constructor` | alive2_snapshot/ir/memory.cpp:1414-1450 | initially no block is alive and all conditions hold |
| `LocalAddresses.LocalBlocks.DisjointFromLive` | alive2_snapshot/ir/memory.cpp:1966-1981 | the conjunction over all blocks that are alive |
| `LocalAddresses.DisjointIsApart` | alive2_snapshot/ir/memory.cpp:180-189 | for aligned blocks that do not wrap, the equal-alignment shortcut and the interval test both hold exactly if no address is in both ranges |
| `LocalAddresses.StoreBitIs` | alive2_snapshot/ir/memory.cpp:201-221 | `store_bv` changes the block's own bit and no other at every width |
| `LocalAddresses.StoreBitExact` | alive2_snapshot/ir/memory.cpp:201-221 | for every block id at the width of the vector, also beyond its end, the store sets or clears exactly that bit if and only if the mask does not wrap around the vector |
| `LocalAddresses.LoadBitIs` | alive2_snapshot/ir/memory.cpp:191-199 | `load_bv` reads the block's bit, also by the all-ones shortcut |
| `LocalAddresses.AddressOk` | alive2_snapshot/ir/memory.cpp:1996-2014 | an address variable followed by zeros is aligned, and the one-value overflow test is enough when the size is at most the alignment exponent |
| `LocalAddresses.AddBlock` | alive2_snapshot/ir/memory.cpp:2016-2023 | adding a block under its precondition keeps the invariant |
| `LocalAddresses.WakeBlock` | alive2_snapshot/ir/memory.cpp:2125-2131 | setting the liveness bit of a block in place under its precondition keeps live blocks in place and apart |
| `LoopApprox.LoopExact` | alive2_snapshot/ir/instr.cpp:67-89 | the recorded precondition holds exactly if the loop ends within the limit, and then value, poison and UB are those of the unbounded loop |
| `LoopApprox.StrlenExact` | alive2_snapshot/ir/instr.cpp:4527-4549 | under its precondition `strlen` is the position of the first zero byte at the width of the result, UB exactly if there is none to be read |
| `LoopApprox.MemcmpExact` | alive2_snapshot/ir/instr.cpp:4422-4485 | under its precondition the sign is that of the first difference, or for `bcmp` the nonzero value chosen, zero exactly if there is none, poison exactly if a byte up to there cannot be compared |
| `LoopApprox.FalsePrefix` | alive2_snapshot/ir/instr.cpp:72-84 | after the loop has ended nothing more is recorded |
| `LoopApprox.LimitLarge` | alive2_snapshot/ir/instr.cpp:69-76 | the limit is at least the number of unrollings, also for constant inputs |
| `Aggregates.AggregateVals` | alive2_snapshot/ir/type.cpp:805-831 | packs one value per child that is not padding, and poison for padding |
| `Aggregates.ExtractPack` | alive2_snapshot/ir/type.cpp:833-862 | `extract` undoes `aggregateVals` for every child of every nested type |
| `Aggregates.PackParts` | alive2_snapshot/ir/type.cpp:805-862 | packing all extracted parts gives the aggregate back |
| `Aggregates.InsertThenExtract` | alive2_snapshot/ir/instr.cpp:2080-2103 | what `insertvalue` puts at a path, `extractvalue` gets from it |
| `Aggregates.InsertFrame` | alive2_snapshot/ir/instr.cpp:2080-2103 | an insertion does not change what is extracted along a diverging path |
| `Aggregates.InsertTwice` | alive2_snapshot/ir/instr.cpp:2080-2103 | the second insertion at a path wins |
| `Aggregates.InsertSame` | alive2_snapshot/ir/instr.cpp:2080-2103 | inserting what is there changes nothing, if the padding is poison |
| `Aggregates.UpdateRepack` | alive2_snapshot/ir/instr.cpp:2080-2112 | the recursion over the reversed index list computes the insertion |
| `Aggregates.IntRoundTrip` | alive2_snapshot/ir/type.cpp:972-994 | `fromInt` undoes `toInt` for vectors and structs without padding in both byte orders |
| `Aggregates.AggregateToInt` | alive2_snapshot/ir/type.cpp:972-983 | the concatenation loop in both byte orders |
| `Aggregates.FromIntFits` | alive2_snapshot/ir/type.cpp:989-994 | what `fromInt` builds has the widths of the type |
| `Aggregates.BVRoundTrip` | alive2_snapshot/ir/type.cpp:223-238 | `fromBV` undoes `toBV` |
| `Aggregates.VectorExtractIs` | alive2_snapshot/ir/type.cpp:1090-1107 | the shift-based extraction is plain indexing for every index in range |
| `Aggregates.VectorUpdateIs` | alive2_snapshot/ir/type.cpp:1109-1134 | the mask-and-shift update is the insertion at that index for every index in range |
| `ByteEncoding.StoreLoadRoundTrip` | alive2_snapshot/ir/memory.cpp:572-610 | a non-pointer value of a type of the program, encoded, laid out and read back in either byte order, decodes to the same value and poison, under the byte width and poison granularity the program chooses |
| `ByteEncoding.ScalarPoisonFits` | alive2_snapshot/ir/memory.cpp:598-606 | integers of every width fit |
| `ByteEncoding.VectorPoisonFits` | alive2_snapshot/ir/memory.cpp:598-606 | vectors fit if the poison bits of an element are aligned with the bytes |
| `ByteEncoding.VectorsFitIff` | alive2_snapshot/ir/memory.cpp:598-606 | vectors of a width fit at every length if and only if the poison bits of an element are whole bits of the byte's granularity |
| `ByteEncoding.AlwaysFits` | alive2_snapshot/ir/memory.cpp:598-606 | under the granularity the program chooses, every integer and vector type it has fits |
| `Granularity.MinVectorElemSize` | alive2_snapshot/ir/type.cpp:1484-1500 | a number divides the result exactly if it divides the element width of every vector in the type |
| `Granularity.MinOverTypes` | alive2_snapshot/tools/transform.cpp:1033-1039 | a number divides the result exactly if it divides the element width of every vector in all types of the program |
| `Granularity.Choose` | alive2_snapshot/tools/transform.cpp:1285-1290 | the width of a byte and the number of its poison bits, from the types of the program |
| `Granularity.ChosenEven` | alive2_snapshot/tools/transform.cpp:1287-1290 | poison bits divide a byte evenly |
| `Granularity.ChosenAligned` | alive2_snapshot/tools/transform.cpp:1287-1290 | the bits that share a poison bit divide the element width of every vector of the program |
| `Granularity.GcdIff` | alive2_snapshot/tools/transform.cpp:1033-1039 | a number divides the greatest common divisor exactly if it divides both |
| `ByteEncoding.BitsBack` | alive2_snapshot/ir/memory.cpp:677-698 | the bits cut into bytes come back from the bytes, whatever the padding, for every type of the program under the granularity it chooses |
| `ByteEncoding.ValueToBytes` | alive2_snapshot/ir/memory.cpp:587-608 | the bytes of a value are its bits and poison bits cut from below, with padding, stored width and number |
| `ByteEncoding.BytesToValue` | alive2_snapshot/ir/memory.cpp:672-698 | decoding joins the bytes from below and truncates |
| `ByteEncoding.ReadAcross` | alive2_snapshot/ir/memory.cpp:682-694 | a byte stored at one width in one place and read at another width in another place keeps its poison bits exactly if, where marks exist, the widths agree as far as the mark tells, whole octets counting as 0, and the places agree as far as the number tells |
| `ByteEncoding.ShorterLoad` | alive2_snapshot/ir/memory.cpp:672-698 | what a load of fewer bytes at the same address gives in both byte orders: the lowest or the highest bytes of the value with their poison, or, where the byte numbers are marked and differ, poison |
| `ByteEncoding.WidthsIff` | alive2_snapshot/ir/memory.cpp:268-277 | two widths have the same mark exactly if both are whole octets, or they agree modulo two to the width of the mark, a whole octet counting as 0 |
| `ByteEncoding.NumIff` | alive2_snapshot/ir/memory.cpp:268-277 | two places have the same number exactly if they agree modulo two to its width |
| `ByteEncoding.JoinBytes` | alive2_snapshot/ir/memory.cpp:677-697 | the joining loop |
| `ByteEncoding.IntByteFields` | alive2_snapshot/ir/memory.cpp:251-279 | every field of an integer byte is read back, sub-byte marks included |
| `ByteEncoding.PtrByteFields` | alive2_snapshot/ir/memory.cpp:229-249 | every field of a pointer byte is read back |
| `ByteEncoding.PtrRoundTrip` | alive2_snapshot/ir/memory.cpp:572-586 | a pointer comes back with its poison in both byte orders |
| `ByteEncoding.PtrByteAsInt` | alive2_snapshot/ir/memory.cpp:682-694 | a pointer byte gives an integer load nothing but poison |
| `ByteEncoding.LoadStored` | alive2_snapshot/ir/memory.cpp:2184-2192 | reading in the byte order of the target undoes the layout |
| `ByteRefinement.RefinedIff` | alive2_snapshot/ir/memory.cpp:409-430 | the three forms for one, some and all poison bits per byte say the same: every bit that is not poison in the source is equal and not poison in the target |
| `ByteRefinement.RefinedPreorder` | alive2_snapshot/ir/memory.cpp:409-430 | refinement of integer bytes is reflexive and transitive at every granularity |
| `MixedBytes.TransitiveIff` | alive2_snapshot/ir/memory.cpp:397-462 | refinement of all bytes, pointer bytes and mixed pairs included, is transitive if and only if a byte has one poison bit, pointers are stored and a pointer is one byte wide |
| `MixedBytes.Reflexive` | alive2_snapshot/ir/memory.cpp:397-462 | every byte refines itself |
| `MixedBytes.Composes` | alive2_snapshot/ir/memory.cpp:397-462 | two refinements compose unless the middle byte alone is of the other kind |
| `MixedBytes.PtrPreorder` | alive2_snapshot/ir/pointer.cpp:717-740 | refinement of pointers is reflexive and transitive and relates null to null only |
| `MixedBytes.PtrRefinedOnly` | alive2_snapshot/ir/pointer.cpp:717-740 | what each kind of pointer may become: null only null, a pointer to a block of both memories only itself, one to a local block only one of the same kind, size and offset, to a live block unless its own was freed |
| `MixedBytes.PtrByteRefined` | alive2_snapshot/ir/memory.cpp:431-450 | a pointer byte without poison is refined among pointer bytes exactly by one without poison at the same place of a refined pointer, or of the same pointer if none is stored |
| `MixedBytes.RefinedAccess` | alive2_snapshot/ir/pointer.cpp:717-740 | so what may be accessed through a local pointer before may be accessed after, at the same offset |
| `MixedBytes.PartialPoison` | alive2_snapshot/ir/memory.cpp:447-461 | with several poison bits per byte refinement is not transitive: a partly poison integer byte is refined, through a poison pointer byte, by a fully poison one, but not directly |
| `ByteRefinement.WholeRefined` | alive2_snapshot/ir/memory.cpp:672-698 | refinement of all bytes is refinement of what they are joined to |
| `ByteRefinement.IntLoadRefined` | alive2_snapshot/ir/memory.cpp:672-698 | if all bytes are refined, so is every integer loaded from them |
| `ByteRefinement.VectorLoadRefined` | alive2_snapshot/ir/memory.cpp:672-698 | if all bytes are refined, so is every element of every vector type of the program loaded from them |
| `PhysicalPointers.RoundTrip` | alive2_snapshot/ir/pointer.cpp:547-593 | the physical pointer made from an observed in-bounds logical pointer resolves to the same block and offset and is dereferenceable for exactly the same sizes |
| `PhysicalPointers.PhyPtr` | alive2_snapshot/ir/pointer.cpp:547-593 | for every list of candidate blocks the access is allowed exactly if a usable block that is non-local or was observed contains all its bytes, and the result is one that two merges, of ids and of addresses, each in an order of its own, may give |
| `PhysicalPointers.UnobservedIgnored` | alive2_snapshot/ir/pointer.cpp:555-593 | local blocks that were never observed do not matter: the pointers that may result are those that may result from the other candidates |
| `PhysicalPointers.AllUnobserved` | alive2_snapshot/ir/pointer.cpp:555-593 | among local blocks that were never observed alone, the address is in none |
| `PhysicalPointers.Merge` | alive2_snapshot/smt/exprs.h:93-122 | the loop over a map, whose entries may come in any order, returns what some order of them gives |
| `PhysicalPointers.MergesIff` | alive2_snapshot/smt/exprs.h:60-122 | the candidates some order takes are those whose test holds and that come last among those under a literal, if any |
| `PhysicalPointers.ResolveIff` | alive2_snapshot/ir/pointer.cpp:555-593 | the id may come from any such candidate and the offset, independently, from any other one |
| `PhysicalPointers.DerefIff` | alive2_snapshot/ir/pointer.cpp:404-420 | what is known of sizes and addresses does not change whether a considered block allows the access |
| `PhysicalPointers.EveryOrderIff` | alive2_snapshot/ir/pointer.cpp:555-593 | when the access is allowed, the result is right in all orders of the two maps if and only if all candidates the merge may take allow the access and begin at one address |
| `PhysicalPointers.SoleClaim` | alive2_snapshot/ir/pointer.cpp:555-593 | if one block alone claims the address, the result is the pointer into that block |
| `PhysicalPointers.BaseOfAnother` | alive2_snapshot/ir/pointer.cpp:573-592 | a dead block that overlaps a live one may give the offset and the live one the id, which is a pointer to another byte |
| `PhysicalPointers.OnePastIff` | alive2_snapshot/ir/pointer.cpp:388-420 | among blocks that do not overlap, a pointer one past the end of a block is dereferenceable if and only if a usable considered block starts there and is long enough |
| `PhysicalPointers.DerefOwner` | alive2_snapshot/ir/pointer.cpp:404-420 | if one block alone contains the address, it is dereferenceable exactly if that block is usable and the access ends inside it |
| `PhysicalPointers.InboundsOwner` | alive2_snapshot/ir/pointer.cpp:388-420 | only the owner passes the tests for being of a block and inside it |
| `PhysicalPointers.OnePastResolvesElsewhere` | alive2_snapshot/ir/pointer.cpp:388-402 | run on two adjacent blocks, a pointer one past the end of the first may be dereferenced, in the second |
| `PhysicalPointers.DeadBlockChosen` | alive2_snapshot/ir/pointer.cpp:561-576 | run on a dead block at the address of a live one, whose test is a literal: the access is allowed but the pointer is into the dead block |
| `PhysicalPointers.FindLogicalLocal` | alive2_snapshot/ir/pointer.cpp:874-890 | whether an observed local block contains the address, and if so one that the merge may take and the offset in it; the only one if observed blocks do not overlap, and null if none was observed |
| `Wire.FrameRoundTrip` | relay_server/RelayServer.cpp:193-222 | a framed text is read back exactly, followed by the rest of the stream, if and only if its length has at most the allowed digits; else it is refused |
| `Wire.ReadFramed` | relay_server/RelayServer.cpp:196-222 | the reading loop equals parsing the stream, however reads split it |
| `Wire.ReadRelayMessage` | src/ValidatorServer.cpp:161-189 | messages to the validator have at most 7 length digits |
| `Wire.ReadValidatorMessage` | relay_server/RelayServer.cpp:196-222 | messages to the relay have at most 8 length digits |
| `Wire.ReadUntilLength` | src/ValidatorServer.cpp:147-156 | reads exactly the given number of bytes, or fails if the stream ends |
| `Wire.Socket.Read` | src/ValidatorServer.cpp:150 | a read takes at least one and at most `n` bytes unless the stream has ended |
| `Wire.AtoiToText` | relay_server/RelayServer.cpp:204 | `atoi` undoes `to_string` |
| `Wire.Decimal` | relay_server/RelayServer.cpp:204 | the text of a number has the decimal digits of the number, the last one counting the ones |
| `Wire.DecimalDigit` | src/ValidatorServer.cpp:164-170 | the characters taken for digits are those of the decimal system |
| `Wire.DigitCount` | relay_server/RelayServer.cpp:198-217 | a number has at most `d` digits exactly if it is below the d-th power of ten |
| `Wire.ValidateRoundTrip` | src/ValidatorServer.cpp:280-305 | the four fields of a validate command arrive exactly if each is clean for the separator that follows it |
| `Wire.GenerateRoundTrip` | src/ValidatorServer.cpp:307-324 | the two fields of a generate command arrive exactly if the first is clean for its separator |
| `Wire.IrRoundTrip` | relay_server/RelayServer.cpp:93-97 | the two IR texts arrive exactly if the first is clean for the separator |
| `Wire.FieldsRecovered` | src/ValidatorServer.cpp:286-302 | for any fields and separators, splitting undoes joining exactly if every field is clean |
| `Wire.CleanIff` | src/ValidatorServer.cpp:286-289 | a search finds the separator after a field exactly if it does not occur earlier, also not across the border |
| `Wire.ParseValidate` | src/ValidatorServer.cpp:280-305 | the search by position in the whole command, and the error for a missing separator |
| `Wire.ParseGenerate` | src/ValidatorServer.cpp:307-324 | the same for a generate command |
| `Wire.SplitIr` | relay_server/RelayServer.cpp:93-97 | the split of the IR response |
| `Wire.Find` | src/ValidatorServer.cpp:286-289 | the first occurrence from a position on |

## Left out

- DominatesQuery: every block but the first has an earlier predecessor, which leaves
  out unreachable blocks; `BlockOrder.CreateBlocks` says that block creation provides
  the order, and `ExitRuns.SortAfterStep` that sorting while unrolling does.
- DepthFirst: the first block has no predecessor, as in LLVM IR.
- UnrollNest: the loops are natural, each listed with its blocks, inner loops first,
  as the loop forest yields them for reducible graphs (`LoopNests.ForestIsNest`); the
  worklist takes all of them exactly if no inner loop is a single block
  (`UnrollOrder.TakenLoops`).
- CloneNamesReachingDef: how definitions dominate uses is a premise about the execution,
  as the SSA form of the input gives it; that the blocks of a loop are listed in
  topological order is `BodyOrder.LoopBlocks`.
- SourcesMatch: a phi without any entry from the loop is deleted by the source and its
  uses take the original value; the model keeps it without entries and says when this
  happens (`PhiSources.EmptiedIff`). Operands inside aggregate constants are renamed
  like all others and not modelled apart.
- Execute: a run that reads an undefined register is excluded, as in SSA form; what is
  said of recorded memories also excludes it on the path behind a call that ended the
  run. Poison, undef variables, variadic arguments and guardable UB are not part of the
  executor's model.
- GuardKeepsMemory: the guard is sufficient; what is exact is StoppedMemoryIff.
- Patching of users outside an unrolled loop, with new phis or through memory
  (alive2_snapshot/ir/function.cpp:706-858).
- The member lists of the e-graph's classes and the expression rebuilt from them
  (`smtOf`); the class of an id is the set of nodes with its root.
- FloatRefined: for different roots the source goes on to compare the two rebuilt
  expressions; the model stops at the roots.
- MeetWith: the sets of non-poison, non-undef and unused variables are not modelled.
- Forest: the list of members of each header is `LoopForest.BuildForest`.
- RunOps: accesses are in bounds and the alias set contains the target block, which
  is what dereferenceability and `computeAliasing` are for. The checks by which
  `computeAliasing` admits a block are a given set per leaf pointer.
  Offsets do not wrap, and a pointer is an opaque number. Undef sets,
  initialisation-phase stores, the folding of a constant array to a single value,
  `memset_pattern` and `Memory::copy` are not modelled.
- Alloc: only local blocks; the size has been rounded up and the alignment is a power
  of two. Heap blocks that may fail to allocate are those with `given` false.
- StartLifetime: what it guarantees for a block that was not allocated depends on where
  the block is.
- LoopExact: the early exit for paths that are known to be infeasible is not modelled.
- IntRoundTrip: types without padding, because only those are turned into integers
  (alive2_snapshot/ir/memory.cpp:588); scalars of width zero are not modelled.
- StoreLoadRoundTrip: pointers are PtrRoundTrip; vectors of pointers are stored element
  by element and not modelled.
- IntLoadRefined: integer bytes only, without sub-byte marks and without reading
  integers as pointers; the same holds for VectorLoadRefined.
- RefinedPreorder: integer bytes; all bytes are `MixedBytes`, in a program that accesses
  both kinds and outside assembly mode.
- RoundTrip: alignment checks and the constraints on a block other than being usable are
  one flag per block; the same holds for PhyPtr.
- FrameRoundTrip: read errors are not modelled; a stream that ends before the blank
  leaves an empty message, as in the source.
- Translation from LLVM, the SMT solver and its simplifications, floating-point
  semantics, assembly mode, indirect calls, havoc of memory by unknown calls, sockets,
  processes, HTTP and the web front end.
