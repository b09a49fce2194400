# A verified model of miasm's analysis kernel

miasm recovers control-flow graphs from machine code, lifts them to an intermediate
representation and transforms that. This project models the part of it that every other
pass relies on, and proves what each algorithm is for:

- **SSA construction** (`Ssa*.dfy`, on `Ir.dfy`): phis on iterated dominance frontiers, renaming
  along the dominator tree with a saved stack, initial versions, and the backward search that
  recovers which predecessor an unordered phi argument belongs to. The converted program does
  what the original does, on every path.
- **Graph algorithms** (`Paths`, `Dominators`, `DiGraphs`, `Components`, `Loops`): worklist
  dominators, the idom walk, dominance frontiers, Gabow's strongly connected components and the
  explicit-stack cycle test, each against a path-based definition.
- **Dataflow** (`SubExprs`, `DataFlow`, `ReachingDefs`, `DeadSearch`, `DeadMeaning`, `DeadRemoval`): the reaching
  definitions fixpoint, the def-use graph and dead assignment removal, with a simulation between the
  original and the pruned program.
- **Modular intervals** (`Intervals`, `Bits`, `HackersDelight`, `ModularRanges`, `ModularIntervals`,
  `Operators`, `RangePoints`, `ExprRange`, `Aliasing`): canonical interval sets, the Hacker's Delight bit
  loops, their lifting to sets and to whole expressions, exactly which sets these are, and the aliasing
  test built on them.
- **Recursive disassembly** (`Asm`, `AsmCfgs`, `Disasm`): the worklist over blocks, pending edges,
  block splitting and edge rebuilding.
- **Decoder index and bit codec** (`BitStrings`, `Codec`, `Trie`, `TrieFactor`, `TrieLengths`): the bit-field
  tree, its two rewritings, and packing and reading of bits.

The expression and IR library is a small datatype (`Ir.dfy`): an assignment block is a map evaluated
in parallel, a block a sequence of them, `IRDst` an ordinary variable whose value chooses the
successor, and a `Machine` gives operators, loads and stores their meaning. SSA names are
(variable, index) pairs. Mutable objects of the source are classes; sets the source pops in hash order are
popped in arbitrary order here, so every result holds for every order.

## Model

| member | source | states |
|---|---|---|
| SsaTransform.SsaDiGraph.Transform | miasm/analysis/ssa.py:403-411 | the whole conversion: refuses exactly the graphs with a block not reachable from the head, otherwise leaves the program in SSA form (version tables over the dominator tree, single assignment, phi arguments that are versions) with the fewest phis possible, keeping the graph |
| SsaSources.SamePrograms | miasm/analysis/ssa.py:372-665 | on every path from the head the SSA program ends with the same memory, the same IRDst and, under its current version, the same value of every variable as the original |
| SsaMeaning.MeaningPreserved | miasm/analysis/ssa.py:253-307 | the simulation behind it: original and SSA states stay related under the version table of the block reached |
| SsaForm.AssignedOnce | miasm/analysis/ssa.py:152-168 | no version is assigned at two places of the program, phis and initial assignments included |
| SsaSources.SourceOfPredecessor | miasm/analysis/ssa.py:706-731 | the backward search from a predecessor can end at a phi argument iff that argument is the version leaving the predecessor: one always exists, and no other is found whatever the order |
| SsaSources.GetPhiSourcesParentBlock | miasm/analysis/ssa.py:706-731 | the worklist terminates, its assertion never fails, and it maps each argument to exactly the predecessors it leaves |
| SsaSources.GetVarAssignmentSrc | miasm/analysis/ssa.py:690-703 | finds an assigned candidate of a block iff there is one, its assertion of at most one holding |
| SsaSources.ResolvingChoice | miasm/analysis/ssa.py:706-731 | every phi of the result can be resolved for every predecessor |
| SsaPlacement.PhiSufficient | miasm/analysis/ssa.py:448-490 | without a phi for v at n, no block strictly between idom(n) and n on a path not revisiting idom(n) writes v or holds a phi for it, and every predecessor carries the version leaving idom(n) |
| SsaPlacement.PlacedClosed | miasm/analysis/ssa.py:448-490 | the phis placed are closed under dominance frontiers of definitions and phis |
| SsaPlacement.PlacedMinimal | miasm/analysis/ssa.py:448-490 | every closed placement contains the phis placed |
| SsaPlacement.VariableDefs | miasm/analysis/ssa.py:419-446 | records exactly the reachable blocks that define each variable, and fails iff some block is unreachable |
| SsaPlacement.PlaceVariable | miasm/analysis/ssa.py:464-490 | the worklist computes the least set holding the frontier of the definitions and of itself |
| SsaTransform.SsaDiGraph.InitVariableDefs | miasm/analysis/ssa.py:419-446 | the same on the object, through its graph and blocks |
| SsaTransform.SsaDiGraph.PlacePhi | miasm/analysis/ssa.py:448-490 | empty phis at a closed placement contained in every closed one, none at the head |
| SsaTransform.SsaDiGraph.TransformVarRhs | miasm/analysis/ssa.py:139-150 | a read becomes the current version, or stays as it is without one |
| SsaTransform.SsaDiGraph.TransformVarLhs | miasm/analysis/ssa.py:152-168 | a write takes the next version, which becomes current and is registered |
| SsaTransform.SsaDiGraph.TransformExpressionRhs | miasm/analysis/ssa.py:188-204 | every variable read in an expression is renamed at once to its current version |
| SsaTransform.SsaDiGraph.TransformExpressionLhs | miasm/analysis/ssa.py:170-186 | a memory destination is renamed as a read, a variable destination gets its next version |
| SsaRenaming.ParallelInstructions | miasm/analysis/ssa.py:207-230 | the list holds each assignment of the block once, memory destinations first, so renaming it in order renames it in parallel |
| SsaTransform.SsaDiGraph.RenameExpressions | miasm/analysis/ssa.py:253-307 | each assignment block is renamed with the versions before it for reads and after it for writes, and new versions are fresh |
| SsaTransform.SsaDiGraph.RenamePhiLhs | miasm/analysis/ssa.py:553-566 | the destinations of a row of phis take their next versions, keeping their arguments |
| SsaTransform.SsaDiGraph.RenamePhiRhs | miasm/analysis/ssa.py:568-596 | each phi of a successor receives the current version of its variable as one more argument |
| SsaTransform.SsaDiGraph.RenameAll | miasm/analysis/ssa.py:512-551 | after the walk of the dominator tree every block was entered with the versions leaving its immediate dominator (plus its phis), every phi holds exactly the versions leaving its predecessors, and no version was given twice |
| SsaTransform.SsaDiGraph.ConvertPhi | miasm/analysis/ssa.py:604-623 | each block with phis gets one assignment block holding them in front, the others are unchanged |
| SsaTransform.SsaDiGraph.FixNoDefVar | miasm/analysis/ssa.py:625-665 | exactly the unversioned phi arguments get a fresh initial version, assigned at the head and substituted everywhere |
| SsaPhis.RowBlock | miasm/analysis/ssa.py:501-510 | the assignment block of a row holds, for each destination, a phi of exactly its arguments, of the size of its variable |
| SsaPhis.BlockHasPhi | miasm/analysis/ssa.py:668-677 | true only on blocks that open with a phi, and on every block opening with phis only |
| SsaPhis.UnversionedIsArgument | miasm/analysis/ssa.py:625-640 | a variable without a version at the end of a predecessor shows up as an unversioned phi argument, so the fix sees it |
| Dominators.GenericDominators | miasm/core/graph.py:404-449 | the worklist terminates, its assertion never fails, and d is listed for n iff n is reachable and every path from the head to n passes d |
| DiGraphs.DiGraph.ComputeDominators | miasm/core/graph.py:451-456 | the same on the graph object |
| DiGraphs.DiGraph.ComputePostdominators | miasm/core/graph.py:458-466 | d postdominates n iff every path from n to the leaf passes d |
| Dominators.WalkDominators | miasm/core/graph.py:482-528 | yields all strict dominators, each dominated by the ones after it, its assertion never failing |
| Dominators.ComputeImmediateDominators | miasm/core/graph.py:552-562 | maps every reachable node but the head to the strict dominator dominated by all the others |
| DiGraphs.DiGraph.ComputeDominatorTree | miasm/core/graph.py:468-480 | a graph with exactly one edge from the immediate dominator to each such node |
| Dominators.ComputeDominanceFrontier | miasm/core/graph.py:576-599 | frontier[x] is exactly the nodes y other than the head with a reachable predecessor x dominates, while x does not strictly dominate y; the runner loop terminates |
| Dominators.ReachableNodes | miasm/core/graph.py:360-373 | yields each node reachable from the head once, after one of its predecessors |
| Dominators.WalkFirst | miasm/core/graph.py:601-622 | visits each reachable node once; each node visited is, of the successors of the nodes visited before that are not visited yet, the last found when depth first and the first found when breadth first |
| Dominators.OneOrder | miasm/core/graph.py:601-622 | that determines the whole order |
| Components.StronglyConnectedComponents | miasm/core/graph.py:735-795 | terminates with `boundaries` never empty when inspected, and yields exactly the mutual-reachability classes, each after every class it can reach |
| DiGraphs.DiGraph.ComputeStronglyConnectedComponents | miasm/core/graph.py:720-796 | the same on the graph object |
| Loops.HasLoop | miasm/core/graph.py:640-666 | true iff the graph has a cycle, though nodes may sit several times on the stack and be popped while open |
| DiGraphs.DiGraph.HasLoop | miasm/core/graph.py:640-666 | true iff some edge of the object lies on a cycle |
| DiGraphs.DiGraph.AddNode | miasm/core/graph.py:69-79 | adds the node, says whether it was new, keeps the adjacency lists in step with the edges |
| DiGraphs.DiGraph.AddEdge | miasm/core/graph.py:92-99 | appends the edge, adding its ends, lists in step |
| DiGraphs.DiGraph.AddUniqEdge | miasm/core/graph.py:101-105 | appends the edge unless it is there, adding its ends |
| DiGraphs.DiGraph.DelEdge | miasm/core/graph.py:107-110 | removes the first such edge from the list and from both adjacency lists |
| DiGraphs.RemovesFirst | miasm/core/graph.py:107-110 | what is removed from a list is one occurrence, with none before it, the rest staying in order |
| DiGraphs.DiGraph.DiscardEdge | miasm/core/graph.py:112-115 | removes the first such edge if there is one |
| DiGraphs.DiGraph.DelNode | miasm/core/graph.py:81-90 | removes the node and every edge at it, in order, self loops included |
| ReachingDefs.ReachingDefinitions.Compute | miasm/analysis/data_flow.py:59-65 | terminates with a table that lists a definition at a point iff some path carries it there without redefinition |
| ReachingDefs.ReachingDefinitions.ProcessBlock | miasm/analysis/data_flow.py:67-87 | merges the predecessors' ends and pushes them through the block; reports a change iff there is one |
| ReachingDefs.ReachingDefinitions.ProcessAssignblock | miasm/analysis/data_flow.py:89-106 | the point after an assignment block replaces the definitions it makes and keeps the others |
| ReachingDefs.FixpointComplete | miasm/analysis/data_flow.py:59-106 | a stable table misses no definition carried by a path |
| DeadSearch.FindDefinitionsFromWorklist | miasm/analysis/data_flow.py:252-286 | the backward worklist terminates with exactly the last definitions reaching the ends of the wanted blocks, in any order |
| DeadRemoval.ComputeDefUse | miasm/analysis/data_flow.py:160-181 | the graph has an edge from a definition to an assignment iff the assignment reads it from the table |
| DeadRemoval.GetBlockUsefulDestinations | miasm/analysis/data_flow.py:226-246 | exactly the assignments of the block to a memory cell, to IRDst or to a variable named exception_flags, or from an operator whose name starts with call |
| DeadRemoval.DeadRemover.FindOutRegs | miasm/analysis/data_flow.py:288-297 | exactly the definitions of out-registers reaching the end of the block |
| DeadRemoval.DeadRemover.AddDefForIncompleteLeaf | miasm/analysis/data_flow.py:299-315 | exactly the definitions reaching the end of a block with a missing successor |
| DeadRemoval.DeadRemover.GetUsefulAssignments | miasm/analysis/data_flow.py:317-361 | exactly the assignments some chain of reads connects to a root |
| DeadRemoval.DeadRemover.DoDeadRemoval | miasm/analysis/data_flow.py:363-391 | an assignment remains iff from it a finite chain of reads, each of the value as some path carries it, ends at an assignment to a cell, IRDst or the exception flags, from a call, or whose value reaches the end of a leaf as an out-register or the end of a block with a missing successor; it keeps its source, and the chain goes through remaining assignments; a change is reported iff there is one |
| DeadMeaning.SameRuns | miasm/analysis/data_flow.py:363-391 | a path is a run of the original iff it is one of the pruned program, and both end with the same memory and IRDst |
| DeadMeaning.SameControl | miasm/analysis/data_flow.py:226-234 | memory, IRDst and exception flags agree at every point of every run |
| DeadMeaning.SameCalls | miasm/analysis/data_flow.py:226-234 | calls are kept and evaluated to the same value |
| DeadMeaning.SameAtExit | miasm/analysis/data_flow.py:288-315 | out-registers agree at leaves, all variables at exits to missing blocks |
| DeadMeaning.PrunedTwice | miasm/analysis/data_flow.py:363-391 | a second removal removes nothing |
| DeadMeaning.RemovalLeaves | miasm/analysis/data_flow.py:226-391 | that characterization of what remains, from the useful assignments |
| SubExprs.ReadParts | miasm/expression/expression.py:282-326 | get_r with mem_read collects exactly the identifiers and cells among the parts of the expression |
| SubExprs.ReadsOutside | miasm/expression/expression.py:282-326 | get_r without mem_read collects exactly those that lie in no pointer |
| SubExprs.OccursParts | miasm/expression/expression.py:434-459 | containment is being a part |
| Intervals.CmpInterval | miasm/core/interval.py:12-32 | each answer means what its name says of the two ranges |
| Intervals.CannonList | miasm/core/interval.py:58-88 | a sorted list of non-adjacent ranges with the same points |
| Intervals.CanonicalUnique | miasm/core/interval.py:122-126 | such a list is determined by its points, so equality of lists is equality of sets |
| Intervals.ContainsPoint | miasm/core/interval.py:105-120 | membership of a point |
| Intervals.ContainsInterval | miasm/core/interval.py:105-120 | the test on intervals is the subset relation |
| Intervals.Union | miasm/core/interval.py:128-137 | canonical, with exactly the points of either |
| Intervals.Intersection | miasm/core/interval.py:194-230 | canonical, with exactly the common points |
| Intervals.Difference | miasm/core/interval.py:139-192 | the splitting loop terminates; canonical, with exactly the points of the first not in the second |
| Intervals.HullBounds | miasm/core/interval.py:242-252 | the hull is the first and last point, absent iff the set is empty |
| Intervals.LengthOne | miasm/core/interval.py:278-284 | length one means a single point, the one the hull gives |
| HackersDelight.RangeOrMin | miasm/analysis/modularintervals.py:128-149 | the least x or y over the box: a bound, and attained, for every width |
| HackersDelight.RangeOrMax | miasm/analysis/modularintervals.py:151-171 | the greatest x or y over the box, bounded and attained |
| HackersDelight.RangeAndMin | miasm/analysis/modularintervals.py:186-206 | the least x and y over the box, bounded and attained |
| HackersDelight.RangeAndMax | miasm/analysis/modularintervals.py:208-229 | the greatest x and y over the box, bounded and attained |
| HackersDelight.RangeXor | miasm/analysis/modularintervals.py:244-260 | the bounds that the exact bounds of x & ~y and of ~x & y give, whatever computes these; they enclose every x xor y of the box |
| HackersDelight.XorBoundsOne | miasm/analysis/modularintervals.py:244-260 | on single values these bounds are the value |
| ModularRanges.RangeAdd | miasm/analysis/modularintervals.py:89-110 | exactly the sums of the box modulo the width, wrapping or not |
| ModularRanges.RangeMinus | miasm/analysis/modularintervals.py:112-126 | exactly the opposites of the range modulo the width |
| ModularRanges.RangeMul | miasm/analysis/modularintervals.py:262-275 | exactly the points from the least to the greatest product, or the whole width iff the greatest overflows |
| ModularRanges.RangeMod | miasm/analysis/modularintervals.py:277-292 | exactly the remainders of the range; nothing for modulus zero |
| ModularRanges.RangeShiftUniq | miasm/analysis/modularintervals.py:294-325 | exactly the points between the shifted ends, and for a left shift that overflows zero and everything from 2^shift - 1 |
| ModularRanges.AshrSigned | miasm/analysis/modularintervals.py:70-79 | shifting through the signed value is the arithmetic shift of the bits |
| ModularRanges.AshrFloor | miasm/analysis/modularintervals.py:70-79 | that is, dividing the signed value by 2^shift, rounded down, modulo the width |
| ModularRanges.RotateBits | miasm/analysis/modularintervals.py:342-363 | rotating left by k moves bit i to bit (i + k) modulo the width, rotating right moves it back |
| ModularRanges.RotateBack | miasm/analysis/modularintervals.py:342-363 | each rotation by k undoes the other, for every k |
| ModularRanges.PairSound | miasm/analysis/modularintervals.py:89-275 | the points of the five operations on two ranges hold the result of every pair |
| ModularIntervals.SetBinary | miasm/analysis/modularintervals.py:35-44 | exactly the points some pair of ranges gives: of a sum the sums of members, of an or and an and everything between two results of members, of a product everything between the least and the greatest one unless it overflows |
| ModularIntervals.SetSums | miasm/analysis/modularintervals.py:89-110 | a point of the sum of two sets is the sum of a member of each, and conversely |
| ModularIntervals.SetSound | miasm/analysis/modularintervals.py:35-44 | the result of every pair of members is a point |
| ModularIntervals.SetNeg | miasm/analysis/modularintervals.py:112-126 | exactly the opposites of the members |
| ModularIntervals.SetMod | miasm/analysis/modularintervals.py:46-54 | exactly the remainders of the members; nothing for modulus zero |
| ModularIntervals.Amounts | miasm/analysis/modularintervals.py:327-340 | exactly the members of the set, those above the width replaced by the width |
| ModularIntervals.ClampShift | miasm/analysis/modularintervals.py:327-340 | shifting by more than the width is shifting by the width |
| ModularIntervals.ShiftBySet | miasm/analysis/modularintervals.py:327-340 | exactly the points of every range shifted by every amount |
| ModularIntervals.RangeRotateUniq | miasm/analysis/modularintervals.py:342-363 | exactly the points of the or of the range shifted one way and shifted by the rest of the width the other way; every member of the range rotated is one |
| ModularIntervals.RotateBySet | miasm/analysis/modularintervals.py:365-378 | exactly the points of every range rotated by every amount; every member rotated by every amount is one |
| ModularIntervals.ModularSet.SizeUpdate | miasm/analysis/modularintervals.py:487-502 | changes the width and keeps the members within the new mask |
| ExprRange.ExprRange | miasm/analysis/expression_range.py:21-70 | for every well-formed expression: a set that is returned is exactly the one the operators give on the sets of the operands; unless some divisor met on the way is zero in every state, one is returned and holds the value of the expression in every state of every standard machine, states with zero divisors included; constants get exactly their value, a remainder by the constant 0 the empty set |
| ExprRange.ModRange | miasm/analysis/expression_range.py:59-67 | a remainder: given right sets for the operands, the set returned holds the value in every state of every standard machine iff the set of the divisor is not {0}, and is empty otherwise |
| ExprRange.RemainderByZero | miasm/analysis/expression_range.py:59-67 | the set of v % 0 is empty for every variable v, while every standard machine gives the expression a value within its width |
| ExprRange.SliceOf | miasm/analysis/expression_range.py:29-33 | the slice path gives exactly the set of the operand masked to the bits and moved down, and holds every slice; shrinking raises iff the operand has no value at all, and the shrinking assertion of `size_update` never fails |
| ExprRange.ComposeSets | miasm/analysis/expression_range.py:34-45 | the compose path gives exactly the sets of the parts, each moved up past the ones before it, or'ed in order; it holds every concatenation |
| ExprRange.FoldSets | miasm/analysis/expression_range.py:46-55 | the reduction of a handled operator gives exactly the sets its name gives, two by two from the left, holds its left fold over every choice of operands, and raises iff it shifts by an empty set |
| Operators.HandlerMeans | miasm/analysis/expression_range.py:8-19 | each entry of the operator table computes what its name says, stated by arithmetic modulo 2^n for sums, products and shifts and bit by bit for the others |
| Operators.StandardOps | miasm/analysis/expression_range.py:46-55 | a machine that computes two operands by name and takes more of them from the left computes the left fold of the table |
| Operators.StandardExists | miasm/analysis/expression_range.py:8-19 | there is such a machine, for every bounded memory |
| RangePoints.ComputesOnce | miasm/analysis/expression_range.py:21-70 | the set stated for an expression, operator by operator on the sets of its operands, is unique |
| RangePoints.SumsExact | miasm/analysis/expression_range.py:46-55 | the set folded for a sum of any number of operands holds a point iff it is the sum, modulo 2^n, of one member of each operand's set |
| RangePoints.SumRange | miasm/analysis/expression_range.py:46-55 | so for the set of the expression a + b + ... |
| RangePoints.ConstantExact | miasm/analysis/expression_range.py:21-70 | the set of an expression built from constants by sums, bitwise operators, right shifts, opposites, remainders by a non-zero constant, slices and concatenations is its value alone |
| Aliasing.BytesOf | miasm/analysis/data_flow.py:1930-1939 | the bytes of an access modulo the address space, wrapping included |
| Aliasing.MayInterfer | miasm/analysis/data_flow.py:1911-1950 | true iff some destination occurs in a read, or is a cell on another base than a cell read, or shares a byte with it |
| Aliasing.HitsMeans | miasm/analysis/data_flow.py:1911-1950 | the answer for one pair, in terms of the expressions: the destination is a part of the read, or both are cells whose pointers do not stand on a common base at offsets without a shared byte |
| Aliasing.BaseOffsetStands | miasm/ir/symbexec.py:97-117 | the base and offset of a pointer: a sum with a last constant term stands on its other terms, a constant on the reserved name, everything else on itself |
| Aliasing.SameBaseShare | miasm/analysis/data_flow.py:1924-1949 | on the same base, the test's answer is whether the two accesses share a byte in any state, equivalently in every state |
| Aliasing.SafeUnchanged | miasm/analysis/data_flow.py:1911-1950 | assignments that hit no cell or variable read, through pointers included, leave the value of the expression alone |
| Aliasing.NoInterference | miasm/analysis/data_flow.py:1911-1950 | when the test answers no and the pointers read no memory, assigning the destinations leaves the value alone |
| Aliasing.IndirectNotFound | miasm/analysis/data_flow.py:1911-1950 | a destination and a source reading through memory for which the test answers no |
| Aliasing.IndirectChanges | miasm/analysis/data_flow.py:1911-1950 | a state of a standard machine with byte memory in which that assignment changes that source |
| Disasm.DisMultiblock | miasm/core/asmblock.py:1365-1396 | the worklist terminates; alone or continuing an earlier disassembly, the offsets done are exactly those reached from the starts by falling through or followed branches, every one lies in exactly one block, every destination heads a good or bad block, every head is a start, does not decode, or is led to by a reached instruction that breaks the flow or by two different reached instructions, and edges, constraints and pendings say exactly what the blocks say |
| Disasm.Disassemble | miasm/core/asmblock.py:1365-1396 | the same from an empty graph, with a block at the starting offset |
| Disasm.HeadsExact | miasm/core/asmblock.py:1365-1459 | a reached offset that does not decode, or that a break of the flow or two reached instructions lead to, heads a block; nothing else does but starts |
| Disasm.SameFlow | miasm/core/asmblock.py:1365-1459 | control can go from x to y in the resulting graph iff x is reached, decodes, and y is a successor of its instruction; nothing is left pending |
| Disasm.DecodedOnce | miasm/core/asmblock.py:1365-1459 | an offset is a line of some block iff it is reached and decodes, of one block only; it heads a bad block iff it is reached and does not decode |
| Disasm.DisBlock | miasm/core/asmblock.py:1220-1355 | a block of consecutive new instructions whose destinations are the successors of the last one, ended only where the flow breaks, known code begins or nothing decodes; a bad block iff its first offset does not decode |
| Disasm.ApplySplitting | miasm/core/asmblock.py:1398-1459 | terminates, keeps the tiling, makes every destination head a block, begins new blocks only at destinations that were pending, and puts the graph back in step |
| Disasm.Split | miasm/core/asmblock.py:124-156 | splits exactly where an instruction starts, the first part falling into the second, which keeps the destinations |
| Disasm.FixConstraints | miasm/core/asmblock.py:232-243 | one constraint per destination, taken from the given ones, c_next winning |
| Disasm.FilterConstraint | miasm/core/asmblock.py:208-230 | a constraint of the set, c_next if there is one |
| Asm.SplitTiled | miasm/core/asmblock.py:124-156 | splitting a block at an inner instruction keeps every offset in exactly one well-formed block |
| Asm.SuccessorsInBlock | miasm/core/asmblock.py:1310-1347 | inside a block the only successor of an instruction is the next one, at its end they are its destinations |
| AsmCfgs.AsmCfg.AddBlock | miasm/core/asmblock.py:391-429 | resolves the blocks waiting for the new one and records its own destinations as edges or pendings; a graph in step with its blocks stays so, a known location changes nothing |
| AsmCfgs.AsmCfg.AddEdge | miasm/core/asmblock.py:336-358 | adds the edge with its constraint, and the destination to the source block if it lacks it |
| AsmCfgs.AsmCfg.DelEdge | miasm/core/asmblock.py:366-380 | removes the edge, its constraint and the destination |
| AsmCfgs.AsmCfg.RebuildEdges | miasm/core/asmblock.py:511-552 | edges, constraints and pendings are exactly what the blocks say, however stale they were, and no block changes |
| Codec.RoundTrip | miasm/core/bin_stream.py:80-117 | reading at the place of a packed in-range field gives its value iff the field is empty or the stream's position leaves as many bits; from a stream at its start it always does, for every width, alignment and base address |
| Codec.EncodeFields | miasm/core/cpu.py:1498-1507 | succeeds iff the fields with a value fill a positive whole number of bytes, whose bits are then those of the fields in order |
| Codec.PackedAt | miasm/core/cpu.py:57-63 | each in-range field stands at the sum of the widths before it |
| Codec.BitObj.PutBits | miasm/core/cpu.py:57-63 | appends the value in the given width, or in as many bits as it needs when it is too wide; what is appended writes the value |
| Codec.PutMeans | miasm/core/cpu.py:57-63 | the bits appended write the value, at least as many as the width and more only when the value needs them |
| Codec.BitObj.ToString | miasm/core/cpu.py:65-74 | fails iff there are no bits or not a whole number of bytes; otherwise the bytes hold exactly the bits |
| Codec.BitObj.FromBytes | miasm/core/cpu.py:34-42 | keeps the value of the bytes, and their bits iff there is at most one byte or the first is not zero |
| Codec.BinStream.GetBytes | miasm/core/bin_stream.py:64-78 | what is read never depends on the cache or on atomic mode; in atomic mode a read that succeeds is cached, and nothing else changes |
| Codec.BinStream.GetBits | miasm/core/bin_stream.py:80-117 | the bits at the bit offset, or an error exactly when they are not all there or the position leaves too few |
| Codec.BitLoop | miasm/core/bin_stream.py:99-116 | the masked byte loop computes the number written by the bits |
| Trie.GuessAmong | miasm/core/cpu.py:1082-1114 | looking up the tree of any candidates returns exactly those whose fields can be read one after the other, each with its fixed bits under its mask, length functions of earlier names included; it fails iff some candidate has no field |
| Trie.ReadField | miasm/core/cpu.py:1093-1107 | reads a field iff its bits are there and those under the mask are the fixed ones, then moves on by its length and records its value under a new name; a field without length is passed over |
| Trie.GuessMnemo | miasm/core/cpu.py:1082-1114 | the growing worklist terminates and returns exactly the candidates below the tree along matching fields |
| Trie.TreeIsScan | miasm/core/cpu.py:886-898 | being found in the tree of some candidates is being one of them with matching fields |
| Trie.InsertedHits | miasm/core/cpu.py:886-898 | inserting a candidate adds its own matches and no others |
| TrieLengths.FactorOneBit | miasm/core/cpu.py:787-821 | what is left to choose from, down to lone entries, is single bits and fields with a length function, no field being cut to nothing; with named fields it terminates and never raises; where no cut field that may start with a one has a length function below (`LensSafe`), every lookup in every stream finds the same candidates, and in a tree without repeated names or candidates it does so only then |
| TrieFactor.FactorFieldsAllSame | miasm/core/cpu.py:824-868 | joining chains of unnamed fields changes no lookup, with or without length functions elsewhere, given masks within their fields |
| TrieFactor.ChainsHalved | miasm/core/cpu.py:824-868 | every chain of lone unnamed fields below a branch becomes half as long, rounded up |
| TrieLengths.FactorTree | miasm/core/cpu.py:787-868 | both rewritings, one after the other, of the tree of any named candidates, length functions included, still are a scan over them when the tree is `LensSafe`; for candidates without repeated names, exactly then |
| TrieLengths.Differs | miasm/core/cpu.py:787-821 | in a tidy tree that is not `LensSafe`, some bytes and some length function tell the tree from the rewritten one |
| TrieLengths.TreeTidy | miasm/core/cpu.py:886-898 | inserting candidates without repeated names builds a tidy tree: each candidate at one place, every branch ending at a candidate |
| TrieFactor.UncutSafe | miasm/core/cpu.py:787-821 | a tree is `LensSafe` in particular when no field with a length function below it is cut, wherever cutting goes on |
| TrieFactor.CutSame | miasm/core/cpu.py:787-812 | one round of harmless cuts, with equivalent sub-trees, changes no lookup |
| TrieFactor.StreamSplits | miasm/core/bin_stream.py:80-117 | reading a + b bits of a stream at its start is reading a bits, then b bits, errors included |
| TrieLengths.LengthsMatter | miasm/core/cpu.py:787-821 | two candidates whose tree is not `LensSafe`, and a byte in which their tree finds one that the tree `factor_one_bit` returns does not |

## Findings

Where a natural promise fails, the model keeps the code and shows the input.

- `State.may_interfer` can answer no although the assignment changes the source, when a pointer itself
  reads memory: the write may reach the cell holding the address (`Aliasing.IndirectNotFound`,
  `Aliasing.IndirectChanges`). It is right whenever no destination hits anything read through the
  pointers as well (`Aliasing.SafeUnchanged`), in particular when the pointers read no memory
  (`Aliasing.NoInterference`).
- `factor_one_bit` leaves a cut field's name on its low bits only, so a length function below that looks
  at it may give another length and the lookup another answer (`TrieLengths.LengthsMatter`). Lookups are kept
  iff the tree is `LensSafe`: wherever the code cuts, a cut field has no length function below it or cannot
  start with a one (`TrieLengths.FactorOneBit`, both ways for the tree of candidates without repeated names).
- `bitobj(s)` loses leading zero bytes of `s` unless `s` is a single byte (`Codec.BitObj.FromBytes`).
- `getbits` refuses more bits than remain after the stream's own position, though it reads from the
  offset it is given (`Codec.RoundTrip`).
- `%` by a divisor whose computed set is {0} yields the empty set, which holds no value
  (`ExprRange.RemainderByZero`). At a remainder the set is right iff the divisor's set is not {0}
  (`ExprRange.ModRange`); an unknown divisor that may be zero is no problem, the full range is returned.
- `expr_range` raises a TypeError (under Python 3, comparing None with an integer) when it shifts by, or takes a narrower slice of, such an empty set
  (`ExprRange.FoldSets`, `ExprRange.SliceOf`).

## Left out

- Aliasing.NoInterference: the condition is sufficient, not necessary; whether a particular state is affected depends on values the test does not look at.
- ExprRange.ExprRange: excludes locations and operators with the wrong number of arguments, on which the source raises. For a whole expression the condition on divisors is sufficient; it is exact at each remainder, but a set that is too small there may be covered further up, as by the other branch of a condition.
- Trie.InsertedHits: the nested dictionaries the source mutates in place are values here; aliasing of sub-trees is not modelled.
- Trie.GuessMnemo: requires that no field is called "mn", the key the tree uses for its candidates.
- TrieLengths.FactorOneBit: the converse is stated for trees in which no way meets a name twice and no candidate is at two places; for trees with unnamed fields only termination is stated, bs objects always name theirs.
- Disasm.DisMultiblock: of the engine's options only follow_call and dontdis_retcall are modelled; no callback, watchdog, dont_dis, split_dis or delay slot; locations are identified with their offsets; instruction lengths are positive and finitely many offsets decode.
- SsaTransform.SsaDiGraph.Transform: requires a head without predecessors (sanitize_graph_head is not modelled) and a program not yet in SSA form; edges leave existing non-empty blocks only; the dictionaries expressions and ssa_to_location are not modelled.
- DeadRemoval.DeadRemover.DoDeadRemoval: assumes the map to original expressions is empty, and leaves out the option that simplifies expressions.
- The simplifier, the symbolic executor and everything resting on them: expression propagation, constant propagation, dependency graphs, dynamic symbolic execution.
- Out-of-SSA conversion, liveness, dummy phi and unused edge removal: heuristics without a general specification.
- Natural loops, back edges, weakly connected components, path enumeration and graph matching: easy or unspecified beside the algorithms above.
- Block layout and assembly (BlockChain), the location database, containers, loaders, the sandbox, the jitter and the debuggers.
- The instruction grammars, text parsing and the enumeration of encodings in `cls_mn.value`.
- Streams over files and virtual machines, and multi-byte integer reads: easy members over the same reads.
