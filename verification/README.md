# Verified models of TypeSan's LLVM tree

Dafny models of algorithms in the repository's LLVM tree and of its metadata page
table, with proofs of what they are for. `dafny verify dfyconfig.toml` checks
everything. Code that changes state step by step is modelled by methods and
classes, proved against functions and predicates on values; the theorems are about
those.

## What is modelled

**BrainF compiler** (`BrainFLanguage`, `BrainFIr`, `BrainFLayout`, `BrainFCompiler`,
`BrainFSimulation`, `BrainFCorrectness`). A character-by-character interpreter of the
language, a small machine for the emitted code (blocks with phis, loads, stores,
address computations, branches, getchar, putchar), and `readloop` with its look-ahead,
its merged runs and its builder state. The compiler records for each boundary between
symbols the place in the code that stands for it; the theorem is that the two runs
agree for ever. Addresses are integers relative to the start of the tape.

**BasicAA** (`Words`, `GepDecomposition`, `GepDifference`, `GepModular`, `GepSign`,
`GepHeuristic`, `GepFields`, `GepAliasing`). Address computations taken apart into base,
offset and scaled variables modulo the pointer width, their symbolic difference, and
each test that tells two byte ranges apart on the circle of 2^64 addresses. The answers
name the test they come from, which the code does not; `Grounds` says when that test
holds, and `Proviso` what it rests on besides. Three of the tests rest on more than the
code checks. For each there is a call that answers NoAlias wrongly, and a condition
proved exact: `ConstantOffsetExact`; `PositiveTestExact` and `EvenScalesAddNothing`;
`HeuristicExact` and `NarrowIndicesExact`.

**CFG walks** (`Cfg`, `Backedges`, `Reachability`). The search for back edges with its
explicit stack, and the bounded walk that jumps over loops. Loops and dominators are
given by the analyses; `AnalysesRight` says when they are right.

**Alias sets** (`AliasSets`). The sets with their forwarding links, as places in a list
of all sets ever made, over an alias oracle that is symmetric and for which must-alias
pointers alias the same pointers (`Sane`).

**Block frequency** (`BranchProbability`, `CombiningWeights`, `Normalization`,
`MassDistribution`, `MassFlow`, `IrreducibleHeaders`). Probabilities with their 32-bit
digit arithmetic, combining and normalizing weights, sharing mass without loss, the
account of a whole loop, and the choice of headers. The nodes of a loop are numbered
in the order in which they are processed, headers first. That no mass saturates is
proved, not assumed. The mass of a block without successors stays there (`Returned`).

**Branch probabilities** (`BranchWeights`). The post-order search for blocks that lead
to an unreachable end, and the first two of the weighting rules.

**Call graph** (`CallGraphs`, `CallGraphRefresh`). Edge lists with removal by moving
the last edge, reference counts, and the refresh that works while the list changes
under it. The functions' bodies are given by a `Module`.

**Smaller ones** (`ThreadBarrier`, `CaptureTracking`, `MetaPagetable`). The barrier as
the steps its threads take, with the mutex; the walk over uses; the table with its
packed entries.

`Wrappers` and `Sets` are shared helpers.

## Where the code does less than it seems

- BrainF with bounds checks and a tape of no cells: the checks come with moves only, so
  a first command that uses a cell leaves the tape (`BrainFCorrectness.BoundsCheckingWorks`).
- BasicAA, variables of known sign: `8 + 8 * i` with `i` not negative can come round to
  byte 0 (`GepAliasing.PositiveOffsetWraps`). With even scales this test never adds a right
  answer (`GepSign.EvenScalesAddNothing`); otherwise it needs room for the largest sum
  (`GepSign.PositiveTestExact`).
- BasicAA, indices that differ by a constant: a gap of more than half the address space
  is none, even without overflow (`GepAliasing.GapBeyondHalf`, `GepHeuristic.HeuristicExact`).
- BasicAA, constant offsets: right only for accesses that do not reach round the address
  space (`GepAliasing.ConstantOffsetWraps`, `GepDifference.ConstantOffsetExact`).
- Block frequency: on 64-bit overflow the scaled total need not fit 32 bits, contrary to
  the assertion after the loop (`Normalization.OverflowTooLarge`).
- Branch probabilities: denominators count a block's likely and unlikely edges modulo
  4096, so a multiple of 4096 makes one zero (`BranchWeights.Fails`) and more than 4096
  make the shares wrong (`BranchWeights.SplitsRightExactly`).
- The barrier: `pthread_cond_wait` is not in a loop, so a spurious wakeup breaks it
  (`ThreadBarrier.SpuriousWakeupEscapes`).
- Metadata page table: at alignments of more than a page the size reserved can be zero
  (`MetaPagetable.NothingReserved`), and what is reserved suffices only for as many
  granules as it has pieces of metadata (`MetaPagetable.InsideExactly`).

## Model

| member | source | states |
|---|---|---|
| BrainFCorrectness.Parse | llvm/examples/BrainF/BrainF.cpp:41-464 | compiling fails exactly on unbalanced brackets, with the error met first; otherwise the code behaves like the program on every input, whatever the memory held before (with bounds checks on, for a tape that has a cell), and with bounds checks on no access of any run leaves the tape exactly when the tape has a cell or the program does not start with a command that uses one |
| BrainFCorrectness.CompleteImplements | llvm/examples/BrainF/BrainF.cpp:53-464 | a complete translation and its program agree in every run: neither gets stuck or ends without the other, output, tape and unread input are the same at the end, and each output is caught up with by the other side, which covers runs that never end |
| BrainFCorrectness.BoundsCheckingWorks | llvm/examples/BrainF/BrainF.cpp:106-115 | with flag_arraybounds every load and store of every run, loop tests included, is within the tape if and only if the tape has a cell or the first command is a move (or there is none) |
| BrainFCorrectness.CompleteBehaves | llvm/examples/BrainF/BrainF.cpp:180-464 | the agreement of the two runs for one input and one initial memory |
| BrainFCorrectness.ArbitrarilyFar | llvm/examples/BrainF/BrainF.cpp:180-464 | however far the two runs are to go, there is a point at least that far in both where they are in the same place or both over |
| BrainFCorrectness.HeaderRuns | llvm/examples/BrainF/BrainF.cpp:78-115 | the initial block clears the tape and leaves the head in its middle |
| BrainFCorrectness.EmptyTapeBreaks | llvm/examples/BrainF/BrainF.cpp:234-264 | on a tape of no cells, a program whose first command reads, writes, changes or tests a cell leaves the tape although it is compiled with checks |
| BrainFCorrectness.EmptyTapeHolds | llvm/examples/BrainF/BrainF.cpp:242-262 | on a tape of no cells, a program that starts with a move ends in the error block before any access |
| BrainFCorrectness.Later | llvm/examples/BrainF/BrainF.cpp:180-464 | for any point of either run there is a later pair of points in step; what was output before is a prefix of it, and a run that has ended has ended alike |
| BrainFSimulation.Advance | llvm/examples/BrainF/BrainF.cpp:190-464 | from any boundary between symbols both sides get to another boundary (or both end) in at least one step each, in corresponding states |
| BrainFSimulation.ChangeAdvances | llvm/examples/BrainF/BrainF.cpp:266-278 | a run of + and -, with comments in between, and the single load, add, store for it change the same cell by the same amount modulo 256 |
| BrainFSimulation.MoveAdvances | llvm/examples/BrainF/BrainF.cpp:234-239 | a run of < and > and the one address computation for it move the head alike |
| BrainFSimulation.CheckedMoveAdvances | llvm/examples/BrainF/BrainF.cpp:241-262 | with checks on, a run of moves that ends outside the tape leads to the message and the end, on both sides, and one that ends inside goes on |
| BrainFSimulation.CheckComputes | llvm/examples/BrainF/BrainF.cpp:244-258 | the two comparisons or-ed together hold exactly when the head is outside the tape |
| BrainFSimulation.ReadAdvances | llvm/examples/BrainF/BrainF.cpp:197-212 | a byte read, 255 at the end of the input, is stored under the head |
| BrainFSimulation.WriteAdvances | llvm/examples/BrainF/BrainF.cpp:214-232 | the byte under the head is written |
| BrainFSimulation.LoopAdvances | llvm/examples/BrainF/BrainF.cpp:280-300 | an opening bracket and the jump to the loop test agree on entering or skipping the loop, with the head coming through the phi from before it |
| BrainFSimulation.EndLoopAdvances | llvm/examples/BrainF/BrainF.cpp:420-452 | a closing bracket and the back edge agree on another turn or leaving, with the head coming through the phi from the end of the body |
| BrainFSimulation.HaltAdvances | llvm/examples/BrainF/BrainF.cpp:457-458 | at the end of the text both sides end, off the tape or not |
| BrainFSimulation.ChangesRun | llvm/examples/BrainF/BrainF.cpp:332-347 | executing a run of changes one character at a time adds their balance, once |
| BrainFSimulation.MovesRun | llvm/examples/BrainF/BrainF.cpp:353-368 | executing a run of moves one character at a time moves by their balance |
| BrainFSimulation.TestAdvances | llvm/examples/BrainF/BrainF.cpp:432-441 | the loop test goes into the body exactly when the cell under the head is not zero |
| BrainFCompiler.BrainF.Parse | llvm/examples/BrainF/BrainF.cpp:41-51 | compiles the whole text; the outcome is the verdict of scanning the brackets, and without an error the code is complete |
| BrainFCompiler.BrainF.ReadLoop | llvm/examples/BrainF/BrainF.cpp:180-464 | compiles one level up to its closing bracket or the end of the text, keeping all code before it; an error exactly when the brackets from there do not balance |
| BrainFCompiler.BrainF.ReadSymbols | llvm/examples/BrainF/BrainF.cpp:308-411 | reads on to the next two symbols: the first stands for a maximal run, its value is the balance of the run, and nothing but comments is skipped |
| BrainFCompiler.BrainF.Write | llvm/examples/BrainF/BrainF.cpp:191-306 | writes the code of one symbol, or fails with the bracket error found in the loop below |
| BrainFCompiler.BrainF.WriteSymbol | llvm/examples/BrainF/BrainF.cpp:197-278 | the code for reading, writing, moving and changing is in place for the text it stands for |
| BrainFCompiler.BrainF.WriteLoop | llvm/examples/BrainF/BrainF.cpp:280-300 | a loop and everything in it is in place, and the level goes on after its closing bracket |
| BrainFCompiler.BrainF.Finish | llvm/examples/BrainF/BrainF.cpp:414-464 | at a closing bracket the loop is complete; at the end of the text the level is; a bracket too many or too few is reported |
| BrainFCompiler.BrainF.BeginLoop | llvm/examples/BrainF/BrainF.cpp:280-298 | the test block is jumped to and the head flows through a phi that knows its value from before the loop |
| BrainFCompiler.BrainF.EndLoop | llvm/examples/BrainF/BrainF.cpp:420-452 | the phi gets its value from the end of the body, and the test leads into the body or past the loop |
| BrainFCompiler.BrainF.EmitRead | llvm/examples/BrainF/BrainF.cpp:197-212 | keeps the code so far and adds that of a read |
| BrainFCompiler.BrainF.EmitWrite | llvm/examples/BrainF/BrainF.cpp:214-232 | keeps the code so far and adds that of a write |
| BrainFCompiler.BrainF.EmitChange | llvm/examples/BrainF/BrainF.cpp:266-278 | keeps the code so far and adds that of a change by the value of the run |
| BrainFCompiler.BrainF.EmitMove | llvm/examples/BrainF/BrainF.cpp:234-264 | keeps the code so far and adds that of a move, with the check and a new block if checks are on |
| BrainFCompiler.BrainF.WriteHeader | llvm/examples/BrainF/BrainF.cpp:53-178 | the initial block, the end block and, with checks on, the error block are as expected |
| BrainFCompiler.DeltaQuiet | llvm/examples/BrainF/BrainF.cpp:313-411 | comments add nothing to the balance of a run |
| BrainFLanguage.RunOutput | llvm/examples/BrainF/BrainF.cpp:214-232 | output is never taken back in a run of the source |
| BrainFLanguage.CloseNested | llvm/examples/BrainF/BrainF.cpp:396-404 | the bracket that closes a loop, found from inside nested ones |
| BrainFLanguage.OpenNested | llvm/examples/BrainF/BrainF.cpp:387-395 | the bracket that opens a loop, found from inside nested ones |
| BrainFIr.RunOutput | llvm/examples/BrainF/BrainF.cpp:214-232 | output is never taken back in a run of the code |
| Backedges.FindFunctionBackedges | llvm/lib/Analysis/CFG.cpp:27-66 | every reported edge is an edge of the graph, reachable from the entry, and closes a cycle; every cycle that can be reached uses a reported edge, and none of them is spare: without it a cycle would be left that no other cuts; each is reported as often as it is in the graph; nothing is reported exactly when there is no cycle; the nested loops end |
| Backedges.NoneTooMany | llvm/lib/Analysis/CFG.cpp:47-55 | for every reported edge some path leads back from its end to its start along edges that are not reported |
| Backedges.OrderPops | llvm/lib/Analysis/CFG.cpp:60-63 | leaving a block changes nothing in which of two blocks visited is left sooner |
| Backedges.Turn | llvm/lib/Analysis/CFG.cpp:41-65 | one turn keeps what the search knows of stack, finished blocks and reported edges |
| Backedges.NextUnvisited | llvm/lib/Analysis/CFG.cpp:47-55 | the scan of successors reports exactly those on the stack that it passes, each time |
| Backedges.CutsAllCycles | llvm/lib/Analysis/CFG.cpp:27-66 | a finished search leaves no reachable cycle that avoids the reported edges |
| Backedges.RankFalls | llvm/lib/Analysis/CFG.cpp:60-63 | along edges not reported, blocks are finished in decreasing order |
| Backedges.StackReaches | llvm/lib/Analysis/CFG.cpp:57-59 | each block on the stack leads to those above it |
| Backedges.SearchDone | llvm/lib/Analysis/CFG.cpp:65-66 | every path from the entry that is a cycle meets a reported edge once the stack is empty |
| Reachability.IsPotentiallyReachableFromMany | llvm/lib/Analysis/CFG.cpp:130-172 | false only if no path leads from any of the blocks to the stop block, though loop bodies are skipped and at most 32 blocks are looked at; true is right unless that limit was hit, if the analyses are right |
| Reachability.IsPotentiallyReachable | llvm/lib/Analysis/CFG.cpp:186-236 | false only if the second instruction is never executed after the first; if the analyses are right true is right too, unless the walk hit its limit, or from the entry block to a block that is never reached |
| Reachability.SuccessorsReach | llvm/lib/Analysis/CFG.cpp:218-220 | from a block to another one it is the successors that lead on |
| Reachability.GetOutermostLoop | llvm/lib/Analysis/CFG.cpp:113-120 | the loop around the block that is in no other, if the block is in a loop |
| Reachability.LoopContainsBoth | llvm/lib/Analysis/CFG.cpp:123-128 | true exactly when one loop contains both blocks |
| Reachability.GetExitBlocks | llvm/lib/Analysis/CFG.cpp:158-162 | exactly the blocks outside the loop that an edge from inside leads to |
| Reachability.WalkDone | llvm/lib/Analysis/CFG.cpp:166-171 | a walk that ran dry without finding the stop block has shown that it cannot be reached |
| Reachability.WalkStep | llvm/lib/Analysis/CFG.cpp:141-165 | replacing a block by its successors, or its loop by the exits, keeps every way to the stop block covered |
| Reachability.DominatorReaches | llvm/lib/Analysis/CFG.cpp:146-147 | a block that dominates a reachable one reaches it |
| Cfg.ClosedUnderPath | llvm/lib/Analysis/CFG.cpp:130-172 | a set of blocks that has all successors of its blocks is never left |
| AliasSets.Track | llvm/lib/Analysis/AliasSetTracker.cpp:270-300 | after any sequence of pointers the sets in use are the connected components of the may-alias relation on them, and those still marked must-alias are exactly those whose pointers all must alias |
| AliasSets.PartitionIsComponents | llvm/lib/Analysis/AliasSetTracker.cpp:215-293 | in every valid state the sets in use, as sets of pointers, are the connected components |
| AliasSets.MustSetsExact | llvm/lib/Analysis/AliasSetTracker.cpp:36-51 | in every valid state a set is marked must-alias if and only if its pointers pairwise must alias |
| AliasSets.SetsAreComponents | llvm/lib/Analysis/AliasSetTracker.cpp:215-231 | two pointers are in one set exactly when a chain of aliasing pointers connects them |
| AliasSets.AliasSetTracker.GetAliasSetForPointer | llvm/lib/Analysis/AliasSetTracker.cpp:270-293 | keeps the state valid; the set returned has the pointer; it is new exactly when the pointer was unknown and aliased none before |
| AliasSets.AliasSetTracker.FindAliasSetForPointer | llvm/lib/Analysis/AliasSetTracker.cpp:215-231 | merges all sets the pointer aliases, and returns the one that is left, which alone has pointers it aliases; none exactly when there are none |
| AliasSets.AliasSetTracker.MergeSetIn | llvm/lib/Analysis/AliasSetTracker.cpp:31-81 | one set gets the pointers of both and the flag, the other an empty list and a link |
| AliasSets.AliasSetTracker.AddPointer | llvm/lib/Analysis/AliasSetTracker.cpp:96-124 | the pointer joins the set, which becomes a may-alias set unless the first pointer must alias it |
| AliasSets.AliasSetTracker.AliasesPointer | llvm/lib/Analysis/AliasSetTracker.cpp:145-176 | true exactly when some pointer of the set aliases it, though a must-alias set is asked for one pointer only |
| AliasSets.AliasSetTracker.GetForwardedTarget | llvm/include/llvm/Analysis/AliasSetTracker.h:241-251 | the set at the end of the links; shortening them changes no set's target, pointers or flag |
| AliasSets.MergeValid | llvm/lib/Analysis/AliasSetTracker.cpp:31-81 | merging two sets that a pointer aliases keeps the state valid |
| AliasSets.NewValid | llvm/lib/Analysis/AliasSetTracker.cpp:288-292 | a set for a pointer that aliases none keeps the state valid |
| AliasSets.RedirectValid | llvm/include/llvm/Analysis/AliasSetTracker.h:84-94 | redirecting a record along the links keeps the state valid |
| AliasSets.MergedFlags | llvm/lib/Analysis/AliasSetTracker.cpp:40-51 | asking one pair of pointers is enough to keep the merged flag exact |
| AliasSets.MustSpeaksForAll | llvm/lib/Analysis/AliasSetTracker.cpp:148-157 | in a must-alias set the first pointer answers for all |
| AliasSets.Compressed | llvm/include/llvm/Analysis/AliasSetTracker.h:244-249 | shortening a link leaves every target where it was, and no cycle of links |
| GepDecomposition.GetLinearExpression | llvm/lib/Analysis/BasicAliasAnalysis.cpp:182-252 | the expression is scale * v + offset modulo 2^width under every valuation, at the depth limit too, where scale, v and offset are those of taking constants off it one by one |
| GepDecomposition.LinearizeRight | llvm/lib/Analysis/BasicAliasAnalysis.cpp:182-252 | taking at most six operations with constants off an expression leaves a line that it is worth under every valuation |
| GepDecomposition.AdjustIsSigned | llvm/lib/Analysis/BasicAliasAnalysis.cpp:327-331 | shifting up and back is reading the low bits as a signed number |
| GepDecomposition.DecomposeGEPExpression | llvm/lib/Analysis/BasicAliasAnalysis.cpp:346-479 | at every exit the address is that of the pointer returned plus the offset plus the scaled variables modulo 2^width under every valuation; each variable is listed once, with what its scales in all steps add up to, unless that is zero; all fit the width; the pointer is the one six steps down, or where the chain ends, and the limit is reported exactly for chains of six steps or more |
| GepDecomposition.LinearizeReaches | llvm/lib/Analysis/BasicAliasAnalysis.cpp:182-252 | up to six operations with constants, multiplications and shifts included, are all taken off a variable |
| GepDecomposition.SameScales | llvm/lib/Analysis/BasicAliasAnalysis.cpp:346-479 | pointers that differ by constants in their indices have every variable with the same scale |
| GepDecomposition.ApartByAdding | llvm/lib/Analysis/BasicAliasAnalysis.cpp:214-231 | a[i + c] and a[i] are such pointers |
| GepDecomposition.AddIndex | llvm/lib/Analysis/BasicAliasAnalysis.cpp:401-466 | one index moves offset and variables by exactly its step |
| GepDecomposition.AddVariable | llvm/lib/Analysis/BasicAliasAnalysis.cpp:447-465 | merging a scaled variable adds exactly its value, and its scale to that listed for it; keeps the list without repeats and zeros, and other variables as they were |
| GepDecomposition.LinearApply | llvm/lib/Analysis/BasicAliasAnalysis.cpp:214-252 | add, sub, mul, shl and or by a constant keep an expression linear |
| GepDecomposition.EvalApply | llvm/lib/Analysis/BasicAliasAnalysis.cpp:214-252 | or is addition when no bit is in common |
| GepDecomposition.ElementStep | llvm/lib/Analysis/BasicAliasAnalysis.cpp:433-442 | scaling an index in 64 bits agrees with scaling its value modulo the pointer width |
| GepDifference.GetIndexDifference | llvm/lib/Analysis/BasicAliasAnalysis.cpp:1515-1549 | the list is worth the difference of the two lists modulo 2^64 under every valuation, and has no zero scale; a variable known to be itself has the difference of its scales in the two lists, once, and is not listed if that is zero |
| GepDifference.DifferencesLeft | llvm/lib/Analysis/BasicAliasAnalysis.cpp:1515-1549 | that holds of taking off one entry after the other, and no variable is repeated if all are known to be themselves |
| GepDifference.SubtractIndex | llvm/lib/Analysis/BasicAliasAnalysis.cpp:1520-1548 | taking one entry off the list: off its variable's first scale if the value is known to be the same, else as one more entry, and nothing else changes |
| GepDifference.DisjointExactly | llvm/lib/Analysis/BasicAliasAnalysis.cpp:1146-1153 | two ranges on the address circle are disjoint exactly when each ends before the other starts |
| GepDifference.ConstantOffsetExact | llvm/lib/Analysis/BasicAliasAnalysis.cpp:1083-1106 | the constant comparisons are right exactly when neither range reaches round the address space |
| GepModular.ModularTestExact | llvm/lib/Analysis/BasicAliasAnalysis.cpp:1144-1153 | for independent variables, of known sign or not, the lowest-set-bit test succeeds if and only if the byte ranges are disjoint on the 2^64 circle under every valuation, unless variables of known sign have odd scales |
| GepModular.ModularTestSound | llvm/lib/Analysis/BasicAliasAnalysis.cpp:1144-1153 | the test is right for any list of variables |
| GepModular.ModularTestComplete | llvm/lib/Analysis/BasicAliasAnalysis.cpp:1144-1153 | when the test fails there is a valuation under which the ranges meet |
| GepModular.NothingVaries | llvm/lib/Analysis/BasicAliasAnalysis.cpp:1520-1548 | a sum of independent scaled variables is constant only if there are none |
| GepModular.OrScalesGathers | llvm/lib/Analysis/BasicAliasAnalysis.cpp:1109-1117 | the or of all scales is divisible by just the powers of two that divide every scale |
| GepSign.PositiveTestExact | llvm/lib/Analysis/BasicAliasAnalysis.cpp:1155-1159 | for variables known not to be negative, with scales below the size of both accesses together, the sign test is right if and only if even the largest sum leaves room for the first access below the end of the address space |
| GepSign.PositiveTestSound | llvm/lib/Analysis/BasicAliasAnalysis.cpp:1155-1159 | with that room the sign test is right for any list of variables and any known signs |
| GepSign.EvenScalesAddNothing | llvm/lib/Analysis/BasicAliasAnalysis.cpp:1144-1159 | for independent variables with even scales there is no such room where the lowest-bit test has failed, and some valuation brings the ranges together: what the sign test adds there is always wrong |
| GepSign.PositiveOffsetExact | llvm/lib/Analysis/BasicAliasAnalysis.cpp:1155-1159 | in one run the accesses are disjoint exactly when the first does not reach round the address space |
| GepSign.PositiveExactly | llvm/lib/Analysis/BasicAliasAnalysis.cpp:1119-1141 | a term is taken for positive if and only if nothing known of its variable's sign lets it be negative |
| GepSign.ReachWindow | llvm/lib/Analysis/BasicAliasAnalysis.cpp:1155-1159 | the sums of such variables fall into every window as long as their scales |
| GepHeuristic.ConstantOffsetHeuristic | llvm/lib/Analysis/BasicAliasAnalysis.cpp:1551-1603 | true exactly for two indices of opposite scales that are one line but for a constant, and sizes that fit in the least gap that constant leaves at the width of the indices, in 64-bit arithmetic |
| GepHeuristic.MeasureGap | llvm/lib/Analysis/BasicAliasAnalysis.cpp:1593-1602 | without overflow, exactly whether both accesses fit in the gap, the other way round of the width included |
| GepHeuristic.HeuristicExact | llvm/lib/Analysis/BasicAliasAnalysis.cpp:1588-1602 | for indices of the pointer's width, overflow or not, the accesses are always disjoint if and only if they are at the one distance that the constant makes |
| GepHeuristic.HeuristicSound | llvm/lib/Analysis/BasicAliasAnalysis.cpp:1588-1602 | the answer true is right if nothing overflows and that distance is at most half the address space |
| GepHeuristic.NarrowHeuristicSound | llvm/lib/Analysis/BasicAliasAnalysis.cpp:1586-1602 | for indices of any width, zero-extended or sign-extended, wraparound at that width included, the answer true means disjoint accesses for every value of the shared variable, as long as a turn of the index stays within the address space |
| GepHeuristic.NarrowIndicesExact | llvm/lib/Analysis/BasicAliasAnalysis.cpp:1586-1602 | for an index plus a constant and the index, at any width, the accesses are always disjoint if and only if they are at both distances that wraparound leaves |
| GepHeuristic.GapExact | llvm/lib/Analysis/BasicAliasAnalysis.cpp:1593-1602 | accesses that fit in the gap are disjoint exactly when the far side does not come round to them |
| GepHeuristic.GapOfHalf | llvm/lib/Analysis/BasicAliasAnalysis.cpp:1593-1602 | a gap of at most half the address space is safe |
| GepFields.EltsDontOverlapExact | llvm/lib/Analysis/BasicAliasAnalysis.cpp:910-924 | tried both ways, the test holds if and only if fields of structs any number of structs apart share no byte |
| GepAliasing.AliasGEP | llvm/lib/Analysis/BasicAliasAnalysis.cpp:995-1174 | MayAlias exactly when no difference is taken; else offset and variables are the difference of the addresses under every valuation, each variable known to be itself with the difference of its scales; if all are, equal indices and indices that differ by constants leave no variables, and where only constants are applied to variables none are left exactly if the distance is constant; then MustAlias exactly for the same address; NoAlias: the test named by the reason holds for that difference, and no byte is in common under every valuation and base, given what that test rests on; PartialAlias: no test holds, and a constant difference means a byte in common |
| GepAliasing.ConstantsCancel | llvm/lib/Analysis/BasicAliasAnalysis.cpp:1528-1541 | pointers that differ by constants leave no variables |
| GepAliasing.ConstantExactly | llvm/lib/Analysis/BasicAliasAnalysis.cpp:1520-1548 | for independent variables the list is empty if and only if the distance is the same under every valuation |
| GepAliasing.ConstantTestExact | llvm/lib/Analysis/BasicAliasAnalysis.cpp:1083-1106 | the constant test holds exactly if all accesses of those sizes, each at most half the address space, are apart, except that it wants both sizes known if the first access comes first |
| GepAliasing.AliasDifference | llvm/lib/Analysis/BasicAliasAnalysis.cpp:1068-1174 | what an offset and scaled variables say of two accesses: MustAlias exactly for no difference, NoAlias exactly when one of the four tests holds, and then the accesses are apart under what that test rests on |
| GepAliasing.GroundsRight | llvm/lib/Analysis/BasicAliasAnalysis.cpp:1083-1163 | in every run each test is right, given what it rests on |
| GepAliasing.ScanVariables | llvm/lib/Analysis/BasicAliasAnalysis.cpp:1109-1142 | the or of all scales; all terms are known not to be negative exactly when the flag says so |
| GepAliasing.ConstantOffsetWraps | llvm/lib/Analysis/BasicAliasAnalysis.cpp:1083-1090 | NoAlias from the constant test for an access that comes round to the other one |
| GepAliasing.PositiveOffsetWraps | llvm/lib/Analysis/BasicAliasAnalysis.cpp:1155-1159 | NoAlias from the sign test for 8 + 8 * i, i not negative, which comes round to byte 0 |
| GepAliasing.GapBeyondHalf | llvm/lib/Analysis/BasicAliasAnalysis.cpp:1551-1603 | NoAlias from the heuristic for 3 * (i + 0x5555555555555555) and 3 * i, which are one byte apart |
| Words.LowestBitIsPow2 | llvm/lib/Analysis/BasicAliasAnalysis.cpp:1144 | x ^ (x & (x - 1)) is the largest power of two that divides x |
| Words.MaskIsMod | llvm/lib/Analysis/BasicAliasAnalysis.cpp:1149 | masking with a power of two less one is the remainder |
| Words.OrDivisible | llvm/lib/Analysis/BasicAliasAnalysis.cpp:1117 | a power of two divides an or exactly when it divides both |
| Words.OddInverse | llvm/lib/Analysis/BasicAliasAnalysis.cpp:1109-1153 | odd scales can be inverted modulo every power of two, which the exactness of the test rests on |
| BranchProbability.Scale | llvm/lib/Support/BranchProbability.cpp:66-106 | 32-bit digit multiplication and long division compute num * n / d, or the largest 64-bit number |
| BranchProbability.Multiply | llvm/lib/Support/BranchProbability.cpp:76-87 | the three digits with their carry are the product |
| BranchProbability.Divide | llvm/lib/Support/BranchProbability.cpp:89-105 | digit by digit the quotient of the three digits, saturated |
| BranchProbability.NumeratorBound | llvm/lib/Support/BranchProbability.cpp:36-47 | a probability is at most one, and is one for the whole |
| BranchProbability.PortionBound | llvm/include/llvm/Analysis/BlockFrequencyInfoImpl.h:103-106 | a mass times weight/total is at most the mass, and all of it for the whole weight |
| BranchProbability.PortionNear | llvm/include/llvm/Analysis/BlockFrequencyInfoImpl.h:103-106 | it is in proportion: off by at most half a numerator's unit of the mass, and one |
| BranchProbability.TakenNear | llvm/lib/Analysis/BlockFrequencyInfoImpl.cpp:91-100 | a part of a rest is in proportion to the whole, and so is what it leaves, within one rounding more |
| BranchWeights.Calculate | llvm/lib/Analysis/BranchProbabilityInfo.cpp:636-666 | in post-order; without invokes a block is in the set exactly if every way on ends in an unreachable terminator, with them those in it do along expected edges; each block has just the probabilities of the first rule that has something to say for it, and none otherwise; they add up to one within half a unit for each edge unless an edge count wrapped; the walk fails exactly if a block has both kinds of edges and a multiple of 4096 of one kind |
| BranchWeights.CalcUnreachableHeuristics | llvm/lib/Analysis/BranchProbabilityInfo.cpp:115-173 | the block joins the set exactly if it ends in unreachable or all expected successors are in the set; undecided exactly with at most one successor, none in the set, or an invoke whose normal destination is; else all edges get the same or the unlikely and likely ones their shares, with 32-bit denominators; failed exactly if a denominator is zero |
| BranchWeights.SplitsRightExactly | llvm/lib/Analysis/BranchProbabilityInfo.cpp:159-171 | with 32-bit denominators, the unlikely and the likely edges together get the parts meant for them if and only if there are fewer than 4096 of either kind |
| BranchWeights.WeighedAddsUp | llvm/lib/Analysis/BranchProbabilityInfo.cpp:159-171 | then all probabilities add up; with 4096 likely edges or more they never do |
| BranchWeights.WrappedAddsUp | llvm/lib/Analysis/BranchProbabilityInfo.cpp:159-171 | with 5462 unlikely and 701 likely edges the sum comes out right although the parts are wrong |
| BranchWeights.WrappedDoesNot | llvm/lib/Analysis/BranchProbabilityInfo.cpp:159-171 | with 8191 unlikely edges and a likely one the probabilities do not add up |
| BranchWeights.CalcMetadataWeights | llvm/lib/Analysis/BranchProbabilityInfo.cpp:177-237 | probabilities in proportion to the weights, adding up: rounded to nearest if the weights sum to a 32-bit number, for larger sums within two units and a half for each weight, and all the same if every weight is zero |
| BranchWeights.ScaledInProportion | llvm/lib/Analysis/BranchProbabilityInfo.cpp:214-234 | the shares of the weights divided by the scaling factor are that near to the shares of the weights |
| BranchWeights.ScalesDown | llvm/lib/Analysis/BranchProbabilityInfo.cpp:214-234 | the scaled weights sum to a 32-bit number, are the weights themselves if those do, and otherwise keep half of 32 bits less one for each |
| BranchWeights.SharesAddUp | llvm/lib/Analysis/BranchProbabilityInfo.cpp:225-231 | rounding each weight to a numerator over 2^31 is off by at most half for each |
| BranchWeights.DoomedSuccessor | llvm/lib/Analysis/BranchProbabilityInfo.cpp:643-648 | a block that leads to an unreachable end is on no cycle, so its successors are visited before it |
| BranchWeights.DeadMore | llvm/lib/Analysis/BranchProbabilityInfo.cpp:117-153 | a block all of whose expected successors lead to an unreachable end leads there |
| BranchWeights.CompleteMore | llvm/lib/Analysis/BranchProbabilityInfo.cpp:643-648 | no block that leads to an unreachable end is missed |
| BranchWeights.DeadRight | llvm/lib/Analysis/BranchProbabilityInfo.cpp:643-648 | every block found leads to an unreachable end, and without invokes no block that does is missed |
| CombiningWeights.CombineWeights | llvm/lib/Analysis/BlockFrequencyInfoImpl.cpp:174-182 | one weight for each target, the saturated sum of all its weights, whichever way is taken |
| CombiningWeights.CombineWeightsBySorting | llvm/lib/Analysis/BlockFrequencyInfoImpl.cpp:135-154 | the same by sorting and compacting in place |
| CombiningWeights.CombineWeightsByHashing | llvm/lib/Analysis/BlockFrequencyInfoImpl.cpp:156-172 | the same by a table, whose order is not specified |
| CombiningWeights.CombineAdjacent | llvm/lib/Analysis/BlockFrequencyInfoImpl.cpp:141-153 | reading ahead of where it writes in the same array, combines each group of equal targets |
| CombiningWeights.CombineGroup | llvm/lib/Analysis/BlockFrequencyInfoImpl.cpp:144-150 | one group, in place, leaving what is still to be read as it was |
| CombiningWeights.CombinedAlike | llvm/lib/Analysis/BlockFrequencyInfoImpl.cpp:135-172 | any two results of combining are the same weights in some order |
| CombiningWeights.CombinedAmount | llvm/lib/Analysis/BlockFrequencyInfoImpl.cpp:119-133 | a weight is in the result exactly when it is all there is for its target |
| CombiningWeights.CombinedSaturates | llvm/lib/Analysis/BlockFrequencyInfoImpl.cpp:119-133 | comparing after a 64-bit addition that may wrap saturates the sum |
| CombiningWeights.CombinesPermuted | llvm/lib/Analysis/BlockFrequencyInfoImpl.cpp:136-139 | the order sorting leaves among equals does not matter |
| CombiningWeights.TotalToPermuted | llvm/lib/Analysis/BlockFrequencyInfoImpl.cpp:136-139 | totals do not depend on the order |
| Normalization.Distribution.Add | llvm/lib/Analysis/BlockFrequencyInfoImpl.cpp:102-117 | the total is that of the weights modulo 2^64 with at most one overflow, which is noted |
| Normalization.Distribution.Normalize | llvm/lib/Analysis/BlockFrequencyInfoImpl.cpp:192-246 | one weight for each target, none zero, scaled down together by the one shift that leaves 31 bits of the total (none if it has 32, 33 bits on overflow), the total being their sum; it fits 32 bits if there is room for rounding |
| Normalization.ShrunkFits | llvm/lib/Analysis/BlockFrequencyInfoImpl.cpp:206-245 | with at most 2^31 weights, or on overflow a sum that leaves 2^33 for each, rounding up and the floor of one do not take the total past 32 bits |
| Normalization.OverflowTooLarge | llvm/lib/Analysis/BlockFrequencyInfoImpl.cpp:207-245 | without that room they do: two weights of 64 bits, added and normalized, have a total of 2^32 |
| Normalization.RoundsHalfUp | llvm/lib/Analysis/BlockFrequencyInfoImpl.cpp:184-190 | the shift rounds to nearest, halves up |
| Normalization.AmountNear | llvm/lib/Analysis/BlockFrequencyInfoImpl.cpp:238-240 | a scaled weight is within one of the exact quotient and at least one |
| Normalization.ShiftFits | llvm/lib/Analysis/BlockFrequencyInfoImpl.cpp:209-210 | 33 less the leading zeros leaves just 31 bits of the total |
| Normalization.ShiftUnique | llvm/lib/Analysis/BlockFrequencyInfoImpl.cpp:206-210 | there is but one shift that does |
| Normalization.CombinedTotal | llvm/lib/Analysis/BlockFrequencyInfoImpl.cpp:216-226 | combining keeps the total unless something saturates |
| Normalization.NormalizedDistinct | llvm/lib/Analysis/BlockFrequencyInfoImpl.cpp:192-246 | the targets are those there were, each once |
| MassDistribution.DitheringDistributer.TakeMass | llvm/lib/Analysis/BlockFrequencyInfoImpl.cpp:91-100 | takes a share of the remaining mass by the remaining weight, in proportion within a rounding; nothing is left with the last |
| MassDistribution.PortionsNear | llvm/lib/Analysis/BlockFrequencyInfoImpl.cpp:84-100 | every portion is its weight's part of the whole mass, within a rounding for itself and each before it |
| MassDistribution.PortionsSum | llvm/lib/Analysis/BlockFrequencyInfoImpl.cpp:84-100 | the portions taken add up to exactly the mass |
| MassDistribution.GiveAllAccounts | llvm/lib/Analysis/BlockFrequencyInfoImpl.cpp:409-431 | handing portions to local nodes, headers and exits raises the account by exactly their sum, with no saturation |
| MassDistribution.Conserves | llvm/lib/Analysis/BlockFrequencyInfoImpl.cpp:399-432 | a node's mass handed on leaves unprocessed, backedge and exit mass together as they were |
| MassDistribution.Given | llvm/lib/Analysis/BlockFrequencyInfoImpl.cpp:409-415 | a local target gains exactly its portion |
| MassDistribution.GivenBack | llvm/lib/Analysis/BlockFrequencyInfoImpl.cpp:420-425 | so does a header |
| MassDistribution.GivenOut | llvm/lib/Analysis/BlockFrequencyInfoImpl.cpp:427-430 | each portion that leaves is one more exit, to its target |
| MassDistribution.NotGiven | llvm/lib/Analysis/BlockFrequencyInfoImpl.cpp:409-415 | every other node keeps its mass |
| MassFlow.MassFlow.DistributeMass | llvm/lib/Analysis/BlockFrequencyInfoImpl.cpp:399-432 | the new masses are the old ones with every portion handed to its target, and the portions are in proportion to the normalized weights |
| MassFlow.MassFlow.AddToDist | llvm/lib/Analysis/BlockFrequencyInfoImpl.cpp:265-325 | the edge is classed as backedge to a header, exit to a node outside, or local, with a weight of at least one, or refused exactly if it is an irreducible backedge |
| MassFlow.MassFlow.PropagateMassToSuccessors | llvm/include/llvm/Analysis/BlockFrequencyInfoImpl.h:1185-1209 | a node that is no packaged loop, from its edges; refused with nothing changed, or its mass is shared out in proportion over their normalized weights and the account is kept; no node up to it is given any mass |
| MassFlow.MassFlow.StartMass | llvm/include/llvm/Analysis/BlockFrequencyInfoImpl.h:1080-1092 | the headers share full mass without loss, each getting its part within a rounding for itself and each before it |
| MassFlow.MassFlow.PropagatePackage | llvm/lib/Analysis/BlockFrequencyInfoImpl.cpp:326-338 | a node that stands for a packaged loop shares its mass out in proportion to the masses that left the loop, which always leave room for rounding; refused with nothing changed, or the account is kept |
| MassFlow.MassFlow.ComputeMass | llvm/include/llvm/Analysis/BlockFrequencyInfoImpl.h:1086-1099 | each node in turn shares its mass out as above; after all nodes, backedge mass, exit mass and what stayed in nodes without successors add up to what there was |
| MassFlow.MassFlow.ComputeMassInLoop | llvm/include/llvm/Analysis/BlockFrequencyInfoImpl.h:1076-1107 | from full mass shared by the headers, the same; mass flowing back and mass leaving add up to full mass if every node has a successor |
| IrreducibleHeaders.FindIrreducibleHeaders | llvm/lib/Analysis/BlockFrequencyInfoImpl.cpp:624-689 | headers and others, sorted, are the component; a node is a header exactly if it is entered from outside or by an edge that is not forward from a node that is no entry |
| IrreducibleHeaders.EveryCycleHasHeader | llvm/lib/Analysis/BlockFrequencyInfoImpl.cpp:655-685 | the two lists share no node, and every cycle inside the component passes through a header |
| IrreducibleHeaders.OthersIncrease | llvm/lib/Analysis/BlockFrequencyInfoImpl.cpp:662-670 | edges between others go forward |
| IrreducibleHeaders.FindBack | llvm/lib/Analysis/BlockFrequencyInfoImpl.cpp:661-676 | whether some edge makes the node an extra header |
| IrreducibleHeaders.FindEntries | llvm/lib/Analysis/BlockFrequencyInfoImpl.cpp:633-647 | the nodes entered from outside, and the table that knows them |
| CallGraphs.CallGraph.GetOrInsertFunction | llvm/lib/Analysis/CallGraph.cpp:167-175 | the function's node, new and unreferenced if it had none; counts stay right |
| CallGraphs.CallGraph.AddCalledFunction | llvm/include/llvm/Analysis/CallGraph.h:236-242 | one more edge, and every reference count is again the number of incoming edges |
| CallGraphs.CallGraph.RemoveCallEdge | llvm/include/llvm/Analysis/CallGraph.h:244-248 | the edge is replaced by the last one; counts stay right |
| CallGraphs.CallGraph.RemoveCallEdgeFor | llvm/lib/Analysis/CallGraph.cpp:205-215 | the first edge of the call site goes; counts stay right |
| CallGraphs.CallGraph.RemoveAnyCallEdgeTo | llvm/lib/Analysis/CallGraph.cpp:220-228 | exactly the edges to the callee go, though removal moves others about; counts stay right |
| CallGraphs.CallGraph.RemoveOneAbstractEdgeTo | llvm/lib/Analysis/CallGraph.cpp:232-243 | one edge without a call site goes; counts stay right |
| CallGraphs.CallGraph.ReplaceCallEdge | llvm/lib/Analysis/CallGraph.cpp:248-260 | the first edge of the call site gets a new site and target; counts stay right, even for the same target |
| CallGraphs.CountsReplaced | llvm/lib/Analysis/CallGraph.cpp:248-260 | dropping the old target's reference before adding the new one's keeps every count right |
| CallGraphs.CountsRemoved | llvm/include/llvm/Analysis/CallGraph.h:244-248 | moving the last edge into the gap changes one count only |
| CallGraphs.RemovedMultiset | llvm/include/llvm/Analysis/CallGraph.h:244-248 | removal takes away that edge and no other |
| CallGraphRefresh.RefreshCallGraph | llvm/lib/Analysis/CallGraphSCCPass.cpp:177-375 | afterwards each call that is no intrinsic, in a defined function of the component, has exactly one edge, to its callee's node or the external node, and no other such call has one; live edges of other calls are the same; other nodes are as they were, new ones have no edges; counts are right; a component in line, as every refresh leaves it, is left as it is and nothing is reported; the answer is true if and only if for some function an indirect call has turned direct, or more indirect edges are removed than added and fewer direct ones |
| CallGraphRefresh.RefreshNode | llvm/lib/Analysis/CallGraphSCCPass.cpp:191-359 | one function, with the same condition for its answer |
| CallGraphRefresh.OnlyGoneRemoved | llvm/lib/Analysis/CallGraphSCCPass.cpp:205-258 | if no call has two records, the edges removed, by kind, are just those of calls that are gone |
| CallGraphRefresh.AnswersStill | llvm/lib/Analysis/CallGraphSCCPass.cpp:191-359 | nodes made for other functions of the component change nothing in the answer |
| CallGraphRefresh.Sweep | llvm/lib/Analysis/CallGraphSCCPass.cpp:205-258 | edges of calls that are gone, or repeated, are removed while walking the list, no live call loses its last edge, and edges of calls that need none stay; the two counts are the edges removed of either kind |
| CallGraphRefresh.Sync | llvm/lib/Analysis/CallGraphSCCPass.cpp:264-334 | walking the body finds or makes each call's edge and leaves no recorded site over; the two counts are the calls of either kind that had no record |
| CallGraphRefresh.SyncSite | llvm/lib/Analysis/CallGraphSCCPass.cpp:267-333 | one call site: found, retargeted or added |
| CallGraphRefresh.SweepRemoves | llvm/lib/Analysis/CallGraphSCCPass.cpp:211-245 | removing in the middle of the walk loses no record |
| CallGraphRefresh.SyncReplaces | llvm/lib/Analysis/CallGraphSCCPass.cpp:300-319 | a retargeted edge is right, and no other is touched |
| CallGraphRefresh.SyncEnds | llvm/lib/Analysis/CallGraphSCCPass.cpp:350-354 | no dangling sites are left in the map |
| CallGraphRefresh.DevirtualizesIsFound | llvm/lib/Analysis/CallGraphSCCPass.cpp:300-313 | a call whose edges were all indirect is found to be direct now |
| CallGraphRefresh.BuildCallGraph | llvm/lib/Analysis/CallGraph.cpp:23-35 | after adding every function, in any order, each has its node and just the edges of its calls, no other node has any, and the node that calls from outside calls each function once if others can see it, and once if its address is taken, and nothing else |
| CallGraphRefresh.OutsideCount | llvm/lib/Analysis/CallGraph.cpp:60-74 | how often it calls a function, among those of all others |
| CallGraphRefresh.AddToCallGraph | llvm/lib/Analysis/CallGraph.cpp:57-98 | a function's node, made now or by an earlier caller, is in line from the start, so a refresh finds nothing to do; its outside callers are recorded and all other nodes are as they were |
| CallGraphRefresh.AddCalls | llvm/lib/Analysis/CallGraph.cpp:81-97 | the edges of a body, each call once |
| ThreadBarrier.BarrierSafe | llvm/examples/ParallelJIT/ParallelJIT.cpp:151-220 | in every interleaving nobody returns, or can, before all have arrived, the assertion never fails, and once all have arrived nobody waits without having been signalled |
| ThreadBarrier.BarrierLive | llvm/examples/ParallelJIT/ParallelJIT.cpp:151-220 | every interleaving is over after at most five steps for each thread, with everybody back |
| ThreadBarrier.StepInv | llvm/examples/ParallelJIT/ParallelJIT.cpp:151-220 | every step of every thread keeps: either nobody was let go and n counts the workers waiting, or everybody was |
| ThreadBarrier.SpuriousWakeupEscapes | llvm/examples/ParallelJIT/ParallelJIT.cpp:167-172 | one spurious wakeup lets a worker return alone, since the wait is not in a loop |
| ThreadBarrier.WaitForThreads.Block | llvm/examples/ParallelJIT/ParallelJIT.cpp:151-177 | the counters change as the step says, and the caller goes on or waits |
| ThreadBarrier.WaitForThreads.ReleaseThreads | llvm/examples/ParallelJIT/ParallelJIT.cpp:181-200 | the same for the releaser |
| CaptureTracking.PointerMayBeCaptured | llvm/lib/Analysis/CaptureTracking.cpp:213-326 | ends on cyclic use graphs; true if and only if a reachable use captures the pointer or some value on the way has more than 20 uses |
| CaptureTracking.Examine | llvm/lib/Analysis/CaptureTracking.cpp:235-322 | a use captures as a call's operand that may be captured, as what is stored, in a comparison that tells something, by a return if those count, and in ways that are not known |
| CaptureTracking.AddUses | llvm/lib/Analysis/CaptureTracking.cpp:219-228 | adds the unseen uses, or gives up exactly past the threshold |
| CaptureTracking.NotCaptured | llvm/lib/Analysis/CaptureTracking.cpp:230-325 | a closed set of harmless uses shows that the pointer is not captured |
| CaptureTracking.ChainInside | llvm/lib/Analysis/CaptureTracking.cpp:284-304 | every chain of uses stays in a closed set |
| MetaPagetable.MetaPagetable.SetEntries | metapagetable/metapagetable.c:72-96 | exactly the pages of the range get their entries; a size that is no multiple of a page is refused |
| MetaPagetable.MetaPagetable.GetEntry | metapagetable/metapagetable.c:98-105 | the page's entry, the table being made on first use |
| MetaPagetable.MetaPagetable.Deallocate | metapagetable/metapagetable.c:63-70 | for a range that was registered, what is unmapped starts at the metadata it was registered with, and is the least number of whole system pages for its whole granules |
| MetaPagetable.LookupIsDirect | metapagetable/metapagetable.c:84-95 | for every address of the range, going through its page's entry gives the metadata at its distance from the start of the range |
| MetaPagetable.LookupIsInside | metapagetable/metapagetable.c:49-61 | with granules no larger than a page, it is inside what was reserved |
| MetaPagetable.InsideExactly | metapagetable/metapagetable.c:49-61 | for granules of any size, all metadata of a range is inside what is reserved for it if and only if there is a piece for each granule the range touches |
| MetaPagetable.WholeGranulesInside | metapagetable/metapagetable.c:49-61 | that is so whenever the range is a whole number of granules |
| MetaPagetable.NothingReserved | metapagetable/metapagetable.c:49-61 | nothing at all is reserved if and only if a granule is larger than all the metadata put together |
| MetaPagetable.OnePageOutside | metapagetable/metapagetable.c:49-61 | one page at alignment 13: its first byte has metadata outside what is reserved |
| MetaPagetable.EntryDecodes | metapagetable/metapagetable.c:94 | pointer and alignment can be read back from an entry |
| MetaPagetable.RoundUpBounds | metapagetable/metapagetable.c:52-54 | the mask rounds up to the next whole system page |
| MetaPagetable.RegisterThenUse | metapagetable/metapagetable.c:63-105 | registering a range, looking up any of its addresses and giving the metadata back: start and size are those allocated |

## Left out

- BrainF: driver, JIT, libc and the 32-bit widths of `curvalue` and of address offsets; positions and run lengths are unbounded integers, getchar and putchar are an input and an output sequence, `memtotal` is not negative.
- BasicAA: indices narrower than the pointer outside `GepHeuristic`, and pointers narrower than 64 bits in the alias tests.
- BasicAA: `aliasCheck` with its cache, phis and selects, the alias query on the two base objects (the model's bases are equal or MayAlias is answered), and the array cases of `aliasSameBasePointerGEPs`.
- GepDecomposition.GetLinearExpression: does not model lines 258-316 of its source, sign and zero extensions with their no-wrap flags; expressions have one width.
- GepDecomposition.DecomposeGEPExpression: does not model indices narrower than the pointer, which the code sign-extends; a GEP over an unsized element is a pointer the walk stops at (`Base`).
- GepAliasing.AliasGEP: NoAlias is stated under the proviso of the test that answered, because three of the tests are wrong without it; the exact conditions are separate lemmas.
- GepSign.PositiveTestExact: covers variables known not to be negative, with positive scales no larger than both accesses together; larger odd scales may step over the accesses, and then only the sufficient condition of `GepSign.PositiveTestSound` is stated.
- CFG: `GetSuccessorNumber` and `isCriticalEdge`, which are simple scans.
- AliasSetTracker: sizes, access and volatile flags, unknown instructions, removal and `deleteValue`; reference counts, and with them the freeing of sets that no record names any more; pointer lists are sequences, so the intrusive links are not modelled.
- Block frequency: `ScaledNumber` arithmetic (loop scales, unwrapping, final integers), turning a loop into a package and `getResolvedNode`, building the irreducible graph, `adjustLoopHeaderMass`.
- Normalization.ShrunkFits: one direction only on the overflow path, because whether the total fits then depends on how each weight rounds; `Normalization.OverflowTooLarge` shows that a condition is needed.
- MassFlow.MassFlow.AddToDist: nodes are positions in the order of processing, so a header's edges never count as backward; in the code this is the exemption for secondary headers.
- MassFlow.MassFlow.PropagateMassToSuccessors: no node but a header is its own successor (loop analysis makes the target of such an edge a header), and the weights have room for rounding.
- BranchProbabilityInfo: the heuristics after the metadata weights, which are weight tables over analyses that are not modelled.
- Call graph: checking mode, removing and splicing functions, and the graph's root; weak handles are sites that may be gone.
- Capture tracking: `CapturesBefore` with its dominator queries, and what makes a call read-only or an argument not captured, which the model is given.
- Barrier: memory effects outside the critical sections, and initialising and destroying mutex and condition.
- Metadata page table: mmap and munmap, fixed compression, alignments of 64 and more (the shift is undefined there), the commented-out reference table and the stack workaround.
