# Models of LLVM analyses and of the BrainF compiler

This project models parts of LLVM's analysis library and one of its example compilers in Dafny and
proves what they promise. Code that works by changing things step by step is modelled by methods and
classes with the same loops, worklists and stacks, each proved against a specification; the theorems are
about those specifications. `dafny verify dfyconfig.toml` checks everything.

| Files | What they model |
|---|---|
| `LazyCallGraph`, with `Digraph`, `TarjanWalk`, `WalkStacks`, `SccForest`, `SccAncestors`, `SccUpdates`, `SccSplit`, `SccSplitWalk`, `CallGraphFacts` | The lazily formed components of a call graph: a resumable walk that yields them in post-order, and the edge updates that keep them right afterwards |
| `BrainF`, with `BrainFLanguage`, `BrainFIr`, `BrainFCode`, `BrainFPlaces`, `BrainFRun`, `BrainFMeaning`, `BrainFSsa`, `BrainFSsaCode` | A compiler in one pass: tokens that merge runs of commands, loops with phis that are completed when the loop ends, bounds checks |
| `LazyValueInfo`, with `LatticeValues`, `RangeRules`, `LazyValueProgram`, `LazyValueSolve`, `LazyValueBest`, `LazyValueThreading`, `ThreadedRuns`, `ThreadingInputs` | A solver on demand for what values can be at the end of a block or on an edge, with an explicit stack, a cache, an index of what is overdefined, and updates of the cache |
| `BasicAliasAnalysis`, with `MachineIntegers`, `GepLinear`, `GepExtensions`, `GepAnswers` | Addresses as linear forms modulo 2^64, when two of them cannot overlap, and that no better answer can be given |
| `DominanceFrontier`, `Cfg`, `CfgReachability`, with `ControlFlow`, `DepthFirst` | Walks over control-flow graphs that compute frontiers, back edges and reachability |
| `ConstantFolding`, `BitCasts`, with `MemoryImage` | Bytes read out of nested constants, loads folded from them, vectors of integers reinterpreted |
| `PassSupport` | Initialisers that run once, requested by any number of threads |
| `BlockFrequency`, with `MassScale`, `Distribution`, `WeightScaling`, `Sums` | Edge weights combined, scaled to 32 bits, and a mass handed out along them |
| `CostModel` | Trees of shuffles and operations recognised as reductions of a vector |
| `Maps`, `Sets`, `Options` | Maps and sets by their contents |

Assumed and not proved: dominator trees and loop information have their mathematical meaning
(`ControlFlow.IsDomTree`, `CfgReachability.Known`); the operations of ConstantRange are bounds or exact as
`LatticeValues.Rules.Sound` says (`RangeRules.StandardIsSound` shows that this can be met); `malloc` returns
a block that does not wrap around the address space; `std::sort` returns a sorted permutation; known-bits
facts (`GepLinear.MaskedHolds`) hold at run time.

## Model

| member | source | states |
|---|---|---|
| LazyCallGraph.LazyCallGraph.PostOrderSCCs | llvm/lib/Analysis/LazyCallGraph.cpp:580-681 | Repeated calls of getNextSCCInPostOrder put exactly the functions that an entry reaches into components, none in two and none twice; each component is one class of mutual reachability; every edge out of one leads to it or to an earlier one; parent links and leaves stay exact |
| LazyCallGraph.LazyCallGraph.GetNextSCCInPostOrder | llvm/lib/Analysis/LazyCallGraph.cpp:614-681 | One call, resumed at any point of the suspended walk: forms one more complete component that comes after all earlier ones, or nothing is left to reach |
| LazyCallGraph.LazyCallGraph.FormSCC | llvm/lib/Analysis/LazyCallGraph.cpp:580-612 | The root and what is pending above it become the members; exactly the other components they call gain the new one as a parent; it is a leaf exactly if there are none |
| LazyCallGraph.LazyCallGraph.IsDescendantOf | llvm/lib/Analysis/LazyCallGraph.cpp:165-178 | Without a record of visits it ends, and answers whether the other component is a proper ancestor by parent links, which with exact links is reachability in the call graph |
| LazyCallGraph.LazyCallGraph.InsertIntraSCCEdge | llvm/lib/Analysis/LazyCallGraph.cpp:180-188 | Adds the edge: one more slot for the callee at the end of the caller's list, nothing else in the lists; all components, parent links and leaves stay right, and a suspended walk is not disturbed |
| LazyCallGraph.LazyCallGraph.InsertOutgoingEdge | llvm/lib/Analysis/LazyCallGraph.cpp:190-203 | Adds an edge to a descendant, as one more slot; components stay right, and parents and leaves stay exact |
| LazyCallGraph.LazyCallGraph.RemoveInterSCCEdge | llvm/lib/Analysis/LazyCallGraph.cpp:324-375 | Clears the callee's slot in the caller's list and its index entry, and nothing else; the edge is left exactly if another slot lists the callee; the caller's component is taken out of the callee's parents exactly if it calls it no more, and listed as a leaf if it calls no other component or the scan stops early; the leaf list stays exact if and only if the first call that still leaves the caller's component does not go to the callee's |
| LazyCallGraph.LazyCallGraph.RemoveIntraSCCEdge | llvm/lib/Analysis/LazyCallGraph.cpp:377-529 | Clears the callee's slot in the same way; the component keeps exactly its members that still reach the callee; the rest are split into the components of the reduced graph, returned in post-order; parent links stay exact if and only if no outside caller calls a member that has left |
| SccUpdates.OnlySlotCleared | llvm/lib/Analysis/LazyCallGraph.cpp:91-97 | With one slot for the callee the edge is gone after its slot has been cleared, and every other edge is as before |
| LazyCallGraph.LazyCallGraph.InternalDFS | llvm/lib/Analysis/LazyCallGraph.cpp:377-454 | The inner walk from one member settles it: in the component that is kept or in new ones, in order, the short cut absorbing only what reaches the callee |
| SccSplit.CallerCanBeMissed | llvm/lib/Analysis/LazyCallGraph.cpp:456-529 | A graph of three functions in which the parent links are exact before the edge is removed and the condition for exactness afterwards fails |
| SccUpdates.ScanStopsEarly | llvm/lib/Analysis/LazyCallGraph.cpp:339-353 | The scan ends before it has seen a third component exactly if, of the calls that leave the component, the first goes to the callee's component |
| SccUpdates.ScanListsCaller | llvm/lib/Analysis/LazyCallGraph.cpp:339-374 | A caller of both functions of a component: the leaf list is exact before one call is removed, and the scan makes the code list the caller as a leaf although it still calls the other |
| CallGraphFacts.WalkComplete | llvm/lib/Analysis/LazyCallGraph.cpp:614-681 | Components formed in order of rank that cover what the entries reach are a post-order of the whole graph |
| BrainF.BrainF.Parse | llvm/examples/BrainF/BrainF.cpp:40-467 | Parsing succeeds exactly if the brackets balance; then the blocks hold the code of every command in its place and are well-formed SSA: one terminator a block, phi inputs matching predecessors, definitions before uses on every path; an error tells which bracket is unmatched |
| BrainF.BrainF.ReadToken | llvm/examples/BrainF/BrainF.cpp:315-409 | A token is a maximal run of one kind between comments with its total: it ends at a character of another kind, which is kept for the next token, or at the end of the input |
| BrainF.BrainF.ReadLoop | llvm/examples/BrainF/BrainF.cpp:184-467 | One loop, or the program: everything up to the matching bracket has its code in place |
| BrainF.BrainF.Header | llvm/examples/BrainF/BrainF.cpp:52-182 | The entry block, the end block and, with bounds checks, the error block |
| BrainFMeaning.CompilerPreservesMeaning | llvm/examples/BrainF/BrainF.cpp:184-467 | Without bounds checks and for every input: the emitted blocks end exactly if the source does when it is run one command at a time, with the same memory, input and output, having given back the tape once and nothing else; and they write the same when they do not end |
| BrainFMeaning.BoundedPreservesMeaning | llvm/examples/BrainF/BrainF.cpp:237-303 | With bounds checks the emitted blocks write what the source writes if and only if the head is on the tape whenever a run of moves has ended, wherever it was in between; and then they end in the same state as well |
| BrainFMeaning.BoundsKeepToTape | llvm/examples/BrainF/BrainF.cpp:106-303 | With bounds checks and a tape that is not empty no step of any run loads or stores outside the tape, and every state is one of the source's until the head has left the tape, when the code says so and ends |
| BrainFRun.EveryTokenFollows | llvm/examples/BrainF/BrainF.cpp:184-467 | From any pair of matching states the code of the next token leads to a matching pair, to the end of both, or off the tape, touching one cell only |
| BrainFRun.TestRuns | llvm/examples/BrainF/BrainF.cpp:417-461 | A branch to the test block goes on in the body or behind the loop as the cell says, with the head handed over by the phis |
| BrainFPlaces.EndBuilds | llvm/examples/BrainF/BrainF.cpp:417-461 | Closing a loop completes the code of its two brackets and leaves the code of everything else as it was |
| LatticeValues.LatticeVal.MergeIn | llvm/lib/Analysis/LazyValueInfo.cpp:192-270 | Merges in place into the merged value, and says whether it changed |
| LatticeValues.Rules.MergeIsUpperBound | llvm/lib/Analysis/LazyValueInfo.cpp:192-270 | A merge allows every value that either side allows |
| LazyValueBest.MergeExact | llvm/lib/Analysis/LazyValueInfo.cpp:192-270 | Merging loses nothing: it allows exactly what one side allows for equal values, for ranges with an exact union, for constants known to differ and for one constant each side of which is excluded |
| LatticeValues.Rules.MergeIsProper | llvm/lib/Analysis/LazyValueInfo.cpp:150-270 | A merge is never recorded as a range of all values, or of none |
| LazyValueInfo.LazyValueInfoCache.GetValueInBlock | llvm/lib/Analysis/LazyValueInfo.cpp:913-923 | The answer bounds the value at the end of the block in every run of the function, loops included; it is what the cache and the block's rule determine, and overdefined if anything had to be solved first; nothing solved before changes; the index of overdefined pairs is complete afterwards if and only if it was before and nothing had to be solved first |
| LazyValueInfo.LazyValueInfoCache.GetValueOnEdge | llvm/lib/Analysis/LazyValueInfo.cpp:925-940 | The answer bounds the value whenever control takes the edge, and is what the terminator and the cache give; where they give it at once nothing is solved, and asking again after solving always succeeds; the index stays complete under the same condition as above |
| LazyValueInfo.LazyValueInfoCache.Solve | llvm/lib/Analysis/LazyValueInfo.cpp:458-466 | Ends for every function and every stack; afterwards every pair that was pushed has an entry, every entry is a bound, and what was solved before is the same |
| LazyValueInfo.LazyValueInfoCache.SolveBlockValue | llvm/lib/Analysis/LazyValueInfo.cpp:489-556 | One work item: it is reused, solved, or marked and has pushed at least one pair without an entry, and it is finished exactly if nothing was pushed |
| LazyValueInfo.LazyValueInfoCache.SolveEdges | llvm/lib/Analysis/LazyValueInfo.cpp:585-695 | The loop over incoming edges merges them until nothing is known, or pushes every one that is missing |
| LazyValueInfo.LazyValueInfoCache.GetEdgeValue | llvm/lib/Analysis/LazyValueInfo.cpp:779-911 | What a branch or switch tells about a value on an edge, intersected with what the block knows, or a request for the block; the rows on LazyValueBest say that it is the best bound |
| LazyValueSolve.TransferBounds | llvm/lib/Analysis/LazyValueInfo.cpp:489-776 | From entries that are bounds every rule of a block yields a bound, for every run |
| LazyValueSolve.LocalBounds | llvm/lib/Analysis/LazyValueInfo.cpp:779-867 | What a terminator says about a value on an edge holds whenever the edge is taken |
| LazyValueBest.LocalExact | llvm/lib/Analysis/LazyValueInfo.cpp:779-867 | The best bound: for an edge that can be taken, what the terminator alone says allows a value exactly if that value sends control there, by a case or the default of a switch, by the outcome of a comparison, offset by a constant or not, or as the condition itself; unions and differences of ranges need only be exact where they are formed |
| LazyValueBest.BranchesAsSent | llvm/lib/Analysis/LazyValueInfo.cpp:779-867 | In every run control goes where the value tested sends it |
| LazyValueBest.EdgeValueExact | llvm/lib/Analysis/LazyValueInfo.cpp:869-911 | The value of an edge allows exactly what the terminator and the block both allow, if the intersection is exact |
| LazyValueBest.CaseEdgeKnown | llvm/lib/Analysis/LazyValueInfo.cpp:840-880 | The edge of a switch for one case only: the constant, at once, whatever is cached |
| LazyValueBest.CaseThree | llvm/lib/Analysis/LazyValueInfo.cpp:840-880 | switch (x) { case 3: t; default: d } on an empty cache: the range [3, 4) on the way to t |
| LazyValueBest.MergedExact | llvm/lib/Analysis/LazyValueInfo.cpp:625-658 | The loop over edges allows exactly what one of them allows, if every merge is exact |
| LazyValueBest.NonLocalExact | llvm/lib/Analysis/LazyValueInfo.cpp:585-659 | A value from outside the block: what the edges allow, without null if that is everything and the block dereferences it |
| LazyValueBest.PhiExact | llvm/lib/Analysis/LazyValueInfo.cpp:661-695 | A phi: what one of its entries allows |
| LazyValueBest.ArithExact | llvm/lib/Analysis/LazyValueInfo.cpp:697-777 | An operation with a constant, or a cast: exactly the results for the values of the operand, if the range operation is exact |
| LazyValueInfo.WorkingStep | llvm/lib/Analysis/LazyValueInfo.cpp:458-466 | Each turn solves a pair or uses up the stack, so the pairs without a value never grow and shrink whenever something is pushed |
| LazyValueInfo.OrderMatters | llvm/lib/Analysis/LazyValueInfo.cpp:489-556 | A function of four blocks where a query has to wait and yields nothing, and yields the constant if another block was asked first |
| LazyValueInfo.LazyValueInfoCache.ThreadEdge | llvm/lib/Analysis/LazyValueInfo.cpp:942-1000 | Without a list of visited blocks it ends, and drops exactly the pairs that are overdefined for the same values along paths of such blocks from the old successor, stopping at the new one |
| ThreadedRuns.SurvivesThreading | llvm/lib/Analysis/LazyValueInfo.cpp:942-1000 | The cache after an edge has been redirected past a block that sends control on to the new successor: every entry whose definition dominates its block is right for every run of the new function, if nothing that the block dereferences can be null when control comes from the edge; the block may define values that are used only where it dominates, and not on the redirected edge |
| ThreadedRuns.SurvivesIff | llvm/lib/Analysis/LazyValueInfo.cpp:942-1000 | Where the new successor is entered from that block only and dereferences nothing: every right entry stays right if and only if nothing that the block dereferences can be null when control comes from the edge |
| ThreadedRuns.RunForth | llvm/lib/Analysis/LazyValueInfo.cpp:942-1000 | Every run of the new function has a run of the old one, with the passed block put back in, that ends in the same block with the same values in scope |
| LazyValueThreading.KnownDecides | llvm/lib/Analysis/LazyValueInfo.cpp:925-1000 | Control is sent on there if the block branches on a value that getValueOnEdge has found to be constant, a phi of the block included |
| ThreadingInputs.LoadForgotten | llvm/lib/Analysis/LazyValueInfo.cpp:942-1000 | An argument that the passed block loads from: three queries find that it is not null behind it, threadEdge drops nothing, and in the new function it can be null there |
| ThreadingInputs.LoopValueStale | llvm/lib/Analysis/LazyValueInfo.cpp:942-1000 | A loop whose header is passed by on the back edge: the new function is well-formed and the header dominates the exit, but the bound of the header's phi there is wrong |
| LazyValueInfo.LazyValueInfoCache.EraseBlock | llvm/lib/Analysis/LazyValueInfo.cpp:435-456 | Exactly the entries of the block are gone from cache and index |
| LazyValueInfo.LazyValueInfoCache.ValueDeleted | llvm/lib/Analysis/LazyValueInfo.cpp:414-433 | Exactly the entries of the value are gone from cache and index |
| GepLinear.LinearIsExact | llvm/lib/Analysis/BasicAliasAnalysis.cpp:206-276 | The linear form of a value of any width equals it modulo that width for every value of the variable, sign and zero extensions included, if every extension that is looked through has nothing but the variable below it |
| GepAnswers.LinearGoesDown | llvm/lib/Analysis/BasicAliasAnalysis.cpp:206-272 | The variable of the form cannot be split any further, unless the limit of six steps is reached |
| GepExtensions.ExtensionExactIff | llvm/lib/Analysis/BasicAliasAnalysis.cpp:249-267 | Looking through an extension of operations on a variable is right for every value of the variable if and only if the operations come to nothing, or to a constant that has no sign |
| GepExtensions.ExtensionNoAliasWrong | llvm/lib/Analysis/BasicAliasAnalysis.cpp:249-267 | Accesses of four bytes at p + sext(x - 1) and p + sext(x), which overlap, are said not to alias |
| BasicAliasAnalysis.DifferenceExact | llvm/lib/Analysis/BasicAliasAnalysis.cpp:1364-1398 | Subtracting index lists term by term gives the difference of the sums modulo 2^64 |
| GepAnswers.DifferenceEntries | llvm/lib/Analysis/BasicAliasAnalysis.cpp:1364-1398 | Every entry of the difference is the difference of the two scales for a variable known to be the same in both pointers, and otherwise the entry of one list, negated for the second |
| BasicAliasAnalysis.AddressExact | llvm/lib/Analysis/BasicAliasAnalysis.cpp:289-422 | A chain taken apart has the address of its base plus offset plus scaled variables, with no variable listed twice and no scale zero, if all its subscripts are exact |
| BasicAliasAnalysis.DecomposeGEPExpression | llvm/lib/Analysis/BasicAliasAnalysis.cpp:289-422 | The loop computes that form, whichever way the chain runs |
| GepAnswers.DecomposeGEPGoesDown | llvm/lib/Analysis/BasicAliasAnalysis.cpp:289-422 | The base is the end of the chain, or what is left after six steps; the limit is reported exactly if six steps were made |
| BasicAliasAnalysis.AliasGEP | llvm/lib/Analysis/BasicAliasAnalysis.cpp:863-1050 | Bases that are not known to be equal: never MustAlias, and NoAlias exactly for bases that do not alias or by the rule for identical offsets; chains beyond the limit over one base: MayAlias; otherwise the answer whose soundness and exactness are stated below |
| BasicAliasAnalysis.AliasGepSound | llvm/lib/Analysis/BasicAliasAnalysis.cpp:863-1050 | For every answer about the bases, with exact subscripts: MustAlias means equal addresses, and NoAlias that accesses of the sizes within the two objects have no byte in common, for all values of the variables; where identical offsets decide, if the variables are known to be the same in both pointers |
| GepAnswers.NoAliasExact | llvm/lib/Analysis/BasicAliasAnalysis.cpp:919-1050 | Over one object, with opaque variables and known sizes: NoAlias if and only if the accesses are disjoint for all values of the variables, those known to be the same in both pointers having one value |
| GepAnswers.MustAliasExact | llvm/lib/Analysis/BasicAliasAnalysis.cpp:946-989 | MustAlias if and only if the addresses are equal for all values of the variables |
| GepAnswers.UnknownSizes | llvm/lib/Analysis/BasicAliasAnalysis.cpp:991-1023 | Where a size is unknown NoAlias is given exactly for a constant difference that puts the first pointer behind an access of known size through the second |
| GepAnswers.SameGepMustAlias | llvm/lib/Analysis/BasicAliasAnalysis.cpp:982-989 | Two lexically identical pointers must alias if their variables are the same |
| BasicAliasAnalysis.ModulusIsLargest | llvm/lib/Analysis/BasicAliasAnalysis.cpp:1025-1031 | The bit trick yields the largest power of two that divides every scale |
| BasicAliasAnalysis.PartialOverlaps | llvm/lib/Analysis/BasicAliasAnalysis.cpp:997-1023 | With a constant difference PartialAlias means that the accesses do overlap |
| BasicAliasAnalysis.SameOffsetsSound | llvm/lib/Analysis/BasicAliasAnalysis.cpp:877-917 | Identical offsets from disjoint bases are disjoint if every variable is known to be the same in both |
| BasicAliasAnalysis.SameOffsetsIff | llvm/lib/Analysis/BasicAliasAnalysis.cpp:877-917 | For opaque variables and different objects the answer NoAlias is right for all values if and only if every variable is known to be the same in both |
| BasicAliasAnalysis.SameOffsetsCanMeet | llvm/lib/Analysis/BasicAliasAnalysis.cpp:877-917 | Two accesses of four bytes that coincide although the answer is NoAlias |
| DominanceFrontier.DominanceFrontier.Calculate | llvm/lib/Analysis/DominanceFrontier.cpp:39-110 | Every reachable block's frontier is exactly the blocks with a predecessor it dominates that it does not strictly dominate |
| DominanceFrontier.FrontierSplits | llvm/lib/Analysis/DominanceFrontier.cpp:62-101 | A frontier is what the block's own edges give and what its children hand up |
| Cfg.FindFunctionBackedges | llvm/lib/Analysis/CFG.cpp:27-66 | The walk with a stack finds the edges that the recursive depth-first walk reports, in its order; for the tree and the finish order of that search an edge between live blocks is in the result if and only if its target does not come before its source, and then the target is an ancestor of the source; so every edge returned closes a cycle, and without them no cycle is left among reachable blocks |
| CfgReachability.IsPotentiallyReachableInner | llvm/lib/Analysis/CFG.cpp:129-172 | False means that no path exists, with or without loop and dominator information; true means a path unless 32 blocks were visited none of which is the target, dominates it or is in a loop with it |
| CfgReachability.IsPotentiallyReachableBlock | llvm/lib/Analysis/CFG.cpp:174-184 | The same from block to block |
| CfgReachability.IsPotentiallyReachable | llvm/lib/Analysis/CFG.cpp:186-236 | The same for instructions: from a block other than the entry block the answer is exact unless 32 such blocks can be looked at, and no for the entry block; from the entry block it is exact within the block and always yes to others |
| CfgReachability.EntryRightIff | llvm/lib/Analysis/CFG.cpp:229-230 | That yes is right for every other block if and only if no block is dead |
| CfgReachability.EntryUnsure | llvm/lib/Analysis/CFG.cpp:229-230 | An entry block that ends, and another block |
| ConstantFolding.ReadDataFromGlobal | llvm/lib/Analysis/ConstantFolding.cpp:270-391 | Reads exactly the requested bytes of the constant's memory image into a zeroed buffer, padding and undef as zero, and fails exactly if one of them is not known; nothing else in the buffer changes |
| ConstantFolding.FoldReinterpretLoad | llvm/lib/Analysis/ConstantFolding.cpp:393-472 | A load is folded exactly if it starts within the constant and its bytes are known, to the number they form in the machine's byte order |
| ConstantFolding.LoadOfInteger | llvm/lib/Analysis/ConstantFolding.cpp:393-472 | Loading an integer as its own type gives its value on either kind of machine |
| BitCasts.FoldBitCast | llvm/lib/Analysis/ConstantFolding.cpp:51-221 | A vector of integers with another number of elements is folded exactly if every element that goes into the result is an integer; if one number divides the other it then occupies memory as before, and otherwise the result is what the loops make of the whole elements |
| BitCasts.FoldRightIff | llvm/lib/Analysis/ConstantFolding.cpp:51-221 | The result is right for every vector of the type if and only if one number of elements divides the other |
| BitCasts.ThirdIsLost | llvm/lib/Analysis/ConstantFolding.cpp:166-196 | Three integers of 16 bits as two of 24 bits lose the third |
| BitCasts.FoldToInteger | llvm/lib/Analysis/ConstantFolding.cpp:60-97 | So does a vector as one integer |
| BitCasts.ThereAndBack | llvm/lib/Analysis/ConstantFolding.cpp:51-221 | Folding there and back is the identity |
| BitCasts.ImageDetermines | llvm/lib/Analysis/ConstantFolding.cpp:164-221 | A vector of a type is determined by its memory image |
| PassSupport.OnceAndInOrder | llvm/include/llvm/PassSupport.h:36-208 | In every interleaving of any number of threads each initialiser is started once and each entry is made once: by a pass its own, by a group one, by a member of a group its own and then one in the group; before it all entries of the listed dependencies, of the default pass of a group, and of the group of a member that is not the default; a finished pass has all its entries |
| PassSupport.ReturnsRegistered | llvm/include/llvm/PassSupport.h:36-208 | No call returns before its pass, both entries of a member, and everything that it needs are registered: dependencies, default pass, group |
| PassSupport.AsksInOrder | llvm/include/llvm/PassSupport.h:36-208 | An initialiser asks for its group first, unless the pass is the default of it, and then for its dependencies in the order listed, each when those before are finished; a group asks for its default pass; nothing else is asked for |
| PassSupport.NoDeadlock | llvm/include/llvm/PassSupport.h:36-54 | If no pass depends on itself, directly or through others, some thread in a call can always move |
| PassSupport.AllCallsReturn | llvm/include/llvm/PassSupport.h:36-83 | Then all calls can return from every reachable state, and every step on the way uses up work |
| PassSupport.AcyclicIff | llvm/include/llvm/PassSupport.h:36-83 | No reachable state is stuck if and only if no pass depends on itself, and all calls can return from every reachable state if and only if that is so |
| PassSupport.CycleNeverFinishes | llvm/include/llvm/PassSupport.h:36-83 | A pass on a cycle of dependencies is never registered and calls for it never return |
| PassSupport.NextKeeps | llvm/include/llvm/PassSupport.h:163-208 | Every step of every thread keeps the invariant, for passes, analysis groups and their members |
| MassScale.Scale | llvm/lib/Support/BranchProbability.cpp:28-65 | A 64-bit number times a fraction in 32-bit digits is the exact floor, or the largest number if that does not fit |
| Distribution.CombineWeightsBySorting | llvm/lib/Analysis/BlockFrequencyInfoImpl.cpp:131-162 | One weight for every target: the sum of what was added for it, of its kind |
| Distribution.CombineWeightsByHashing | llvm/lib/Analysis/BlockFrequencyInfoImpl.cpp:163-179 | The same by hashing |
| Distribution.CombinedAgree | llvm/lib/Analysis/BlockFrequencyInfoImpl.cpp:142-188 | Both ways give the same weights, in whatever order |
| WeightScaling.LimitIsExact | llvm/lib/Analysis/BlockFrequencyInfoImpl.cpp:196-242 | For n targets every distribution of a given sum fits 32 bits after shifting if and only if the sum is below 2^65 - (n-1)·2^33 + (n-2) |
| WeightScaling.RoundsToNearest | llvm/lib/Analysis/BlockFrequencyInfoImpl.cpp:189-236 | A weight is shifted to the nearest multiple, a half up, and to 1 if it is less than a half |
| WeightScaling.ShiftIsOneExtra | llvm/lib/Analysis/BlockFrequencyInfoImpl.cpp:212-220 | A sum of more than 32 bits is shifted to exactly 31 bits |
| BlockFrequency.DistributionOf.Add | llvm/lib/Analysis/BlockFrequencyInfoImpl.cpp:110-129 | The total and the overflow flag together hold the true sum |
| BlockFrequency.DistributionOf.Normalize | llvm/lib/Analysis/BlockFrequencyInfoImpl.cpp:196-242 | Whenever the assertions of the code hold: one weight from 1 to 2^32 - 1 for every target, combined and shifted as the true sum demands, and the total is their sum and fits 32 bits; a single target gets weight 1 |
| BlockFrequency.BelowLimitScalable | llvm/lib/Analysis/BlockFrequencyInfoImpl.cpp:196-242 | They hold if the sum is below the limit for the number of targets |
| BlockFrequency.DitheringDistributer.TakeMass | llvm/lib/Analysis/BlockFrequencyInfoImpl.cpp:99-108 | The floor of the share in what is left, which is taken from it |
| BlockFrequency.BlockFrequencyInfo.DistributeMass | llvm/lib/Analysis/BlockFrequencyInfoImpl.cpp:376-422 | From added weights: local, back-edge and exit targets get the portions of their weights and nothing else, cut off at the largest mass; nothing is lost if no sum can be cut off |
| BlockFrequency.PortionOfAdded | llvm/lib/Analysis/BlockFrequencyInfoImpl.cpp:92-242 | The i-th target's portion lies within one below and i above its exact share of what was added; if the sum needs shifting, within bounds that grow by a unit of the shift for every target |
| BlockFrequency.PortionBounds | llvm/lib/Analysis/BlockFrequencyInfoImpl.cpp:92-108 | The i-th portion is more than its exact share minus one and at most i above it |
| BlockFrequency.PortionsConserve | llvm/lib/Analysis/BlockFrequencyInfoImpl.cpp:92-108 | The portions add up to the mass |
| CostModel.MatchVectorSplittingReduction | llvm/lib/Analysis/CostModel.cpp:304-378 | The loop accepts exactly the trees that halve the vector with the masks of the reduction |
| CostModel.SplittingReduces | llvm/lib/Analysis/CostModel.cpp:304-378 | For every associative and commutative operation lane 0 of an accepted tree is the fold of all lanes of the innermost vector, and is defined if they are |
| CostModel.SplitTreeAccepted | llvm/lib/Analysis/CostModel.cpp:304-378 | For every power of two there are trees that are accepted, with the shuffle as either operand, over every vector of that width |
| CostModel.FourLanesSplitting | llvm/lib/Analysis/CostModel.cpp:304-378 | For four lanes: accepted with exactly the masks (2, 3, undef, undef) and then (1, undef, undef, undef) |
| CostModel.PairwiseReduces | llvm/lib/Analysis/CostModel.cpp:137-288 | Lane 0 of an accepted pairwise tree is the fold of as many lanes of the innermost vector as the root is wide, if it has that many |
| CostModel.PairwiseReducesIff | llvm/lib/Analysis/CostModel.cpp:137-288 | If no lane of the innermost vector is undefined, lane 0 is the fold of all its lanes for every such operation if and only if it is as wide as the root |
| CostModel.PairTreeAccepted | llvm/lib/Analysis/CostModel.cpp:137-288 | For every power of two there are pairwise trees that are accepted, with the shuffles in either order, over every vector of that width |
| CostModel.HalfShuffledAccepted | llvm/lib/Analysis/CostModel.cpp:160-239 | So is a tree whose last operation uses one operand as it is |
| CostModel.FourLanesPairwise | llvm/lib/Analysis/CostModel.cpp:137-288 | For four lanes: accepted with exactly the masks (0, 2, undef, undef) and (1, 3, undef, undef) and then (0, undef, undef, undef) and (1, undef, undef, undef), each pair either way round |
| CostModel.WiderInnermost | llvm/lib/Analysis/CostModel.cpp:137-239 | An accepted tree over a wider vector that adds two of four lanes |
| CostModel.NarrowerInnermost | llvm/lib/Analysis/CostModel.cpp:137-239 | An accepted tree over a narrower vector whose lane 0 is undefined |

## Findings

Where the code does not do what its documentation or its callers expect, the code is modelled as it is; a
lemma gives the input and a theorem the exact condition.

- **Parents missed by removeIntraSCCEdge** (llvm/lib/Analysis/LazyCallGraph.cpp:456-529). New components are
  not given the outside callers of their members as parents. Input: a calls x, x and y call each other, and
  the edge from x to y is removed; x is left alone and a is not among its parents
  (`SccSplit.CallerCanBeMissed`). Parent links are exact afterwards if and only if every member that is
  called from outside still reaches the callee (`RemoveIntraSCCEdge`, `SccSplit.CallersKept`).
- **Wrong leaves after removeInterSCCEdge** (llvm/lib/Analysis/LazyCallGraph.cpp:339-374). The scan stops at
  the first remaining call to the callee's component. Input: a calls x and y, which form a component; removing
  the call to x lists a as a leaf although it calls y (`SccUpdates.ScanListsCaller`). The leaf list stays exact
  if and only if the first call that still leaves the component does not go to the callee's component
  (`RemoveInterSCCEdge`, `SccUpdates.ScanStopsEarly`).
- **Answers that depend on the order of queries** (llvm/lib/Analysis/LazyValueInfo.cpp:489-556). A pair whose
  first visit has to wait is marked overdefined and stays so: the second visit reuses the mark. Input: a
  function of four blocks where a value is 5 on one branch; the block after the branch target yields nothing
  unless the target is asked first (`LazyValueInfo.OrderMatters`). A query yields what the block's rule gives
  exactly if nothing it needs is missing (`GetValueInBlock`, `LazyValueInfo.HasToWait`).
- **Incomplete index of overdefined pairs** (llvm/lib/Analysis/LazyValueInfo.cpp:340-360). A pair that had to
  wait is never indexed, so threadEdge does not drop it. Input: the query that waits in
  `LazyValueInfo.OrderMatters`. After a query the index is complete if and only if it was before and the query
  found everything it needs in the cache (`GetValueInBlock`, `GetValueOnEdge`, `LazyValueInfo.HasToWait`).
- **A cache that does not survive threading** (llvm/lib/Analysis/LazyValueInfo.cpp:942-1000). threadEdge
  keeps every entry that is not overdefined. Inputs: an argument that the passed block loads from is still
  said not to be null behind it (`ThreadingInputs.LoadForgotten`); the phi of a loop header that is passed by
  on the back edge (`ThreadingInputs.LoopValueStale`). Every entry in scope stays right if nothing that the
  block dereferences can be null when control comes from the edge, and the block does not dominate the start
  of that edge or defines nothing (`ThreadedRuns.SurvivesThreading`); where the new successor has no other
  predecessor the first condition is exact (`ThreadedRuns.SurvivesIff`).
- **Offsets below extensions** (llvm/lib/Analysis/BasicAliasAnalysis.cpp:249-267). Offsets and scales found
  below a sign or zero extension are zero-extended, as if the narrow operations could not wrap around. Input:
  p + sext(x - 1) and p + sext(x) in eight bits are taken to be 255 apart, so accesses of four bytes that
  overlap are said not to alias (`GepExtensions.ExtensionNoAliasWrong`). Looking through an extension is right
  for every value of the variable if and only if the operations below it come to nothing, or to a constant
  without a sign (`GepExtensions.ExtensionExactIff`).
- **Identical offsets from different bases** (llvm/lib/Analysis/BasicAliasAnalysis.cpp:877-917). The rule
  compares variables by name, not by iteration. Input: bases 0 and 4, the same index that is 4 in one
  iteration and 0 in another (`BasicAliasAnalysis.SameOffsetsCanMeet`). It is right if and only if
  isValueEqualInPotentialCycles holds for every variable (`BasicAliasAnalysis.SameOffsetsIff`).
- **Widths in pairwise reductions** (llvm/lib/Analysis/CostModel.cpp:137-239). The matcher does not compare
  the width of the innermost vector with that of the root. Inputs: `CostModel.WiderInnermost`, two of four
  lanes are added; `CostModel.NarrowerInnermost`, lane 0 is undefined. Over a vector without undefined lanes the
  tree is a reduction if and only if the widths agree (`CostModel.PairwiseReducesIff`).
- **Vectors whose numbers of elements do not divide** (llvm/lib/Analysis/ConstantFolding.cpp:166-218). The
  ratio is rounded down, so elements are dropped or missing. Input: three integers of 16 bits as two of 24
  (`BitCasts.ThirdIsLost`). The fold is right for every vector if and only if one number divides the other
  (`BitCasts.FoldRightIff`).
- **Totals that leave 32 bits** (llvm/lib/Analysis/BlockFrequencyInfoImpl.cpp:196-242). With two targets of
  2^64 - 1 each the shifted total is 2^32. For n targets the total is sure to fit if and only if the sum is
  below 2^65 - (n-1)·2^33 + (n-2) (`WeightScaling.LimitIsExact`).
- **Cyclic dependencies** (llvm/include/llvm/PassSupport.h:36-83). A thread whose pass depends on itself through
  others waits for its own flag (`PassSupport.CycleNeverFinishes`). Threads can get stuck if and only if some
  pass depends on itself (`PassSupport.AcyclicIff`).

## Left out

- Lazy construction of call-graph nodes: which callees a function body has is the model's input (`Callees`).
- Nodes and components as objects: they are numbers, and their fields are maps from those numbers; aliasing of pointers is not modelled.
- insertIncomingEdge, updateGraphPtrs and moving a graph: the first walks from the wrong component for its comment, the others add no property.
- Wrap-around of the walk's numbers after 2^31 nodes.
- BrainF.BrainF.Parse: programs of 2^31 or more characters, where run totals would wrap around, and negative tape sizes.
- The main program around the compiler, its options, and what a target makes of the emitted code.
- LazyValueSolve.TransferBounds: what a compare-and-select or a metadata range says is not used, and values that undef could make differ are not modelled.
- LazyValueInfo.LazyValueInfoCache.ThreadEdge: the function is fixed while entries are dropped; what is left is related to the redirected function in ThreadedRuns.
- ThreadedRuns.SurvivesThreading: one direction where the passed block dominates the start of the edge and defines values, or where the new successor has other predecessors or dereferences something, because the loss can then be made up for by any of these.
- LazyValueThreading.KnownDecides: one of the ways in which control is sent on; comparisons and switches that are decided on the edge are covered by `Decided`.
- Null pointers inferred from dereferences are facts of the model's input (`nonNull`).
- GepLinear.LinearIsExact: pointers narrower than 64 bits.
- GepExtensions.ExtensionExactIff: one extension over an opaque variable without known bits; nested extensions and subscripts narrower than a pointer have the sufficient condition only.
- BasicAliasAnalysis.AddressExact: pointers narrower than 64 bits, and subscripts that are not exact.
- BasicAliasAnalysis.DecomposeGEPExpression: chains without data layout.
- BasicAliasAnalysis.AliasGEP: the answers about the bases are inputs.
- BitCasts.FoldBitCast: elements that are not a whole number of bytes.
- Chains without data layout, type-based alias information, aliasSelect, aliasPHI and the alias cache, and the rules about escaping and function-local objects: their answers are inputs (`baseAlias`, `precise`).
- GepAnswers.NoAliasExact: one object and opaque variables without masked bits; AliasGepSound holds for all. Where a size is unknown the code may answer PartialAlias although the accesses cannot meet.
- LazyValueBest.LocalExact: exact where the unions and differences of ranges that are formed are; LocalBounds holds without that.
- BasicAliasAnalysis.SameOffsetsIff: the exact condition is stated for opaque variables without masked bits; SameOffsetsSound holds for all.
- CfgReachability.IsPotentiallyReachable: the entry block has no predecessors, as the IR demands.
- getNumSuccessors, critical edges and printing of control-flow graphs.
- Floating-point constants, constant expressions other than inttoptr, library calls and comparisons in constant folding.
- ConstantFolding.ReadDataFromGlobal: structures without fields and elements of size zero.
- Memory order of the compare-and-swap: steps of threads are interleaved, each atomic.
- Distribution.CombineWeightsBySorting: works on values, not in place, and takes the sorted list as an argument.
- Loop packaging, irreducible loops, scaling of frequencies and their printing.
- Masks written out of bounds when a shuffle is narrower than its level needs: such a tree is rejected.
- Costs of instructions, pass registration lists, C bindings and the remaining examples.
