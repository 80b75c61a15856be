# CPAchecker refinement and ARG helpers in Dafny

This project models a set of helpers from CPAchecker, a configurable software model checker built on
counterexample-guided abstraction refinement (CEGAR). The model covers the bookkeeping around the abstract
reachability graph (ARG) and refinement, not the reachability loop itself:

- **Infeasible-prefix extraction.** `GenericPrefixProvider` walks an error path with a strongest-post operator.
  `PredicateBasedPrefixProvider` does the same over block formulas on an interpolating prover stack
  (modules `GenericPrefixes` and `PredicatePrefixes`).
- **Refinement bookkeeping.** `ApronDelegatingRefiner` is a small state machine. It has two repetition
  detectors, two counters and a sticky Apron-refinement flag (`ApronRefinement`).
- **Thread and lock state.** `ThreadingState` is a copy-on-write pair of maps. `ThreadingTransferRelation`
  applies the exit, lock, unlock, join, atomic-section, local-access-lock and thread-creation rules to it
  (`Threading`, `ThreadingTransfer`).
- **ARG surgery.**
  - `BAMARGUtils.copyARG` is a worklist copy of an ARG, and `gatherReachedSets` is a worklist over block
    reached sets (`BamArgs`).
  - `PolicyAbstractedState.getLatestVersion` chases version pointers, with cycle detection and path
    compression (`PolicyIteration`).
- **Witness graphs.**
  - In `ARGPathExporter`: the edge multimaps, node merging, sink pruning, the redundant-edge loop, label
    summarization and the label and edge orders (`WitnessGraphs`).
  - `GraphBuilder`: the ARG_PATH id scheme and MultiEdge expansion (`GraphBuilders`), and the PROOF graph
    search (`ProofGraphs`).
- **Name and type resolution.** `CProgramScope` covers lookup precedence, qualified-name rewriting, the
  "store only if unique" tables and structural type equality (`ProgramScopes`).
- **Small constructors and translations.**
  - The `Or` smart constructor (`ExpressionTrees`).
  - The `IntegerFormulaCreator` translation of constraints into a formula syntax tree (`IntegerFormulas`).
  - Location-bound invariants with their false-invariant pruning (`LocationInvariants`).

Each source file becomes one module. `Wrappers`, `Strings` and `Sets` hold shared helpers: Option and Result,
decimal numerals, and set cardinality facts.

The model takes the source's own form:
- Code that works by iterating becomes methods with loops, proved against specification functions:
  the prefix walks, the ARG copy, the worklists, the BFS of the PROOF graph, `getThreadNums`, the
  successor-building loops and the chain loop of `getLatestVersion`.
- Objects whose fields change become classes: the refiner, the prefix provider, the invariant, the version
  store, and the witness writer with its two multimaps.
- Persistent values and pure case analyses stay functions.

Solvers, strongest-post operators, interpolators, wrapped CPAs and CFA lookups are function-valued parameters.

Where documentation and code disagree, the model follows the code. The doc comment of
`GenericPrefixProvider.extractInfeasiblePrefixes` says a feasible path is returned as its own prefix.
The code returns no prefix for it, and so does the model (`GenericPrefixes.NoFailureNoPrefix`).

## Model

| member | source | states |
|---|---|---|
| ExpressionTrees.NewOr | src/org/sosy_lab/cpachecker/util/expressions/Or.java:37-42 | the constructor succeeds exactly for two or more operands; the node iterates exactly over them, in order |
| ExpressionTrees.Iterate | src/org/sosy_lab/cpachecker/util/expressions/Or.java:44-47 | an Or node built from the iterated operands is the node itself; a well-formed node yields at least two well-formed operands |
| ExpressionTrees.Of | src/org/sosy_lab/cpachecker/util/expressions/Or.java:75-83 | fails exactly on no operands; one operand is returned itself, unwrapped; more become an Or node over them in the given order |
| ExpressionTrees.Wrap32 | src/org/sosy_lab/cpachecker/util/expressions/Or.java:54-57 | Java int arithmetic: the value lies in the 32-bit signed range and is congruent to the exact value modulo 2^32 |
| ExpressionTrees.ListHash | src/org/sosy_lab/cpachecker/util/expressions/Or.java:54-57 | `List.hashCode` is 1 for the empty list and always a Java int |
| ExpressionTrees.HashCode | src/org/sosy_lab/cpachecker/util/expressions/Or.java:54-57 | the hash of an Or node, its operand list's hash, is a Java int, and an empty list would hash to 1 |
| ExpressionTrees.OfWellFormed | src/org/sosy_lab/cpachecker/util/expressions/Or.java:75-83 | `of` over well-formed trees yields a well-formed tree: every Or node has at least two operands |
| ExpressionTrees.OrEquals | src/org/sosy_lab/cpachecker/util/expressions/Or.java:59-68 | `equals` on an Or node holds exactly when the two trees are equal values |
| ExpressionTrees.OrEqualsOrderSensitive | src/org/sosy_lab/cpachecker/util/expressions/Or.java:59-68 | equality is order-sensitive: Or[x, y] differs from Or[y, x] when x differs from y |
| LocationInvariants.StatesAt | src/org/sosy_lab/cpachecker/core/algorithm/bmc/LocationFormulaInvariant.java:116 | the location filter keeps exactly the states whose location is the given one |
| LocationInvariants.IsFalseMeaning | src/org/sosy_lab/cpachecker/core/algorithm/bmc/LocationFormulaInvariant.java:107 | `isFalse`: only the literal constant false is recognised as false; no other formula is |
| LocationInvariants.LocationFormulaInvariant.Single | src/org/sosy_lab/cpachecker/core/algorithm/bmc/LocationFormulaInvariant.java:52-55 | the invariant holds the singleton location set, and its false-flag starts unset |
| LocationInvariants.LocationFormulaInvariant.OfSet | src/org/sosy_lab/cpachecker/core/algorithm/bmc/LocationFormulaInvariant.java:57-60 | the invariant holds exactly the given location set, and its false-flag starts unset |
| LocationInvariants.LocationFormulaInvariant.GetFormula | src/org/sosy_lab/cpachecker/core/algorithm/bmc/LocationFormulaInvariant.java:85-111 | a boolean invariant yields the constant and leaves the flag alone; a location invariant yields its formula unchanged and sets the flag iff the formula is literally false, never resetting it |
| LocationInvariants.LocationFormulaInvariant.AssumeTruth | src/org/sosy_lab/cpachecker/core/algorithm/bmc/LocationFormulaInvariant.java:75-122 | by default, or while the flag is unset, nothing changes; once set, exactly the states at the location leave the reached set and the ARG |
| LocationInvariants.MakeBooleanInvariant | src/org/sosy_lab/cpachecker/core/algorithm/bmc/LocationFormulaInvariant.java:85-94 | a fresh invariant at the single location whose formula is the given constant |
| LocationInvariants.MakeLocationInvariant | src/org/sosy_lab/cpachecker/core/algorithm/bmc/LocationFormulaInvariant.java:96-103 | a fresh invariant at the single location carrying the given formula, flag unset |
| LocationInvariants.PruningIsExact | src/org/sosy_lab/cpachecker/core/algorithm/bmc/LocationFormulaInvariant.java:113-121 | a state survives the pruning iff its location differs from the pruned one |
| ApronRefinement.PrecisionGrows | src/org/sosy_lab/cpachecker/cpa/apron/refiner/ApronDelegatingRefiner.java:318-319 | adding an increment enlarges the precision iff the increment is not already contained in it |
| ApronRefinement.ValueRefinementRoot | src/org/sosy_lab/cpachecker/cpa/apron/refiner/ApronDelegatingRefiner.java:243-253 | the value refinement prunes at the interpolator's usual root, or at its alternative only when the repeated-refinement check is on and fires |
| ApronRefinement.ApronDelegatingRefiner.constructor | src/org/sosy_lab/cpachecker/cpa/apron/refiner/ApronDelegatingRefiner.java:101-129 | the stored error-path hash starts at -1, the refinement id at 0, both counters at 0, the Apron flag unset and nothing pruned |
| ApronRefinement.ApronDelegatingRefiner.IsRepeatedRefinement | src/org/sosy_lab/cpachecker/cpa/apron/refiner/ApronDelegatingRefiner.java:296-302 | true iff the stored id equals the root's successor number, and afterwards that number is stored |
| ApronRefinement.ApronDelegatingRefiner.ValueAnalysisRefinementWasSuccessful | src/org/sosy_lab/cpachecker/cpa/apron/refiner/ApronDelegatingRefiner.java:315-324 | success iff the path hash differs from the stored one or the refined precision is strictly larger, and afterwards the hash is stored |
| ApronRefinement.ApronDelegatingRefiner.PerformValueAnalysisRefinement | src/org/sosy_lab/cpachecker/cpa/apron/refiner/ApronDelegatingRefiner.java:231-267 | counts one refinement; an empty increment fails with nothing pruned and no id stored; the root is the repeated-refinement root only when the check is on and fires; on success exactly one subtree is pruned with the refined precision and the success count grows, so it never exceeds the total count |
| ApronRefinement.ApronDelegatingRefiner.PerformApronAnalysisRefinement | src/org/sosy_lab/cpachecker/cpa/apron/refiner/ApronDelegatingRefiner.java:269-287 | prunes at the first child of the first state with the Apron-refined precision and returns true; without a first child it fails with NoSuchElement |
| ApronRefinement.ApronDelegatingRefiner.PerformRefinement | src/org/sosy_lab/cpachecker/cpa/apron/refiner/ApronDelegatingRefiner.java:190-220 | while the Apron flag is clear and the value analysis finds the path infeasible, a successful value refinement (a non-empty increment, on a new path or not already in the precision) means Spurious, the subtree below `ValueRefinementRoot` pruned with the precision plus the increment, and the success count up by one; otherwise a feasible Apron path means Feasible with nothing pruned, an infeasible one without a first child is an error, and one with a child means Spurious, the flag set and that child pruned with the Apron increment; the flag is sticky; the stored error-path hash and refinement id change exactly when the value refinement runs with a non-empty increment (the id only with the repeated-refinement check on), and otherwise keep their values |
| PolicyIteration.Of | src/org/sosy_lab/cpachecker/cpa/policyiteration/PolicyAbstractedState.java:122-136 | the factory keeps the abstraction, node and location id, and records the predecessor |
| PolicyIteration.ReplaceAbstraction | src/org/sosy_lab/cpachecker/cpa/policyiteration/PolicyAbstractedState.java:141-146 | only the abstraction map changes; node, congruence, location id, SSA map, pointer-target set, invariant and predecessor are kept |
| PolicyIteration.GetBound | src/org/sosy_lab/cpachecker/cpa/policyiteration/PolicyAbstractedState.java:168-170 | the bound is absent iff the template has no entry, and is that entry otherwise |
| PolicyIteration.Empty | src/org/sosy_lab/cpachecker/cpa/policyiteration/PolicyAbstractedState.java:175-189 | the empty state has no abstraction entries, location id -1 and no predecessor |
| PolicyIteration.Size | src/org/sosy_lab/cpachecker/cpa/policyiteration/PolicyAbstractedState.java:191-193 | the size is the number of templates with a bound |
| PolicyIteration.ReplacedBounds | src/org/sosy_lab/cpachecker/cpa/policyiteration/PolicyAbstractedState.java:141-170 | after replacing the abstraction, bounds and size are those of the new map |
| PolicyIteration.Chase | src/org/sosy_lab/cpachecker/cpa/policyiteration/PolicyAbstractedState.java:105-113 | when the chase through the version map ends, it ends at a state that is its own latest version |
| PolicyIteration.ChaseSpec | src/org/sosy_lab/cpachecker/cpa/policyiteration/PolicyAbstractedState.java:105-118 | the states visited on the chain all point further along the chain, and the result is not among them; a failure means the chain ran into a visited state |
| PolicyIteration.CycleFails | src/org/sosy_lab/cpachecker/cpa/policyiteration/PolicyAbstractedState.java:109-113 | a chain that enters a cycle of states pointing to one another fails instead of looping |
| PolicyIteration.CompressedChase | src/org/sosy_lab/cpachecker/cpa/policyiteration/PolicyAbstractedState.java:116-118 | after path compression, chasing from the start state yields the same result in one step |
| PolicyIteration.VersionStore.Add | src/org/sosy_lab/cpachecker/cpa/policyiteration/PolicyAbstractedState.java:56 | a new state is stored as its own latest version |
| PolicyIteration.VersionStore.GetLatestVersion | src/org/sosy_lab/cpachecker/cpa/policyiteration/PolicyAbstractedState.java:98-120 | with the option off, returns the state itself and changes nothing; otherwise returns the chased result and, on success, points every visited state directly at it |
| PolicyIteration.VersionStore.PointAll | src/org/sosy_lab/cpachecker/cpa/policyiteration/PolicyAbstractedState.java:116-118 | exactly the given states now point at the target; all others are unchanged |
| PolicyIteration.VersionStore.SetLatestVersion | src/org/sosy_lab/cpachecker/cpa/policyiteration/PolicyAbstractedState.java:90-92 | stores the latest version of the given state, not the state itself; every other pointer is that of `getLatestVersion`: the states on the chase point at the result, and all others are unchanged |
| Threading.Initial | src/org/sosy_lab/cpachecker/cpa/threading/ThreadingState.java:57-60 | the initial state has no threads and no locks |
| Threading.AddThreadAndCopy | src/org/sosy_lab/cpachecker/cpa/threading/ThreadingState.java:69-75 | for a fresh id, the threads become the old ones plus the new one with the given location, callstack and number; locks are unchanged |
| Threading.UpdateThreadAndCopy | src/org/sosy_lab/cpachecker/cpa/threading/ThreadingState.java:77-83 | for an existing id, the id set is unchanged, that thread keeps its number and takes the new location and callstack, and other threads and locks are unchanged |
| Threading.RemoveThreadAndCopy | src/org/sosy_lab/cpachecker/cpa/threading/ThreadingState.java:85-91 | for an existing id, only that thread goes; other threads and locks are unchanged |
| Threading.AddLockAndCopy | src/org/sosy_lab/cpachecker/cpa/threading/ThreadingState.java:124-129 | afterwards the thread holds the lock; threads and other locks are unchanged |
| Threading.RemoveLockAndCopy | src/org/sosy_lab/cpachecker/cpa/threading/ThreadingState.java:131-136 | afterwards nobody holds the lock, whoever held it before; threads and other locks are unchanged |
| Threading.StateEquals | src/org/sosy_lab/cpachecker/cpa/threading/ThreadingState.java:162-170 | `equals` holds exactly when the two states are equal values |
| Threading.HasLock | src/org/sosy_lab/cpachecker/cpa/threading/ThreadingState.java:138-141 | the lock is held iff some thread holds it |
| Threading.HasLockOf | src/org/sosy_lab/cpachecker/cpa/threading/ThreadingState.java:143-146 | a thread holding the lock means the lock is held and the thread is among the lock owners |
| Threading.HasLockForThread | src/org/sosy_lab/cpachecker/cpa/threading/ThreadingState.java:148-151 | the thread holds a lock iff it holds some particular lock |
| Threading.HasLockOfImplies | src/org/sosy_lab/cpachecker/cpa/threading/ThreadingState.java:139-151 | a thread holding a lock implies the lock is held and the thread holds some lock |
| Threading.GetThreadNums | src/org/sosy_lab/cpachecker/cpa/threading/ThreadingState.java:105-112 | the loop collects exactly the thread numbers, one per thread, given that they are distinct |
| Threading.LeastMissingFromIsLeast | src/org/sosy_lab/cpachecker/cpa/threading/ThreadingState.java:114-122 | counting up from a number below which every number is used ends at an unused number that is the least one |
| Threading.LeastMissingIsLeast | src/org/sosy_lab/cpachecker/cpa/threading/ThreadingState.java:114-122 | the computed number is unused and every smaller thread number is used |
| Threading.GetSmallestMissingThreadNum | src/org/sosy_lab/cpachecker/cpa/threading/ThreadingState.java:114-122 | the loop returns the least thread number not used by any thread |
| Threading.AddThreadKeepsNumsDistinct | src/org/sosy_lab/cpachecker/cpa/threading/ThreadingState.java:69-75 | adding a thread with an unused number keeps thread numbers pairwise distinct |
| Threading.UpdateKeepsNumsDistinct | src/org/sosy_lab/cpachecker/cpa/threading/ThreadingState.java:77-83 | updating a thread keeps thread numbers pairwise distinct |
| Threading.RemoveKeepsNumsDistinct | src/org/sosy_lab/cpachecker/cpa/threading/ThreadingState.java:85-91 | removing a thread keeps thread numbers pairwise distinct |
| ThreadingTransfer.BeginIsNotEnd | src/org/sosy_lab/cpachecker/cpa/threading/ThreadingTransferRelation.java:218-238 | a name with the atomic-begin prefix does not have the atomic-end prefix |
| ThreadingTransfer.AtomicPrefixes | src/org/sosy_lab/cpachecker/cpa/threading/ThreadingTransferRelation.java:218-238 | the begin and end prefixes both extend the atomic prefix |
| ThreadingTransfer.AtomicSections | src/org/sosy_lab/cpachecker/cpa/threading/ThreadingTransferRelation.java:212-241 | calls into begin functions, or into other atomic functions except end functions, take the atomic lock; returns from end functions, or from other atomic functions except begin functions, release it; non-atomic functions do neither |
| ThreadingTransfer.ExitThread | src/org/sosy_lab/cpachecker/cpa/threading/ThreadingTransferRelation.java:304-312 | only the exiting thread goes, and with local-access locks enabled the local-access lock goes with it |
| ThreadingTransfer.IsLastNodeOfThread | src/org/sosy_lab/cpachecker/cpa/threading/ThreadingTransferRelation.java:276-280 | a node is a thread's last iff no edge leaves it |
| ThreadingTransfer.AfterExits | src/org/sosy_lab/cpachecker/cpa/threading/ThreadingTransferRelation.java:292-301 | keeps exactly the threads not at a node without leaving edges, unchanged, and keeps their numbers distinct |
| ThreadingTransfer.ExitThreads | src/org/sosy_lab/cpachecker/cpa/threading/ThreadingTransferRelation.java:292-301 | the state is that of `AfterExits`: exactly the threads at a node without leaving edges are removed, the others unchanged; the local-access lock is dropped iff some thread exited and the option is on |
| ThreadingTransfer.ExitThreadsKeepNumsDistinct | src/org/sosy_lab/cpachecker/cpa/threading/ThreadingTransferRelation.java:292-312 | removing threads keeps thread numbers pairwise distinct |
| ThreadingTransfer.ActiveThreads | src/org/sosy_lab/cpachecker/cpa/threading/ThreadingTransferRelation.java:164-170 | exactly the existing threads at whose location the edge leaves |
| ThreadingTransfer.GetActiveThread | src/org/sosy_lab/cpachecker/cpa/threading/ThreadingTransferRelation.java:164-177 | succeeds iff exactly one thread can take the edge, and then names that thread |
| ThreadingTransfer.SameThreadNumsDistinct | src/org/sosy_lab/cpachecker/cpa/threading/ThreadingTransferRelation.java:252-274 | successors that keep every thread's number keep the numbers pairwise distinct |
| ThreadingTransfer.MovesSpec | src/org/sosy_lab/cpachecker/cpa/threading/ThreadingTransferRelation.java:267-271 | the inner loop's states are exactly the active thread moved to the location with each of the new callstacks |
| ThreadingTransfer.AllMovesSpec | src/org/sosy_lab/cpachecker/cpa/threading/ThreadingTransferRelation.java:252-274 | the wrapped successors are exactly the active thread moved to each pair of new location and new callstack |
| ThreadingTransfer.MovesSameThreadNums | src/org/sosy_lab/cpachecker/cpa/threading/ThreadingTransferRelation.java:267-271 | moving the active thread keeps every thread and its number |
| ThreadingTransfer.AllMovesSameThreadNums | src/org/sosy_lab/cpachecker/cpa/threading/ThreadingTransferRelation.java:252-274 | every wrapped successor keeps every thread and its number |
| ThreadingTransfer.MovesTo | src/org/sosy_lab/cpachecker/cpa/threading/ThreadingTransferRelation.java:268-270 | the inner loop builds exactly the moves of the active thread for one location |
| ThreadingTransfer.WrappedSuccessors | src/org/sosy_lab/cpachecker/cpa/threading/ThreadingTransferRelation.java:252-274 | the nested loops build exactly the wrapped successors |
| ThreadingTransfer.AddLock | src/org/sosy_lab/cpachecker/cpa/threading/ThreadingTransferRelation.java:384-398 | a lock held by any thread, the acquirer included, yields no successors; otherwise each successor, in order, gets the lock for the active thread |
| ThreadingTransfer.RemoveLock | src/org/sosy_lab/cpachecker/cpa/threading/ThreadingTransferRelation.java:422-433 | every successor, in order, loses the lock |
| ThreadingTransfer.LockIdOf | src/org/sosy_lab/cpachecker/cpa/threading/ThreadingTransferRelation.java:363-382 | the lock id is the operand of a unary first argument, and any other argument shape is an error |
| ThreadingTransfer.AddLockStatement | src/org/sosy_lab/cpachecker/cpa/threading/ThreadingTransferRelation.java:363-382 | the lock statement succeeds iff the lock id can be read, and then behaves as `addLock` |
| ThreadingTransfer.RemoveLockStatement | src/org/sosy_lab/cpachecker/cpa/threading/ThreadingTransferRelation.java:400-420 | the unlock statement succeeds iff the lock id can be read, and then removes the lock from every successor |
| ThreadingTransfer.JoinThread | src/org/sosy_lab/cpachecker/cpa/threading/ThreadingTransferRelation.java:435-453 | joining a thread that is still present yields no successors; otherwise they pass unchanged; a non-identifier argument is an error |
| ThreadingTransfer.HandleLocalAccessLock | src/org/sosy_lab/cpachecker/cpa/threading/ThreadingTransferRelation.java:458-477 | the lock held by another thread blocks; otherwise it is removed on edges touching globals or thread functions and added on all other edges, successor by successor; threads are unchanged |
| ThreadingTransfer.IsImportantForThreading | src/org/sosy_lab/cpachecker/cpa/threading/ThreadingTransferRelation.java:479-498 | only statement, call and return edges matter: a statement edge only when it is a function call, a call edge iff it enters an atomic-begin function, a return edge iff it leaves an atomic-end function |
| ThreadingTransfer.ThreadCreateArguments | src/org/sosy_lab/cpachecker/cpa/threading/ThreadingTransferRelation.java:319-333 | reads the thread id and function name from the first and third arguments, and any other shape is an error |
| ThreadingTransfer.AddThreadWhereAllowedShape | src/org/sosy_lab/cpachecker/cpa/threading/ThreadingTransferRelation.java:352-359 | the new thread appears in every kept successor with its location, callstack and number; with no limit (-1) no successor is dropped |
| ThreadingTransfer.AddThreadToSuccessorDistinct | src/org/sosy_lab/cpachecker/cpa/threading/ThreadingTransferRelation.java:352-359 | adding the new thread with an unused number to a successor keeps the numbers distinct |
| ThreadingTransfer.AddThreadWhereAllowedDistinct | src/org/sosy_lab/cpachecker/cpa/threading/ThreadingTransferRelation.java:352-359 | all successors with the new thread keep distinct thread numbers |
| ThreadingTransfer.NewThreadSuccessors | src/org/sosy_lab/cpachecker/cpa/threading/ThreadingTransferRelation.java:314-361 | succeeds exactly for a well-formed call with a new thread id and an existing (possibly cloned) thread function; then every successor holds the new thread at that function's head with the least unused number, none is added beyond the given ones, none is dropped without a thread limit, and thread numbers stay distinct |
| ThreadingTransfer.StartNewThread | src/org/sosy_lab/cpachecker/cpa/threading/ThreadingTransferRelation.java:314-361 | the result is that of `NewThreadSuccessors`; a malformed call or a duplicate thread id is an error; thread numbers stay distinct |
| ThreadingTransfer.GetAbstractSuccessorsForEdge0 | src/org/sosy_lab/cpachecker/cpa/threading/ThreadingTransferRelation.java:181-246 | the result is the threading operation of the edge on the given successors: thread creation, lock, unlock and join as their handlers, the atomic lock taken on calls into atomic functions and released on returns from them, other edges passing the successors unchanged; only a thread-related call can be an error; thread numbers stay distinct |
| ThreadingTransfer.GetAbstractSuccessorsForEdge | src/org/sosy_lab/cpachecker/cpa/threading/ThreadingTransferRelation.java:119-155 | a MultiEdge is rejected; after the exits, no thread or several threads that can take the edge is an error; with exactly one, the result is that of `SuccessorsFor` for it; a successor exists only if a live thread that can take the edge is not blocked by another thread's atomic lock; thread numbers stay distinct |
| ThreadingTransfer.SuccessorsFor | src/org/sosy_lab/cpachecker/cpa/threading/ThreadingTransferRelation.java:125-154 | another thread's atomic section or the end of the program yields no successors; otherwise the wrapped successors of the active thread, through the local-access lock when it is on, then the threading operation of the edge |
| GenericPrefixes.GetSuccessor | src/org/sosy_lab/cpachecker/util/refinement/GenericPrefixProvider.java:186-202 | call edges always go through the call handler; return edges go through the return handler only with a non-empty callstack; other edges take the strongest post directly |
| GenericPrefixes.Failures | src/org/sosy_lab/cpachecker/util/refinement/GenericPrefixProvider.java:131-178 | the walk marks one success or failure per remaining edge, continuing from the pre-state after a failure and abstracting after every edge |
| GenericPrefixes.RebuiltEdges | src/org/sosy_lab/cpachecker/util/refinement/GenericPrefixProvider.java:139-165 | the rebuilt prefix holds each edge, or a no-op between the same nodes where it failed |
| GenericPrefixes.OriginalEdges | src/org/sosy_lab/cpachecker/util/refinement/GenericPrefixProvider.java:166-170 | the path's edges unchanged, in order |
| GenericPrefixes.PrefixCount | src/org/sosy_lab/cpachecker/util/refinement/GenericPrefixProvider.java:141-149 | there are as many prefixes as failing edges, never more than edges; there is no cap |
| GenericPrefixes.PrefixAtShape | src/org/sosy_lab/cpachecker/util/refinement/GenericPrefixProvider.java:139-163 | a prefix closed at edge k ends at the state after it, keeps edge k itself and replaces exactly the earlier failing edges by no-ops between the same nodes |
| GenericPrefixes.PrefixesAtFailures | src/org/sosy_lab/cpachecker/util/refinement/GenericPrefixProvider.java:136-149 | every prefix is closed at a failing edge, and every failing edge closes one |
| GenericPrefixes.PrefixesInPathOrder | src/org/sosy_lab/cpachecker/util/refinement/GenericPrefixProvider.java:123-149 | prefixes come in path order and none is longer than the walked edges |
| GenericPrefixes.NoFailureNoPrefix | src/org/sosy_lab/cpachecker/util/refinement/GenericPrefixProvider.java:123-180 | a walk without failure yields no prefix, and the feasible prefix is then the whole path |
| GenericPrefixes.BuilderStep | src/org/sosy_lab/cpachecker/util/refinement/GenericPrefixProvider.java:136-170 | one loop step closes a prefix exactly when the edge failed, and sets the feasible prefix at the last edge |
| GenericPrefixes.GenericPrefixProvider.constructor | src/org/sosy_lab/cpachecker/util/refinement/GenericPrefixProvider.java:77-91 | keeps the post operators and the initial state, with no feasible prefix yet |
| GenericPrefixes.GenericPrefixProvider.ExtractInfeasiblePrefixesFrom | src/org/sosy_lab/cpachecker/util/refinement/GenericPrefixProvider.java:118-184 | the loop returns exactly the prefixes of the failing edges and stores the feasible prefix of the path |
| GenericPrefixes.GenericPrefixProvider.ExtractInfeasiblePrefixes | src/org/sosy_lab/cpachecker/util/refinement/GenericPrefixProvider.java:102-106 | the one-argument overload walks from the initial state |
| GenericPrefixes.GenericPrefixProvider.ExtractFeasiblePath | src/org/sosy_lab/cpachecker/util/refinement/GenericPrefixProvider.java:219-223 | returns the whole path if the last edge succeeded, else the rebuilt prefix without the last failing edge |
| PredicatePrefixes.AbstractionCount | src/org/sosy_lab/cpachecker/cpa/predicate/PredicateBasedPrefixProvider.java:125-133 | the block index at a position never exceeds that position |
| PredicatePrefixes.AbstractionCountGrows | src/org/sosy_lab/cpachecker/cpa/predicate/PredicateBasedPrefixProvider.java:125-172 | each abstraction state consumes one block index, so the index grows strictly past it |
| PredicatePrefixes.FormulaList | src/org/sosy_lab/cpachecker/cpa/predicate/PredicateBasedPrefixProvider.java:127-164 | the path-formula list holds each block formula, or "true" where the block failed |
| PredicatePrefixes.FormulaListFrame | src/org/sosy_lab/cpachecker/cpa/predicate/PredicateBasedPrefixProvider.java:155-164 | marking the newest block failed keeps every earlier list and replaces only the last element by "true" |
| PredicatePrefixes.ExtractInterpolantSequence | src/org/sosy_lab/cpachecker/cpa/predicate/PredicateBasedPrefixProvider.java:187-197 | for n terms, n-1 interpolants, the i-th computed from the first i terms |
| PredicatePrefixes.PushBlock | src/org/sosy_lab/cpachecker/cpa/predicate/PredicateBasedPrefixProvider.java:127-165 | a prefix is found iff the prover is asked and the stack is unsatisfiable; it carries the path formula taken before the replacement; the stacks keep their length and their last element becomes "true"; the prover stack grows by the block conjoined to the last path formula, replaced by "true" on a failure |
| PredicatePrefixes.ExtractInfeasiblePrefixes | src/org/sosy_lab/cpachecker/cpa/predicate/PredicateBasedPrefixProvider.java:94-185 | a prefix is reported at an abstraction state before the stop exactly when the prover is asked there and the stack of block formulas (with "true" for earlier failed blocks) is unsatisfiable; the walk stops after the maxPrefixCount-th prefix, after the first state for a cap of 0, and otherwise at the end; each prefix has one interpolant per earlier block, computed from that stack, and the block formulas or "true" up to its failing block |
| BamArgs.CopyNodeOf | src/org/sosy_lab/cpachecker/cpa/bam/BAMARGUtils.java:154-163 | a copy keeps the wrapped state and the node kind (which carries the analysed block), with no covering yet |
| BamArgs.GetOrCopy | src/org/sosy_lab/cpachecker/cpa/bam/BAMARGUtils.java:116-129 | a state without a copy gets one, and existing copies are never overwritten |
| BamArgs.CopyChild | src/org/sosy_lab/cpachecker/cpa/bam/BAMARGUtils.java:123-135 | one child: its link is added, and it is copied and pushed only when not yet visited |
| BamArgs.CopyChildren | src/org/sosy_lab/cpachecker/cpa/bam/BAMARGUtils.java:123-135 | every child link of the current state is reproduced between the copies |
| BamArgs.CopyCoveringState | src/org/sosy_lab/cpachecker/cpa/bam/BAMARGUtils.java:137-149 | the covering state is copied too, and pushed when not yet visited |
| BamArgs.SetCovered | src/org/sosy_lab/cpachecker/cpa/bam/BAMARGUtils.java:148 | the copy of a covered state is covered by the copy of its covering state; other copies are unchanged |
| BamArgs.CopyCovering | src/org/sosy_lab/cpachecker/cpa/bam/BAMARGUtils.java:137-149 | after the covering step the current state is processed and the loop invariant holds again |
| BamArgs.Pop | src/org/sosy_lab/cpachecker/cpa/bam/BAMARGUtils.java:113-114 | the top of the stack is taken and it has a copy |
| BamArgs.CopyFinished | src/org/sosy_lab/cpachecker/cpa/bam/BAMARGUtils.java:113-151 | with an empty stack the copies are faithful and closed under child and covering links |
| BamArgs.CopyArg | src/org/sosy_lab/cpachecker/cpa/bam/BAMARGUtils.java:104-152 | the result is the root's copy; each copy keeps its original's wrapped state, kind and covering; the parent links are exactly the original child links; each state is visited once, from the root, each found from an earlier one |
| BamArgs.ClosedHoldsReachable | src/org/sosy_lab/cpachecker/cpa/bam/BAMARGUtils.java:104-152 | every state reachable from the root by child or covering links has a copy |
| BamArgs.CompleteMono | src/org/sosy_lab/cpachecker/cpa/bam/BAMARGUtils.java:55-60 | an explored entry stays complete when more entries are gathered |
| BamArgs.Gather | src/org/sosy_lab/cpachecker/cpa/bam/BAMARGUtils.java:55-93 | each (block, reached set) pair is recorded once, and a repeat stops at once; every newly recorded entry is explored completely; the entries are recorded in a discovery order, in which every entry after the first is the reached set cached for a state with a summary edge that the search of an earlier entry reaches |
| BamArgs.GatherChildren | src/org/sosy_lab/cpachecker/cpa/bam/BAMARGUtils.java:79-91 | only children inside the current reached set are pushed, and the worklist invariant is kept |
| BamArgs.GatherReachedSets | src/org/sosy_lab/cpachecker/cpa/bam/BAMARGUtils.java:49-93 | the result holds the main entry, and every entry in it is explored completely with its summaries leading to entries of the result; conversely, in the order the entries were recorded, the first is the main entry and every later one is the reached set cached for a state with a summary edge that the search of an earlier entry reaches from its first state |
| BamArgs.SearchReachesChild | src/org/sosy_lab/cpachecker/cpa/bam/BAMARGUtils.java:79-89 | the search goes on from a state it reaches to each child inside the same reached set |
| BamArgs.OrderExtend | src/org/sosy_lab/cpachecker/cpa/bam/BAMARGUtils.java:56-60 | recording an entry summoned by the entries recorded so far keeps the discovery order, and adds exactly that entry |
| BamArgs.GatherOnlyMain | src/org/sosy_lab/cpachecker/cpa/bam/BAMARGUtils.java:49-93 | when the search of the final reached set meets no summary edge, the main entry is the only one gathered |
| BamArgs.ExplorationHoldsReachable | src/org/sosy_lab/cpachecker/cpa/bam/BAMARGUtils.java:64-92 | a complete exploration reaches every state found from the first state within the reached set, and records its summaries |
| GraphBuilders.ArgIdInjective | src/org/sosy_lab/cpachecker/cpa/arg/GraphBuilder.java:59-65 | ARG_PATH ids, "A" followed by the state id, are distinct for distinct states |
| GraphBuilders.ArgId | src/org/sosy_lab/cpachecker/cpa/arg/GraphBuilder.java:59-65 | an ARG_PATH id is "A" followed by at least one character, the digits of ArgIdDigits |
| GraphBuilders.ArgIdDigits | src/org/sosy_lab/cpachecker/cpa/arg/GraphBuilder.java:63-65 | after the "A", an ARG_PATH id holds decimal digits only |
| GraphBuilders.PseudoIdExtendsArgId | src/org/sosy_lab/cpachecker/cpa/arg/GraphBuilder.java:63-69 | `PseudoId`: a pseudo-state id is its state's ARG_PATH id followed by "_" and the numbers |
| GraphBuilders.PseudoIdIsNoArgId | src/org/sosy_lab/cpachecker/cpa/arg/GraphBuilder.java:63-69 | a pseudo-state id, with its "_i_n" suffix, is never a state id |
| GraphBuilders.PseudoIdInjective | src/org/sosy_lab/cpachecker/cpa/arg/GraphBuilder.java:63-69 | pseudo-state ids determine state, sub-edge number and MultiEdge number |
| GraphBuilders.ChainShape | src/org/sosy_lab/cpachecker/cpa/arg/GraphBuilder.java:102-112 | the chain loop appends one edge per sub-edge, each from the previous pseudo-state |
| GraphBuilders.ChildTraceShape | src/org/sosy_lab/cpachecker/cpa/arg/GraphBuilder.java:85-131 | a child over k sub-edges yields k edges chained through pseudo-states; inner edges carry no states and the last carries {s}; the last goes to the child iff it is a relevant path state, else to the sink |
| GraphBuilders.MultiTraceShape | src/org/sosy_lab/cpachecker/cpa/arg/GraphBuilder.java:91-131 | the same chain shape for a MultiEdge, edge i carrying sub-edge i |
| GraphBuilders.Pairs | src/org/sosy_lab/cpachecker/cpa/arg/GraphBuilder.java:80-85 | a parent's children become (parent, child) pairs in order |
| GraphBuilders.MultiCountMono | src/org/sosy_lab/cpachecker/cpa/arg/GraphBuilder.java:79-96 | the MultiEdge counter never decreases along the traversal |
| GraphBuilders.MultiCountGrows | src/org/sosy_lab/cpachecker/cpa/arg/GraphBuilder.java:96 | the counter increases once per MultiEdge |
| GraphBuilders.PseudoStatesDistinct | src/org/sosy_lab/cpachecker/cpa/arg/GraphBuilder.java:91-96 | pseudo-states of different MultiEdges have different ids |
| GraphBuilders.AppendChain | src/org/sosy_lab/cpachecker/cpa/arg/GraphBuilder.java:102-112 | the loop appends exactly the chain and ends at the last pseudo-state |
| GraphBuilders.AppendChild | src/org/sosy_lab/cpachecker/cpa/arg/GraphBuilder.java:85-131 | counts a MultiEdge once and appends exactly the child's trace |
| GraphBuilders.AppendChildren | src/org/sosy_lab/cpachecker/cpa/arg/GraphBuilder.java:85-131 | the inner loop appends the traces of all children in order |
| GraphBuilders.BuildArgPath | src/org/sosy_lab/cpachecker/cpa/arg/GraphBuilder.java:72-133 | the ARG_PATH builder appends exactly the traces of all (parent, child) pairs in order, the k-th MultiEdge numbered k |
| ProofGraphs.ProofId | src/org/sosy_lab/cpachecker/cpa/arg/GraphBuilder.java:143-145 | the PROOF id is empty iff there are no locations |
| ProofGraphs.NodeName | src/org/sosy_lab/cpachecker/cpa/arg/GraphBuilder.java:143-145 | a location's name is "N" followed by at least one character, the digits of NodeNameDigits |
| ProofGraphs.NodeNameDigits | src/org/sosy_lab/cpachecker/cpa/arg/GraphBuilder.java:143-145 | after the "N", a location's name holds decimal digits only |
| ProofGraphs.ProofIdCommas | src/org/sosy_lab/cpachecker/cpa/arg/GraphBuilder.java:143-145 | the id contains a comma iff there are at least two locations |
| ProofGraphs.ProofIdInjective | src/org/sosy_lab/cpachecker/cpa/arg/GraphBuilder.java:143-145 | different location lists give different ids |
| ProofGraphs.OnlyElement | src/org/sosy_lab/cpachecker/cpa/arg/GraphBuilder.java:157 | `getOnlyElement` succeeds iff there is exactly one element, and fails with NoSuchElement iff there is none |
| ProofGraphs.RelevantTargetsMeaning | src/org/sosy_lab/cpachecker/cpa/arg/GraphBuilder.java:164-174 | a target is collected iff it is a path state reached by a relevant edge |
| ProofGraphs.AddLocations | src/org/sosy_lab/cpachecker/cpa/arg/GraphBuilder.java:168-171 | each location of a target joins the sub-program and the location multimap |
| ProofGraphs.AddTargets | src/org/sosy_lab/cpachecker/cpa/arg/GraphBuilder.java:165-173 | the children of one parent are collected |
| ProofGraphs.CollectSubProgram | src/org/sosy_lab/cpachecker/cpa/arg/GraphBuilder.java:160-174 | the sub-program is the root location plus the locations of the relevant targets, and the multimap sends each location to exactly the targets at it |
| ProofGraphs.PartsTraceShape | src/org/sosy_lab/cpachecker/cpa/arg/GraphBuilder.java:213-228 | sub-edges are flattened in order, with only the last carrying states |
| ProofGraphs.EdgeTraceShape | src/org/sosy_lab/cpachecker/cpa/arg/GraphBuilder.java:207-229 | an edge is appended as its sub-edges between the node names, in order, with only the last carrying states |
| ProofGraphs.AppendEdge | src/org/sosy_lab/cpachecker/cpa/arg/GraphBuilder.java:207-229 | the loop appends exactly that trace |
| ProofGraphs.VisitEdge | src/org/sosy_lab/cpachecker/cpa/arg/GraphBuilder.java:182-203 | one leaving edge: its successor inside the sub-program is queued at most once, and the edge is appended |
| ProofGraphs.VisitNode | src/org/sosy_lab/cpachecker/cpa/arg/GraphBuilder.java:180-204 | all leaving edges of one node are appended and the search invariant is kept |
| ProofGraphs.SearchFromRoot | src/org/sosy_lab/cpachecker/cpa/arg/GraphBuilder.java:176-204 | the search visits each node once, from the root, within the sub-program, and appends the leaving edges of the visited nodes in visit order |
| ProofGraphs.BuildProof | src/org/sosy_lab/cpachecker/cpa/arg/GraphBuilder.java:147-205 | a root without exactly one location is an error, NoSuchElement when it has none; otherwise the graph is that search over the collected sub-program |
| ProofGraphs.ReachableExplored | src/org/sosy_lab/cpachecker/cpa/arg/GraphBuilder.java:176-204 | every node reachable from the root inside the sub-program is visited |
| ProofGraphs.ExploredReachable | src/org/sosy_lab/cpachecker/cpa/arg/GraphBuilder.java:176-204 | every visited node is reachable from the root inside the sub-program |
| WitnessGraphs.HasTransitionRestrictions | src/org/sosy_lab/cpachecker/cpa/arg/ARGPathExporter.java:1123-1125 | true iff the label has an entry |
| WitnessGraphs.SummarizesMeaning | src/org/sosy_lab/cpachecker/cpa/arg/ARGPathExporter.java:1137-1157 | `summarizes` is reflexive, and otherwise holds iff the labels agree on every key that is not ignored |
| WitnessGraphs.SummarizesIgnoresValues | src/org/sosy_lab/cpachecker/cpa/arg/ARGPathExporter.java:1137-1157 | the values of ASSUMPTION and INVARIANT do not matter, only whether the keys are present |
| WitnessGraphs.SummarizesIgnoresScopeWithoutAssumption | src/org/sosy_lab/cpachecker/cpa/arg/ARGPathExporter.java:1137-1157 | without an assumption on the left, the assumption-scope key is ignored |
| WitnessGraphs.SummarizesLoop | src/org/sosy_lab/cpachecker/cpa/arg/ARGPathExporter.java:1137-1157 | the loop over the key definitions computes `summarizes` |
| WitnessGraphs.JavaCompareAntisymmetric | src/org/sosy_lab/cpachecker/cpa/arg/ARGPathExporter.java:1175 | `String.compareTo` is antisymmetric and zero exactly on equal strings |
| WitnessGraphs.JavaCompareTransitive | src/org/sosy_lab/cpachecker/cpa/arg/ARGPathExporter.java:1175 | `String.compareTo` is transitive |
| WitnessGraphs.Least | src/org/sosy_lab/cpachecker/cpa/arg/ARGPathExporter.java:1159-1176 | the least key of a non-empty key set, in key-definition order |
| WitnessGraphs.CompareAsWritten | src/org/sosy_lab/cpachecker/cpa/arg/ARGPathExporter.java:1159-1176 | the label comparison as written: zero exactly on equal labels |
| WitnessGraphs.CompareAsWrittenNotAntisymmetric | src/org/sosy_lab/cpachecker/cpa/arg/ARGPathExporter.java:1159-1176 | two labels with the same key and different values each compare as smaller than the other |
| WitnessGraphs.CompareAsWrittenThrows | src/org/sosy_lab/cpachecker/cpa/arg/ARGPathExporter.java:1159-1176 | labels with disjoint keys and no differing common key make the comparison throw NoSuchElement |
| WitnessGraphs.Differences | src/org/sosy_lab/cpachecker/cpa/arg/ARGPathExporter.java:1159-1176 | the keys where the labels differ, a missing entry counting as a value |
| WitnessGraphs.NoDifferences | src/org/sosy_lab/cpachecker/cpa/arg/ARGPathExporter.java:1159-1176 | no differing key iff the labels are equal |
| WitnessGraphs.CompareValuesAntisymmetric | src/org/sosy_lab/cpachecker/cpa/arg/ARGPathExporter.java:1159-1176 | comparing entry values, with a missing value smallest, is antisymmetric and zero exactly on equal values |
| WitnessGraphs.CompareValuesTransitive | src/org/sosy_lab/cpachecker/cpa/arg/ARGPathExporter.java:1159-1176 | the value order is transitive |
| WitnessGraphs.CompareAntisymmetric | src/org/sosy_lab/cpachecker/cpa/arg/ARGPathExporter.java:1159-1176 | the corrected label order is antisymmetric and zero exactly on equal labels |
| WitnessGraphs.CompareTransitive | src/org/sosy_lab/cpachecker/cpa/arg/ARGPathExporter.java:1159-1176 | the corrected label order is transitive |
| WitnessGraphs.EdgeCompareAsWritten | src/org/sosy_lab/cpachecker/cpa/arg/ARGPathExporter.java:1201-1215 | the edge comparison as written: zero exactly on equal edges |
| WitnessGraphs.EdgeCompareAsWrittenNotAntisymmetric | src/org/sosy_lab/cpachecker/cpa/arg/ARGPathExporter.java:1201-1215 | two edges between the same nodes with clashing labels each compare as smaller |
| WitnessGraphs.EdgeCompareAntisymmetric | src/org/sosy_lab/cpachecker/cpa/arg/ARGPathExporter.java:1201-1215 | the corrected edge order is antisymmetric and zero exactly on equal edges |
| WitnessGraphs.EdgeCompareTransitive | src/org/sosy_lab/cpachecker/cpa/arg/ARGPathExporter.java:1201-1215 | the corrected edge order is transitive |
| WitnessGraphs.CoveredToCovering | src/org/sosy_lab/cpachecker/cpa/arg/ARGPathExporter.java:140-154 | a covered state maps to its covering state, which is not covered, and any other state maps to itself |
| WitnessGraphs.Reported | src/org/sosy_lab/cpachecker/cpa/arg/ARGPathExporter.java:638-653 | reported children are uncovered genuine children of the parent |
| WitnessGraphs.ReportedMeaning | src/org/sosy_lab/cpachecker/cpa/arg/ARGPathExporter.java:638-653 | a state is reported iff it is a child of the parent and the covering image of one of its children |
| WitnessGraphs.ReportedChildrenGenuine | src/org/sosy_lab/cpachecker/cpa/arg/ARGPathExporter.java:638-653 | the reported children are exactly the uncovered children of the parent |
| WitnessGraphs.CoveredChildReported | src/org/sosy_lab/cpachecker/cpa/arg/ARGPathExporter.java:638-653 | the covering state of a covered child is reported iff it is itself a child of the parent |
| WitnessGraphs.CollectPathEdges | src/org/sosy_lab/cpachecker/cpa/arg/ARGPathExporter.java:608-670 | each state is reported at most once, from the initial state, with its reported children; every reported path-state child is reported as a parent, and every later parent is such a child of an earlier one |
| WitnessGraphs.ReportNext | src/org/sosy_lab/cpachecker/cpa/arg/ARGPathExporter.java:633-663 | one waitlist step reports the next parent and keeps the invariant |
| WitnessGraphs.VisitChildren | src/org/sosy_lab/cpachecker/cpa/arg/ARGPathExporter.java:656-660 | every unvisited path-state child is queued once |
| WitnessGraphs.WalkEnd | src/org/sosy_lab/cpachecker/cpa/arg/ARGPathExporter.java:608-670 | when the waitlist is empty, the reported pairs have the path-edge shape |
| WitnessGraphs.SinkRedundant | src/org/sosy_lab/cpachecker/cpa/arg/ARGPathExporter.java:751-768 | the pruned edges are among the edges |
| WitnessGraphs.PruneKeepsLabels | src/org/sosy_lab/cpachecker/cpa/arg/ARGPathExporter.java:751-768 | a pruned sink edge has a surviving edge from the same source with an equal label that does not go to the sink |
| WitnessGraphs.PruneIdempotent | src/org/sosy_lab/cpachecker/cpa/arg/ARGPathExporter.java:751-768 | after pruning, no edge is redundant any more |
| WitnessGraphs.WitnessWriter.PruneSinkEdges | src/org/sosy_lab/cpachecker/cpa/arg/ARGPathExporter.java:751-768 | removes exactly the sink edges made redundant by another leaving edge with an equal label, keeping the maps in sync |
| WitnessGraphs.Leaving | src/org/sosy_lab/cpachecker/cpa/arg/ARGPathExporter.java:834-908 | exactly the edges leaving the node |
| WitnessGraphs.Entering | src/org/sosy_lab/cpachecker/cpa/arg/ARGPathExporter.java:834-908 | exactly the edges entering the node |
| WitnessGraphs.Absorb | src/org/sosy_lab/cpachecker/cpa/arg/ARGPathExporter.java:852-854 | the source takes over the target's flags or properties, and the target keeps none |
| WitnessGraphs.MergeShrinks | src/org/sosy_lab/cpachecker/cpa/arg/ARGPathExporter.java:834-908 | a merge removes at least one edge |
| WitnessGraphs.MergeEmptiesTarget | src/org/sosy_lab/cpachecker/cpa/arg/ARGPathExporter.java:834-908 | afterwards no edge touches the merged target |
| WitnessGraphs.MergeKeepsOthers | src/org/sosy_lab/cpachecker/cpa/arg/ARGPathExporter.java:834-908 | edges not touching the target stay |
| WitnessGraphs.MergeReroutesLeaving | src/org/sosy_lab/cpachecker/cpa/arg/ARGPathExporter.java:856-880 | an edge leaving the target now leaves the source, with labels combined and the old edge's entries winning on clashes |
| WitnessGraphs.MergeReroutesEntering | src/org/sosy_lab/cpachecker/cpa/arg/ARGPathExporter.java:882-907 | an edge entering the target now enters the source, with labels combined |
| WitnessGraphs.MergeAddsOnlyAtSource | src/org/sosy_lab/cpachecker/cpa/arg/ARGPathExporter.java:834-908 | every new edge touches the source |
| WitnessGraphs.WitnessWriter.MergeNodes | src/org/sosy_lab/cpachecker/cpa/arg/ARGPathExporter.java:834-908 | for a redundant edge, the edges become the merged edges, and the target's flags and violated properties go to the source, with the maps kept in sync |
| WitnessGraphs.WitnessWriter.RedundantEdges | src/org/sosy_lab/cpachecker/cpa/arg/ARGPathExporter.java:771-800 | exactly the edges that meet the merge condition |
| WitnessGraphs.WitnessWriter.MergeRedundantEdges | src/org/sosy_lab/cpachecker/cpa/arg/ARGPathExporter.java:801-810 | the loop ends with no redundant edge left; the edges, node flags and violated properties are those of merging a sequence of edges in turn, each redundant in the graph left by the merges before it, and every merge removes at least one edge |
| WitnessGraphs.WitnessWriter.constructor | src/org/sosy_lab/cpachecker/cpa/arg/ARGPathExporter.java:272-287 | the graph starts without edges, node flags or violated properties |
| WitnessGraphs.WitnessWriter.InSync | src/org/sosy_lab/cpachecker/cpa/arg/ARGPathExporter.java:911-923 | an edge is in its source's leaving set iff it is in its target's entering set |
| WitnessGraphs.WitnessWriter.PutEdge | src/org/sosy_lab/cpachecker/cpa/arg/ARGPathExporter.java:911-914 | adds the edge to both maps |
| WitnessGraphs.WitnessWriter.RemoveEdge | src/org/sosy_lab/cpachecker/cpa/arg/ARGPathExporter.java:916-923 | removes the edge from both maps and returns true iff it was there |
| WitnessGraphs.WitnessWriter.RemoveAll | src/org/sosy_lab/cpachecker/cpa/arg/ARGPathExporter.java:856-862 | removing the edges one by one leaves exactly the other edges, with the maps in sync and flags and properties unchanged |
| WitnessGraphs.WitnessWriter.PutAll | src/org/sosy_lab/cpachecker/cpa/arg/ARGPathExporter.java:877-880 | putting the edges one by one adds exactly them, with the maps in sync and flags and properties unchanged |
| WitnessGraphs.WitnessWriter.AppendNewEdge | src/org/sosy_lab/cpachecker/cpa/arg/ARGPathExporter.java:289-305 | adds the edge between the two nodes with the given label |
| WitnessGraphs.WitnessWriter.AppendNewEdgeToSink | src/org/sosy_lab/cpachecker/cpa/arg/ARGPathExporter.java:307-314 | adds the edge to the sink with the given label |
| WitnessGraphs.WitnessWriter.CollectNodeFlags | src/org/sosy_lab/cpachecker/cpa/arg/ARGPathExporter.java:734-745 | every node's flags become its old flags plus, when it is listed, its own flags and ISENTRY on the entry node, plus ISSINKNODE on the sink and nothing else; each listed node's violated properties are added, and no other node's change |
| WitnessGraphs.AddNodeFlags | src/org/sosy_lab/cpachecker/cpa/arg/ARGPathExporter.java:734-743 | the loop adds each listed node's flags and violated properties, and nothing else |
| WitnessGraphs.PutAllUnder | src/org/sosy_lab/cpachecker/cpa/arg/ARGPathExporter.java:741-742 | the values join the key's set, and other keys are unchanged |
| WitnessGraphs.NodeFlagsOf | src/org/sosy_lab/cpachecker/cpa/arg/ARGPathExporter.java:736-740 | a node is flagged as entry iff it is the entry node or already carries the flag, and its own flags are kept |
| ProgramScopes.OriginalQualifiedName | src/org/sosy_lab/cpachecker/cfa/CProgramScope.java:164-181 | equal names keep the qualified name; otherwise the trailing name is replaced by the original name |
| ProgramScopes.OriginalQualifiedNameRoundTrip | src/org/sosy_lab/cpachecker/cfa/CProgramScope.java:164-181 | putting the name back in place of the original name yields the qualified name again |
| ProgramScopes.IndexByOriginalName | src/org/sosy_lab/cpachecker/cfa/CProgramScope.java:164-181 | each declaration is indexed under its original qualified name, in order |
| ProgramScopes.Filter | src/org/sosy_lab/cpachecker/cfa/CProgramScope.java:127-143 | keeps exactly the declarations that satisfy the test |
| ProgramScopes.Named | src/org/sosy_lab/cpachecker/cfa/CProgramScope.java:263-265 | keeps only declarations with a name |
| ProgramScopes.QualifiedDeclarations | src/org/sosy_lab/cpachecker/cfa/CProgramScope.java:497-537 | every table entry comes from the input |
| ProgramScopes.ExtractQualifiedDeclarations | src/org/sosy_lab/cpachecker/cfa/CProgramScope.java:497-537 | the loop builds exactly that table |
| ProgramScopes.QualifiedDeclarationsMeaning | src/org/sosy_lab/cpachecker/cfa/CProgramScope.java:497-537 | a name is kept iff all its declarations coincide once initializers are ignored, and then it maps to the first of them |
| ProgramScopes.QualifiedDeclarationsNamed | src/org/sosy_lab/cpachecker/cfa/CProgramScope.java:497-537 | every kept declaration has a name |
| ProgramScopes.UniqueSimpleDeclarations | src/org/sosy_lab/cpachecker/cfa/CProgramScope.java:603-620 | a simple name is kept iff exactly one qualified declaration carries it, and then maps to that declaration |
| ProgramScopes.Resolved | src/org/sosy_lab/cpachecker/cfa/CProgramScope.java:649-655 | resolving follows elaborated types to a non-elaborated one, and other types resolve to themselves |
| ProgramScopes.ResolveElaboratedType | src/org/sosy_lab/cpachecker/cfa/CProgramScope.java:649-655 | the method computes that resolution |
| ProgramScopes.ResolvedIdempotent | src/org/sosy_lab/cpachecker/cfa/CProgramScope.java:649-655 | resolving twice is resolving once |
| ProgramScopes.FirstElaborated | src/org/sosy_lab/cpachecker/cfa/CProgramScope.java:637-645 | finds an elaborated type among the values iff there is one |
| ProgramScopes.Preferred | src/org/sosy_lab/cpachecker/cfa/CProgramScope.java:637-645 | prefers an elaborated type if there is one, and otherwise takes the first |
| ProgramScopes.PreferredIsFirst | src/org/sosy_lab/cpachecker/cfa/CProgramScope.java:637-645 | the preferred type is the first elaborated one, when there is one |
| ProgramScopes.PutIfUnique | src/org/sosy_lab/cpachecker/cfa/CProgramScope.java:622-647 | stores nothing for no values, or for values that differ after resolution; otherwise stores the preferred type |
| ProgramScopes.UniqueTable | src/org/sosy_lab/cpachecker/cfa/CProgramScope.java:539-601 | every table entry comes from the input |
| ProgramScopes.ExtractUnique | src/org/sosy_lab/cpachecker/cfa/CProgramScope.java:539-601 | the loops build exactly that table |
| ProgramScopes.UniqueTableMeaning | src/org/sosy_lab/cpachecker/cfa/CProgramScope.java:539-601 | a name is kept iff every type under it matches the first one after resolving elaborated types, by the given comparison; it then maps to one of its types, an elaborated one if there is any |
| ProgramScopes.TypeEntries | src/org/sosy_lab/cpachecker/cfa/CProgramScope.java:541-557 | only complex types from the collected types are indexed |
| ProgramScopes.TypeDefEntries | src/org/sosy_lab/cpachecker/cfa/CProgramScope.java:573-593 | typedef entries index the declared types |
| ProgramScopes.EqualsUnder | src/org/sosy_lab/cpachecker/cfa/CProgramScope.java:445-495 | equal types are equal; a true result for different types is justified by a relation that resolves each pair structurally |
| ProgramScopes.Equals | src/org/sosy_lab/cpachecker/cfa/CProgramScope.java:441-443 | sound and complete against bisimulation: true for types related by one, only such types answer true when they differ, and non-composite types fall back to the shallow comparison |
| ProgramScopes.Empty | src/org/sosy_lab/cpachecker/cfa/CProgramScope.java:221-229 | the empty scope has no function name and empty tables |
| ProgramScopes.CreateFunctionScope | src/org/sosy_lab/cpachecker/cfa/CProgramScope.java:237-245 | only the function name changes; every table is shared |
| ProgramScopes.SimulatesFunctionScopeMeaning | src/org/sosy_lab/cpachecker/cfa/CProgramScope.java:432-434 | `simulatesFunctionScope`: a scope simulates a function scope iff it is what `createFunctionScope` makes of itself for some function |
| ProgramScopes.VariableNameInUseMeaning | src/org/sosy_lab/cpachecker/cfa/CProgramScope.java:297-300 | `variableNameInUse`: a name is in use iff it is among the variable names, the same in every function scope made from the scope |
| ProgramScopes.CurrentFunctionName | src/org/sosy_lab/cpachecker/cfa/CProgramScope.java:436-439 | the function name is returned iff the scope simulates a function scope, and is an IllegalState error otherwise |
| ProgramScopes.CurrentFunctionNameOfFunctionScope | src/org/sosy_lab/cpachecker/cfa/CProgramScope.java:428-439 | a function scope returns its function name, and the empty scope is an error |
| ProgramScopes.ScopedName | src/org/sosy_lab/cpachecker/cfa/CProgramScope.java:393-398 | prefixes "function::" iff in a function scope, and is the identity otherwise |
| ProgramScopes.LookupVariable | src/org/sosy_lab/cpachecker/cfa/CProgramScope.java:303-319 | a found variable comes from the qualified or the unique-simple table |
| ProgramScopes.LookupVariablePrecedence | src/org/sosy_lab/cpachecker/cfa/CProgramScope.java:303-319 | tries "function::name" first in a function scope, then the name as a qualified key, then the unique simple name |
| ProgramScopes.FunctionScopeFallsBack | src/org/sosy_lab/cpachecker/cfa/CProgramScope.java:303-319 | without a scoped entry, a function scope looks up like the global scope |
| ProgramScopes.LookupFunction | src/org/sosy_lab/cpachecker/cfa/CProgramScope.java:322-329 | finds the first function declaration with the name, and nothing iff there is none |
| ProgramScopes.QualifiedComplexTypeMeaning | src/org/sosy_lab/cpachecker/cfa/CProgramScope.java:657-669 | a value is found iff all "kind name" keys that exist hold that same value |
| ProgramScopes.LookupQualifiedComplexType | src/org/sosy_lab/cpachecker/cfa/CProgramScope.java:657-669 | the loop computes that lookup |
| ProgramScopes.LookupIn | src/org/sosy_lab/cpachecker/cfa/CProgramScope.java:346-356 | a found type is in the table |
| ProgramScopes.LookupTypedef | src/org/sosy_lab/cpachecker/cfa/CProgramScope.java:361-379 | a found typedef is in the typedef table |
| ProgramScopes.LookupType | src/org/sosy_lab/cpachecker/cfa/CProgramScope.java:332-358 | a found type is complex, and comes from the type table or the typedef lookup |
| ProgramScopes.LookupTypePrecedence | src/org/sosy_lab/cpachecker/cfa/CProgramScope.java:332-379 | the scoped name first, then the plain name, then a complex typedef; typedefs also try the scoped name first |
| ProgramScopes.IsFileSpecificTypeNameMeaning | src/org/sosy_lab/cpachecker/cfa/CProgramScope.java:417-420 | `isFileSpecificTypeName`: a name is file-specific iff it is some name with the file suffix appended |
| ProgramScopes.FileSpecificTypeName | src/org/sosy_lab/cpachecker/cfa/CProgramScope.java:404-420 | only adds the file-specific suffix, and never to a name that already has it |
| ProgramScopes.FileSpecificTypeNameMeaning | src/org/sosy_lab/cpachecker/cfa/CProgramScope.java:404-420 | the name stays plain iff it is already file-specific, or only the plain typedef exists; applying it twice is applying it once |
| ProgramScopes.EmptyScopeFindsNothing | src/org/sosy_lab/cpachecker/cfa/CProgramScope.java:221-229 | the empty scope has no variable, function, typedef or type |
| ProgramScopes.BuildScope | src/org/sosy_lab/cpachecker/cfa/CProgramScope.java:256-286 | the scope's tables are the function index, the variable names, the qualified and unique-simple declarations and the unique type and typedef tables built from the declarations and collected types |
| IntegerFormulas.FormulaTypeOf | src/org/sosy_lab/cpachecker/cpa/constraints/IntegerFormulaCreator.java:155-177 | Java boolean maps to a boolean formula; other listed Java simple types and all C types map to integers; anything else fails |
| IntegerFormulas.AsInteger | src/org/sosy_lab/cpachecker/cpa/constraints/IntegerFormulaCreator.java:85-88 | the cast to an integer formula succeeds iff the operand is integer-sorted |
| IntegerFormulas.AsBoolean | src/org/sosy_lab/cpachecker/cpa/constraints/IntegerFormulaCreator.java:85-88 | the cast to a boolean formula succeeds iff the operand is boolean-sorted |
| IntegerFormulas.Translate | src/org/sosy_lab/cpachecker/cpa/constraints/IntegerFormulaCreator.java:83-255 | every translated expression is a well-sorted formula: arithmetic, `==`, `<` and `<=` over integers, `&&` and `!` over booleans; the exact formula and error of each case are the rows ArithmeticTranslation, ComparisonTranslation, LessOrEqualSignedness, ConjunctionTranslation, NegationTranslation, ConstantTranslation, IdentifierTranslation and UnsupportedBecomesVariable |
| IntegerFormulas.TranslateConstant | src/org/sosy_lab/cpachecker/cpa/constraints/IntegerFormulaCreator.java:121-143 | every translated constant is a well-sorted formula |
| IntegerFormulas.ToBoolean | src/org/sosy_lab/cpachecker/cpa/constraints/IntegerFormulaCreator.java:335-345 | a boolean is kept, and an integer f becomes not(f = 0) |
| IntegerFormulas.CoercedEqual | src/org/sosy_lab/cpachecker/cpa/constraints/IntegerFormulaCreator.java:314-333 | equality over two formulas of the same sort |
| IntegerFormulas.CreateRelation | src/org/sosy_lab/cpachecker/cpa/constraints/IntegerFormulaCreator.java:258-333 | a relation becomes one unnegated, well-sorted boolean comparison: `<` is `lessThan(left, right)` and `<=` is `makeLessOrEqual(left, right, false)`, each Ok exactly when both operands are integers and otherwise a WrongSort error; an equality over one sort never fails |
| IntegerFormulas.TranslateConstraint | src/org/sosy_lab/cpachecker/cpa/constraints/IntegerFormulaCreator.java:283-298 | a translated constraint is a well-sorted boolean formula, so its `<` and `<=` compare integers and its equality one sort |
| IntegerFormulas.UnsupportedBecomesVariable | src/org/sosy_lab/cpachecker/cpa/constraints/IntegerFormulaCreator.java:92-118 | bitwise and, or, xor and not, the shifts and logical or are not encoded and become the integer variable named by the expression |
| IntegerFormulas.ComparisonTranslation | src/org/sosy_lab/cpachecker/cpa/constraints/IntegerFormulaCreator.java:187-206 | `==` and `<` become `equal(left, right)` and `lessThan(left, right)` exactly when both operands translate to integers; a failing left operand passes its error on; an operand of the wrong sort is a WrongSort error |
| IntegerFormulas.ConjunctionTranslation | src/org/sosy_lab/cpachecker/cpa/constraints/IntegerFormulaCreator.java:208-214 | `&&` becomes the conjunction of the operands exactly when both translate to booleans; an integer operand is a WrongSort error |
| IntegerFormulas.NegationTranslation | src/org/sosy_lab/cpachecker/cpa/constraints/IntegerFormulaCreator.java:216-221 | `!` becomes the negation of the operand exactly when it translates to a boolean; an integer operand is a WrongSort error |
| IntegerFormulas.LessConstraintTranslation | src/org/sosy_lab/cpachecker/cpa/constraints/IntegerFormulaCreator.java:257-265 | a positive `<` constraint is `lessThan(left, right)` exactly when both operands translate to integers, and a WrongSort error when both translate but one is boolean |
| IntegerFormulas.ArithmeticTranslation | src/org/sosy_lab/cpachecker/cpa/constraints/IntegerFormulaCreator.java:84-90 | add, divide, modulo and multiply map to the matching integer operation iff both operands translate to integers |
| IntegerFormulas.ConstantTranslation | src/org/sosy_lab/cpachecker/cpa/constraints/IntegerFormulaCreator.java:121-143 | an integral number becomes a number, another number a named variable, a boolean a literal; a symbolic value is translated recursively, and anything else aborts |
| IntegerFormulas.IdentifierTranslation | src/org/sosy_lab/cpachecker/cpa/constraints/IntegerFormulaCreator.java:146-148 | an identifier becomes a variable of its formula type, and fails iff its type does |
| IntegerFormulas.ConstraintNegation | src/org/sosy_lab/cpachecker/cpa/constraints/IntegerFormulaCreator.java:283-298 | a non-positive constraint is wrapped in exactly one negation of the positive one |
| IntegerFormulas.LessOrEqualSignedness | src/org/sosy_lab/cpachecker/cpa/constraints/IntegerFormulaCreator.java:224-229 | both `<=` succeed exactly when both operands translate to integers, and then compare them: the expression signed, the constraint with the unsigned flag |
| IntegerFormulas.EqualConstraintCoercion | src/org/sosy_lab/cpachecker/cpa/constraints/IntegerFormulaCreator.java:314-345 | when one side of an equality is boolean, the other is coerced: an integer f becomes not(f = 0), and a boolean is kept |

## Left out

- I/O, logging, statistics, timers, time limits and shutdown notifiers all over: they do not change the modelled results.
- External collaborators are parameters with no semantics:
  - solvers and provers;
  - the Apron and octagon analyses;
  - strongest-post operators, abstraction and interpolation;
  - the wrapped location and callstack CPAs;
  - `GlobalAccessChecker`, CFA and ARG lookups, and `ARGUtils.getOnePathTo`.
- ExpressionTrees: the leaves of expression trees are opaque strings, and their hash is a parameter.
- LocationInvariants: `attemptInjection` does nothing and is not modelled; the invariant's formula is an opaque syntax value, and only literal falsity is visible.
- LocationInvariants.LocationFormulaInvariant.AssumeTruth: the states at the location are taken as a snapshot before any is removed. If `AbstractStates.filterLocation` returns a live view of the reached set, the ARG loop after `removeAll` would see no state; that reading is not modelled (`AbstractStates` is not part of this model).
- ApronRefinement: `PathFacts` stands in for what the value and Apron analyses compute for one path; the reached set is reduced to the list of pruned subtrees.
- PolicyIteration: the abstraction values, SSA map, pointer-target set and congruence are opaque numbers; `VersionStore` holds the transient `latestVersion` fields of all states.
- Threading: successor collections are sequences, so the hash-set deduplication of wrapped successors is not modelled.
- Threading: the `checkState` of `getThreadNums` becomes the requirement that thread numbers are distinct, which every operation keeps.
- ThreadingTransfer: `strengthen` and the interleaving semantics beyond one step are not modelled.
- ThreadingTransfer: the `getOnlyElement` of `getActiveThread` and the null check on the function head become errors.
- GenericPrefixes: the feasible prefix of a path without edges keeps its old value.
- GenericPrefixes: the callstack is a list, and the failing edge's push or pop done by the call and return handlers is kept.
- PredicatePrefixes: `maxPrefixLength` is not used by the walk; block formulas are supplied in path order.
- BamArgs: copies are named by their originals, and parent links are a set of (parent, child) pairs.
- BamArgs: the reached sets, the block summaries and the cached reached sets are inputs.
- GraphBuilders: the value assignments attached to edges are not modelled.
- ProofGraphs: CFA node names are "N" followed by the node number.
- WitnessGraphs:
  - `constructTransitionCondition`, XML writing and the final node and edge output are not modelled;
  - labels are opaque key-to-string maps;
  - key-definition order is the declaration order of the key datatype;
  - `SINK_NODE_ID` is a fixed string.
- WitnessGraphs.WitnessWriter: the leaving and entering multimaps are sets of edges, which is what tree multimaps under a consistent edge order hold. The source orders them by `Edge.compareTo`, which is not consistent (see Findings). So the model does not capture that a put can throw NoSuchElementException, or that a removal can miss an edge that is present.
- WitnessGraphs.WitnessWriter.PutEdge: modelled under a consistent edge order. The throw of the as-written `Edge.compareTo` inside the tree multimap is not modelled.
- WitnessGraphs.WitnessWriter.RemoveEdge: modelled under a consistent edge order. A tree lookup that misses a present edge under the as-written order is not modelled.
- WitnessGraphs.WitnessWriter.MergeRedundantEdges: it picks any redundant edge; the order in which the source's iterator presents them is not modelled.
- WitnessGraphs.CollectPathEdges: the walk is computed eagerly rather than as a lazy iterable.
- WitnessGraphs.JavaCompare: strings compare character by character, without UTF-16 surrogates.
- ProgramScopes:
  - the CFA traversal and the `TypeCollector` are not modelled;
  - their outputs, the declarations and the collected types, are inputs;
  - types live in an arena of numbered nodes, and elaborated chains point to earlier nodes;
  - the shallow `CType.equals` is a parameter, and so is the type equality used by the unique tables;
  - `register*` do nothing and `isGlobalScope` is always false, so neither is modelled.
- IntegerFormulas:
  - the floating-point test for an integral constant is a flag;
  - a number's long value is an unbounded integer;
  - `toString` is a parameter;
  - a null result becomes an Aborted error that propagates;
  - formulas are syntax, with no SMT semantics;
  - `FormulaManagerView.makeLessOrEqual` is not part of this model: the model takes it to accept integer operands only, like the numeric comparisons, and a boolean operand becomes a WrongSort error.

## Findings

| source | as written | input that shows it | evidently intended | confidence | as-written member | corrected member |
|---|---|---|---|---|---|---|
| src/org/sosy_lab/cpachecker/cpa/arg/ARGPathExporter.java:1159-1176 | If no key lies only on the left, `compareTo` returns -1. When keys lie on both sides only and no common key differs, it reads the first differing common value of an empty collection. | The labels {ASSUMPTION: "x"} and {ASSUMPTION: "y"}: each compares as smaller than the other. The labels {ASSUMPTION: "x"} and {INVARIANT: "x"}: the comparison throws NoSuchElementException. | an antisymmetric, transitive order: the order of sorted maps, decided at the first key where the labels differ | not executed | WitnessGraphs.CompareAsWritten, WitnessGraphs.CompareAsWrittenNotAntisymmetric, WitnessGraphs.CompareAsWrittenThrows | WitnessGraphs.Compare, WitnessGraphs.CompareAntisymmetric, WitnessGraphs.CompareTransitive |
| src/org/sosy_lab/cpachecker/cpa/arg/ARGPathExporter.java:1201-1215 | `Edge.compareTo` falls back to the label comparison and inherits its defect. The witness writer's edge multimaps are tree multimaps ordered by it (lines 278-279), so a put can throw and a removal can miss an edge. | Two edges from "A" to "B" labelled {ASSUMPTION: "x"} and {ASSUMPTION: "y"}: each compares as smaller than the other. | an antisymmetric, transitive order on edges | not executed | WitnessGraphs.EdgeCompareAsWritten, WitnessGraphs.EdgeCompareAsWrittenNotAntisymmetric | WitnessGraphs.EdgeCompare, WitnessGraphs.EdgeCompareAntisymmetric, WitnessGraphs.EdgeCompareTransitive |
