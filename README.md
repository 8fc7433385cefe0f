# Tai-e assignments, modelled in Dafny

This project models the analyses a student wrote for the Tai-e static-analysis framework for
Java. Each assignment fills in the body of one or two classes.

- **Pointer analysis** (`Solver`, assignment 5). This is a context-insensitive, inclusion-based
  (Andersen-style) analysis. It builds the pointer flow graph, the points-to sets and the call
  graph together, starting from the main method and driven by a work list of
  (pointer, objects) entries. It is modelled by module `PtaSolver` (a class `Solver` whose
  fields are the reachable methods and statements, the work list, the graph's successor sets,
  the points-to sets and the call graph), module `PtaModel` (the program, the solver's state
  as a value, the constraints of the analysis and the predicates the loop preserves) and module
  `PtaPrecision` (`Derived`: every recorded reachable method, call edge, edge and points-to fact
  has a rule instance that produces it from facts already recorded).
- **Class-hierarchy call graph** (`CHABuilder`, assignment 4). This covers `dispatch` along the
  superclass chain, `resolve` by call kind, and the reachable-method walk of `buildCallGraph`.
  It is modelled by module `CHA`.
- **Constant propagation** (`ConstantPropagation`, assignment 4). This covers the value lattice
  (UNDEF, a constant, NAC), `CPFact` maps that never store UNDEF, `meetInto`, `evaluate` with
  Java `int` arithmetic, and `transferNode`/`process`. It is modelled by module `ConstProp`.
  Module `JavaInt` spells out 32-bit wrap-around, truncating division, the remainder, masked
  shift distances and two's-complement bitwise operations.
- **Inter-procedural constant propagation** (`InterConstantPropagation`). This covers the call
  node and the four edge transfers. It is modelled by module `InterConstProp`.
- **Live variables** (`LiveVariableAnalysis`, assignment 3), modelled by module `LiveVar`.
- **Dead-code detection** (`DeadCodeDetection`, assignment 3). This is a walk of the
  control-flow graph that prunes branches constant propagation decided, plus assignments to
  variables that are not live afterwards. It is modelled by module `DeadCode`.
- **The solvers**:
  - the inter-procedural worklist solver, `InterSolver` (module `InterSolver`);
  - the worklist solver of assignment 3 (module `WorkListSolver`), forward by worklist and
    backward by repeated passes;
  - the worklist solver of assignment 2 (module `TransferMeetSolver`), which transfers a node
    once per predecessor and meets the results.
- **Shared modules**:
  - `IR` is Tai-e's three-address statements, with `getUses`/`getDef` in Tai-e's order.
  - `Dataflow` is the `DataflowResult` class.
  - `Lattice` holds the semilattice laws.
  - `Graphs` holds reachability.
  - `Wrappers` holds `Option`/`Result` and the exceptions the code can throw.
  - `AnalysisInstances` plugs the analyses into the solvers and reads what a fixed point means
    for each.

Pure code is modelled as functions and lemmas. Code that changes things step by step is
modelled as methods with loops, proved against specification functions: the solvers, the
pointer analysis, `meetInto`, `newBoundaryFact`, the call-graph walk and the dead-code walk.
The generic solvers take the analysis as function values. Whether a drained result is a fixed
point is proved under the semilattice laws that each analysis is shown to meet.

## Model

| member | source | states |
|---|---|---|
| PtaSolver.Solver.Solve | A5/tai-e/src/main/java/pascal/taie/analysis/pta/ci/Solver.java:77-80 | main is reachable and is the only entry method; every recorded fact has a rule instance that produces it (`Derived`); once the work list is drained, the state is a `Solution` of the analysis |
| PtaSolver.Solver.Initialize | A5/tai-e/src/main/java/pascal/taie/analysis/pta/ci/Solver.java:85-95 | starts from an empty work list, pointer flow graph and call graph; main becomes the entry method and is reachable, with every constraint of its statements in place, the solver invariant established and every recorded fact derived |
| PtaSolver.Solver.AddReachable | A5/tai-e/src/main/java/pascal/taie/analysis/pta/ci/Solver.java:100-143 | a method already reachable changes nothing; otherwise it and its statements become reachable, each of its statements gets its constraint (`StmtRule`), no call edge is added, points-to sets are untouched, and the facts stay derived |
| PtaSolver.Solver.MarkReachable | A5/tai-e/src/main/java/pascal/taie/analysis/pta/ci/Solver.java:102-105 | the method joins the reachable methods and the call graph's reachable methods, and its statements join the reachable statements; nothing else changes, and the facts stay derived |
| PtaSolver.Solver.ProcessStmts | A5/tai-e/src/main/java/pascal/taie/analysis/pta/ci/Solver.java:106-141 | after the loop over the method's statements, each of them has its constraint, points-to sets and call edges are unchanged, and the facts stay derived |
| PtaSolver.Solver.ProcessStmt | A5/tai-e/src/main/java/pascal/taie/analysis/pta/ci/Solver.java:107-140 | one statement of a reachable method gets its constraint; for a statement other than a call the new graph and work list are exactly `EdgesAdded` of its own edges plus its allocation entry; an instance field or array access, an instance call and a `new` without a defined variable change nothing |
| PtaSolver.Solver.ProcessLocalStmt | A5/tai-e/src/main/java/pascal/taie/analysis/pta/ci/Solver.java:107-123 | a `new` with a defined variable enqueues its object for that variable; a copy, a static field store and a static field load add exactly their one edge (`StmtEdges`); the successors and the work list afterwards are exactly those of `EdgesAdded` |
| PtaSolver.Solver.ProcessStaticCall | A5/tai-e/src/main/java/pascal/taie/analysis/pta/ci/Solver.java:124-139 | a static call makes its callee reachable and binds arguments to parameters and returned variables to the result; the facts stay derived |
| PtaSolver.Solver.BindCall | A5/tai-e/src/main/java/pascal/taie/analysis/pta/ci/Solver.java:129-139 | the successors and the work list afterwards are exactly `EdgesAdded` of `BindEdges`; each argument then has an edge to its parameter and each returned variable an edge to the call's result (`CallBound`) |
| PtaSolver.Solver.AddPFGEdge | A5/tai-e/src/main/java/pascal/taie/analysis/pta/ci/Solver.java:156-164 | an existing edge changes nothing; a new edge is added, and when the source already points to something, the source's live points-to set is enqueued for the target; the flow constraints are kept, and a new edge with a rule instance keeps the facts derived |
| PtaSolver.Solver.AddPFGEdges | A5/tai-e/src/main/java/pascal/taie/analysis/pta/ci/Solver.java:178-196 | `addPFGEdge` of each pair in order: the successors afterwards and the entries appended are exactly `EdgesAdded` of the list, every pair is an edge, and points-to sets, reachable sets and the call graph are unchanged |
| PtaSolver.Solver.Enqueue | A5/tai-e/src/main/java/pascal/taie/analysis/pta/ci/Solver.java:111-113 | appends one (pointer, objects) entry; everything else is unchanged; each object is then in, or pending for, that pointer; objects with a rule instance keep the facts derived |
| PtaSolver.Solver.Propagate | A5/tai-e/src/main/java/pascal/taie/analysis/pta/ci/Solver.java:210-228 | returns exactly the objects the pointer did not yet have, adds them to its set, and enqueues them once for each successor (no entries when there are none); the graph and call graph are unchanged |
| PtaSolver.Solver.EnqueueSuccs | A5/tai-e/src/main/java/pascal/taie/analysis/pta/ci/Solver.java:222-224 | appends one entry with the delta for each successor and no other |
| PtaSolver.DeltaEntries | A5/tai-e/src/main/java/pascal/taie/analysis/pta/ci/Solver.java:222-224 | the entries built for a set of successors: one per successor, each carrying the delta |
| PtaSolver.Solver.Analyze | A5/tai-e/src/main/java/pascal/taie/analysis/pta/ci/Solver.java:169-204 | keeps the solver invariant and `Derived` across every poll; the state only grows; `done` holds exactly when the work list is empty |
| PtaSolver.Solver.ProcessObject | A5/tai-e/src/main/java/pascal/taie/analysis/pta/ci/Solver.java:177-197 | once the variable points to the object, every field store and load and array store and load through the variable has its edge to or from the object's field or array slot, and every call on the variable is dispatched on the object (`HeapRule`); the facts stay derived, so no edge or call edge is added without a rule instance |
| PtaSolver.Solver.ProcessCall | A5/tai-e/src/main/java/pascal/taie/analysis/pta/ci/Solver.java:236-263 | every call on the variable that resolves on the receiver object has its call edge, and the object reaches the callee's `this` (`InvokeRule`); every call edge added resolves on an object the receiver points to (`Derived`) |
| PtaSolver.Solver.DispatchOn | A5/tai-e/src/main/java/pascal/taie/analysis/pta/ci/Solver.java:238-261 | a call that does not resolve changes nothing; one that resolves adds exactly its call edge and ends with the receiver object pending for, or in, the callee's `this`; when that call edge was already there, the only change is the one entry for `this` |
| PtaSolver.Solver.AddCallEdge | A5/tai-e/src/main/java/pascal/taie/analysis/pta/ci/Solver.java:245-261 | exactly the new call edge is recorded, with the call's kind, and the callee becomes reachable and bound to the call; a call edge with a rule instance keeps the facts derived |
| PtaModel.EdgesAddedSuccs | A5/tai-e/src/main/java/pascal/taie/analysis/pta/ci/Solver.java:156-164 | after `addPFGEdge` of each pair of a list, a pointer's successors are its old successors plus exactly the targets the list gives it |
| PtaModel.EdgesAddedEntries | A5/tai-e/src/main/java/pascal/taie/analysis/pta/ci/Solver.java:158-162 | every entry appended on the way shares the source's set along a pair of the list that was not yet an edge and whose source pointed to something |
| PtaModel.EdgesAddedComplete | A5/tai-e/src/main/java/pascal/taie/analysis/pta/ci/Solver.java:158-162 | every pair that was not yet an edge and whose source pointed to something has its entry appended |
| PtaModel.BindEdgesExact | A5/tai-e/src/main/java/pascal/taie/analysis/pta/ci/Solver.java:129-139 | the binding edges of a call are exactly argument `k` to parameter `k` and, for a call with a result, each returned variable to the result |
| PtaModel.BindEdgesBound | A5/tai-e/src/main/java/pascal/taie/analysis/pta/ci/Solver.java:129-139 | a reachable callee whose binding edges are all in the graph is bound to the call (`CallBound`) |
| PtaPrecision.SourcedMono | A5/tai-e/src/main/java/pascal/taie/analysis/pta/ci/Solver.java:100-263 | a rule instance for a method, call edge, edge or points-to fact stays one while the recorded facts grow |
| PtaPrecision.DerivedStep | A5/tai-e/src/main/java/pascal/taie/analysis/pta/ci/Solver.java:100-263 | a step that grows the facts keeps them derived when everything it records anew has a rule instance |
| PtaPrecision.EdgeAddedDerived | A5/tai-e/src/main/java/pascal/taie/analysis/pta/ci/Solver.java:156-164 | adding one edge that has a rule instance keeps the facts derived: the entry it may append shares the source's set along that edge |
| PtaPrecision.EdgesAddedDerived | A5/tai-e/src/main/java/pascal/taie/analysis/pta/ci/Solver.java:156-164 | adding a list of edges that all have rule instances keeps the facts derived |
| PtaPrecision.EdgesAddedShared | A5/tai-e/src/main/java/pascal/taie/analysis/pta/ci/Solver.java:158-162 | adding edges only grows the facts, and every appended entry waits on an edge from its source |
| PtaPrecision.EdgesAddedSourced | A5/tai-e/src/main/java/pascal/taie/analysis/pta/ci/Solver.java:156-164 | every edge the list adds is one of its pairs and so has their rule instance |
| PtaPrecision.EdgesAddedObjs | A5/tai-e/src/main/java/pascal/taie/analysis/pta/ci/Solver.java:158-162 | an object pending in an appended entry flows along one of the pairs from a pointer holding it |
| PtaPrecision.EnqueueDerived | A5/tai-e/src/main/java/pascal/taie/analysis/pta/ci/Solver.java:111-113 | enqueuing objects that each have a rule instance for the target keeps the facts derived |
| PtaPrecision.ReachedDerived | A5/tai-e/src/main/java/pascal/taie/analysis/pta/ci/Solver.java:102-105 | making reachable a method that is main, statically called from a reachable method, or the target of a call edge keeps the facts derived |
| PtaPrecision.CallEdgeDerived | A5/tai-e/src/main/java/pascal/taie/analysis/pta/ci/Solver.java:245-246 | recording a call edge that resolves on an object of its receiver keeps the facts derived |
| PtaPrecision.PollDerived | A5/tai-e/src/main/java/pascal/taie/analysis/pta/ci/Solver.java:171-175 | polling the first entry and propagating it keeps the facts derived: the objects joining the set were pending for the pointer, and the entries appended carry them along its edges |
| PtaModel.FlowsAddEdge | A5/tai-e/src/main/java/pascal/taie/analysis/pta/ci/Solver.java:158-162 | enqueuing the source's set when a new edge is added keeps every edge's inclusion constraint satisfied or pending |
| PtaModel.FlowsPropagate | A5/tai-e/src/main/java/pascal/taie/analysis/pta/ci/Solver.java:171-175 | polling an entry and propagating its delta to the successors keeps every edge's inclusion constraint satisfied or pending, and no points-to set shrinks |
| PtaModel.PollStep | A5/tai-e/src/main/java/pascal/taie/analysis/pta/ci/Solver.java:171-175 | one poll keeps the invariant, except the heap constraints of the objects that just arrived at a variable, which the rest of the loop body adds |
| PtaModel.DrainedIsSolution | A5/tai-e/src/main/java/pascal/taie/analysis/pta/ci/Solver.java:171-203 | with nothing left in the work list, the invariant is the solution: every edge's source set is included in its target's |
| PtaModel.SolutionIsClosed | A5/tai-e/src/main/java/pascal/taie/analysis/pta/ci/Solver.java:100-263 | the solution satisfies the inclusion rules of the analysis: new, copy, field store and load through each object pointed to, and calls dispatched on it, whose callee is reachable with `this` pointing to the object and arguments included in parameters |
| CHA.Dispatch | A4/tai-e/src/main/java/pascal/taie/analysis/graph/callgraph/CHABuilder.java:124-134 | a found method is non-abstract, has the subsignature and is declared by a class on the superclass chain of the class (`Chain`) |
| CHA.DispatchFirstOnChain | A4/tai-e/src/main/java/pascal/taie/analysis/graph/callgraph/CHABuilder.java:124-134 | finds nothing exactly when no class on the superclass chain declares a concrete match; otherwise finds the first such method of the nearest declaring class |
| CHA.FirstConcrete | A4/tai-e/src/main/java/pascal/taie/analysis/graph/callgraph/CHABuilder.java:127-131 | none exactly when no declared method is a concrete match; otherwise a declared concrete match |
| CHA.FirstConcreteIsFirst | A4/tai-e/src/main/java/pascal/taie/analysis/graph/callgraph/CHABuilder.java:127-131 | no method declared before the one found is a concrete match |
| CHA.DeclaredMethod | A4/tai-e/src/main/java/pascal/taie/analysis/graph/callgraph/CHABuilder.java:90 | the method the class itself declares with the subsignature, and none exactly when it declares none |
| CHA.StaticTargetOnChain | A4/tai-e/src/main/java/pascal/taie/analysis/graph/callgraph/CHABuilder.java:89-90 | the corrected static target is none exactly when no class on the chain declares the subsignature, and is the declared method whenever the class declares one |
| CHA.ResolveIsHierarchyDispatch | A4/tai-e/src/main/java/pascal/taie/analysis/graph/callgraph/CHABuilder.java:80-116 | a virtual or interface call's targets are exactly what dispatch finds on some subtype of the referenced class; a special call's target is dispatch on the referenced class; every non-static target is concrete |
| CHA.AsWrittenWithinResolve | A4/tai-e/src/main/java/pascal/taie/analysis/graph/callgraph/CHABuilder.java:80-116 | every target the code as written finds is found by the corrected resolution |
| CHA.TransitiveOverrideMissed | A4/tai-e/src/main/java/pascal/taie/analysis/graph/callgraph/CHABuilder.java:94-103 | in the three-class hierarchy, a virtual call misses the override two levels down, which the corrected resolution finds |
| CHA.InheritedStaticIsNull | A4/tai-e/src/main/java/pascal/taie/analysis/graph/callgraph/CHABuilder.java:89-90 | a static call naming a subclass that inherits the method resolves to null, and the corrected resolution finds the inherited method |
| CHA.AddSiteTargets | A4/tai-e/src/main/java/pascal/taie/analysis/graph/callgraph/CHABuilder.java:65-69 | for one call site, throws exactly when its targets hold null; otherwise adds exactly one edge per target, tagged with the call kind, and queues exactly the targets |
| CHA.SubtypesAreReachable | A4/tai-e/src/main/java/pascal/taie/analysis/graph/callgraph/CHABuilder.java:98-112 | the subtypes searched by the corrected resolution are exactly the classes reached along direct-subclass, implementor and subinterface links |
| CHA.ScanCallSites | A4/tai-e/src/main/java/pascal/taie/analysis/graph/callgraph/CHABuilder.java:62-71 | with either resolution, throws exactly when some call site of the method resolves to a set holding null; otherwise adds exactly the edges of the method's call sites, each tagged with its call kind, and queues exactly their targets |
| CHA.DrainedIsReachable | A4/tai-e/src/main/java/pascal/taie/analysis/graph/callgraph/CHABuilder.java:56-73 | once the work list is empty, the reached methods are exactly those reachable from the entry, the edges are exactly those of their call sites, and no reachable method has a call site resolving to null |
| CHA.BuildCallGraph | A4/tai-e/src/main/java/pascal/taie/analysis/graph/callgraph/CHABuilder.java:48-75 | with the code's `resolve` or the corrected one: fails with a null-pointer exception exactly when some method reachable from the entry has a call site resolving to null, which the corrected resolution never does; otherwise the entry is the only entry method, a method is reachable exactly when the call relation reaches it from the entry, the edges are exactly the resolved edges of reachable methods, and each reachable method is the entry or a callee |
| CHA.InheritedStaticCrashesWalk | A4/tai-e/src/main/java/pascal/taie/analysis/graph/callgraph/CHABuilder.java:62-71 | as written, a reachable method calling an inherited static method through a subclass has a call site resolving to null, so the walk throws; with the corrected resolution it has none |
| ConstProp.NewBoundaryFact | A4/tai-e/src/main/java/pascal/taie/analysis/dataflow/analysis/constprop/ConstantPropagation.java:54-68 | a variable is NAC exactly when it is a parameter that can hold an `int`; every other variable is UNDEF |
| ConstProp.NewInitialFact | A4/tai-e/src/main/java/pascal/taie/analysis/dataflow/analysis/constprop/ConstantPropagation.java:71-75 | every variable reads as UNDEF |
| ConstProp.MeetValue | A4/tai-e/src/main/java/pascal/taie/analysis/dataflow/analysis/constprop/ConstantPropagation.java:93-105 | NAC exactly when either value is NAC or the two constants differ; otherwise the common constant |
| ConstProp.MeetFacts | A4/tai-e/src/main/java/pascal/taie/analysis/dataflow/analysis/constprop/ConstantPropagation.java:78-88 | per variable, an UNDEF target takes the fact's value, an UNDEF fact keeps the target's, and otherwise the two meet |
| ConstProp.MeetInto | A4/tai-e/src/main/java/pascal/taie/analysis/dataflow/analysis/constprop/ConstantPropagation.java:78-88 | the loop over the fact's entries leaves exactly `MeetFacts(fact, target)` |
| ConstProp.MeetIsSemilattice | A4/tai-e/src/main/java/pascal/taie/analysis/dataflow/analysis/constprop/ConstantPropagation.java:78-105 | the meet of facts is commutative, associative and idempotent |
| ConstProp.FactLeqPointwise | A4/tai-e/src/main/java/pascal/taie/analysis/dataflow/analysis/constprop/ConstantPropagation.java:78-105 | a fact is below another in the meet's order exactly when it is below it at every variable |
| ConstProp.Update | A4/tai-e/src/main/java/pascal/taie/analysis/dataflow/analysis/constprop/ConstantPropagation.java:127-128 | after the update the variable reads as the given value, and every other variable is unchanged |
| ConstProp.RemByZeroThrows | A4/tai-e/src/main/java/pascal/taie/analysis/dataflow/analysis/constprop/ConstantPropagation.java:241-245 | as written, `c % 0` on constants throws a division by zero, while `c / 0` gives NAC |
| ConstProp.EvaluateCorrectsRem | A4/tai-e/src/main/java/pascal/taie/analysis/dataflow/analysis/constprop/ConstantPropagation.java:218-277 | the corrected `evaluate` agrees with the code wherever the code does not throw, and sends a zero divisor of `/` and `%` alike to NAC |
| ConstProp.EvaluateArithmetic | A4/tai-e/src/main/java/pascal/taie/analysis/dataflow/analysis/constprop/ConstantPropagation.java:229-259 | for constants, the quotient and remainder recombine to the dividend in wrapping `int` arithmetic, and a comparison gives 0 or 1 |
| ConstProp.EvaluateMonotone | A4/tai-e/src/main/java/pascal/taie/analysis/dataflow/analysis/constprop/ConstantPropagation.java:218-277 | operands lower in the lattice give a result lower in the lattice |
| JavaInt.Wrap | A4/tai-e/src/main/java/pascal/taie/analysis/dataflow/analysis/constprop/ConstantPropagation.java:233-240 | the `int` congruent to the exact result modulo 2^32, which is the exact result when it fits |
| JavaInt.TruncDiv | A4/tai-e/src/main/java/pascal/taie/analysis/dataflow/analysis/constprop/ConstantPropagation.java:243 | the quotient's magnitude is the quotient of the magnitudes, with the sign negative exactly when the operands' signs differ (rounding toward zero) |
| JavaInt.Rem | A4/tai-e/src/main/java/pascal/taie/analysis/dataflow/analysis/constprop/ConstantPropagation.java:245 | the remainder is smaller in magnitude than the divisor, takes the dividend's sign, and equals the dividend minus divisor times truncated quotient |
| JavaInt.DivRemIdentity | A4/tai-e/src/main/java/pascal/taie/analysis/dataflow/analysis/constprop/ConstantPropagation.java:241-245 | `(a / b) * b + a % b == a` in wrapping `int` arithmetic, even for `MIN_VALUE / -1` |
| JavaInt.ShiftDistance | A4/tai-e/src/main/java/pascal/taie/analysis/dataflow/analysis/constprop/ConstantPropagation.java:263-265 | a shift distance is below 32 |
| JavaInt.ShiftDistanceMasked | A4/tai-e/src/main/java/pascal/taie/analysis/dataflow/analysis/constprop/ConstantPropagation.java:263-265 | shifting by `s` and by `s + 32` use the same distance |
| JavaInt.Halve | A4/tai-e/src/main/java/pascal/taie/analysis/dataflow/analysis/constprop/ConstantPropagation.java:264 | an arithmetic right shift keeps the sign and does not grow the magnitude |
| IR.CanHoldInt | A4/tai-e/src/main/java/pascal/taie/analysis/dataflow/analysis/constprop/ConstantPropagation.java:196-209 | true exactly for the primitive types other than `long`, `float` and `double`, that is `byte`, `short`, `int`, `char` and `boolean` |
| ConstProp.CopyFact | A4/tai-e/src/main/java/pascal/taie/analysis/dataflow/analysis/constprop/ConstantPropagation.java:111-116 | after clearing the out fact and copying every entry of the in fact into it, the out fact equals the in fact |
| ConstProp.Process | A4/tai-e/src/main/java/pascal/taie/analysis/dataflow/analysis/constprop/ConstantPropagation.java:159-191 | the result is the in fact with the defined variable set to what `process` computes (`ProcessedValueAsWritten`): a copy reads its source, a literal gives its constant, `x = a op b` evaluates or restores `x`'s old value, anything else is NAC; or the exception `evaluate` raises |
| ConstProp.TransferNode | A4/tai-e/src/main/java/pascal/taie/analysis/dataflow/analysis/constprop/ConstantPropagation.java:108-157 | the outcome is `TransferAsWritten(stmt, in)`: it fails with a division by zero exactly for `x = a % b` with `b` the constant zero and `a` a constant, and otherwise gives the out fact `Transfer(stmt, in)`; on success, the flag says whether it differs from the old out fact |
| ConstProp.TransferAsWrittenThrowsOnlyOnRem | A4/tai-e/src/main/java/pascal/taie/analysis/dataflow/analysis/constprop/ConstantPropagation.java:118-191 | the code's transfer throws exactly on `%` by a constant zero (`RemByZeroAt`), and agrees with `Transfer` everywhere else |
| ConstProp.TransferNodeRemByZeroThrows | A4/tai-e/src/main/java/pascal/taie/analysis/dataflow/analysis/constprop/ConstantPropagation.java:244-245 | `x = a % b` with `a` = 1 and `b` = 0 makes the code's transfer throw |
| ConstProp.TransferOnlyChangesDef | A4/tai-e/src/main/java/pascal/taie/analysis/dataflow/analysis/constprop/ConstantPropagation.java:118-143 | a statement that defines no `int` variable passes the fact through, and no variable but the defined one changes |
| ConstProp.TransferByShape | A4/tai-e/src/main/java/pascal/taie/analysis/dataflow/analysis/constprop/ConstantPropagation.java:123-191 | the defined variable's new value by statement shape: a copy gives the source's value (UNDEF for a self copy), a literal its constant, a binary expression over defined `int` operands its evaluation, and calls and everything else NAC; the code's outcome is that fact for every shape but a binary expression, where it is the code's `evaluate`, throwing or not |
| ConstProp.SelfCopyForgets | A4/tai-e/src/main/java/pascal/taie/analysis/dataflow/analysis/constprop/ConstantPropagation.java:127-162 | as written, `x = x` with `x` NAC leaves `x` UNDEF |
| ConstProp.RestoreIsNotMonotone | A4/tai-e/src/main/java/pascal/taie/analysis/dataflow/analysis/constprop/ConstantPropagation.java:166-181 | as written, the transfer of `x = x + z` is not monotone: the lower in fact gives 7 and the higher one gives 5 |
| ConstProp.IntendedTransferCopies | A4/tai-e/src/main/java/pascal/taie/analysis/dataflow/analysis/constprop/ConstantPropagation.java:159-191 | the corrected transfer gives a copy its source's value, even for a self copy, and agrees with the code on every statement that is neither a copy nor a binary expression |
| ConstProp.IntendedTransferMonotone | A4/tai-e/src/main/java/pascal/taie/analysis/dataflow/analysis/constprop/ConstantPropagation.java:108-191 | the corrected transfer is monotone in the in fact |
| InterConstProp.KillDef | A4/tai-e/src/main/java/pascal/taie/analysis/dataflow/inter/InterConstantPropagation.java:97-99 | the call's defined variable reads as UNDEF, and every other variable keeps its value |
| InterConstProp.TransferCallNode | A4/tai-e/src/main/java/pascal/taie/analysis/dataflow/inter/InterConstantPropagation.java:89-101 | the out fact is the in fact without the defined variable, and the result says whether the out fact changed |
| InterConstProp.TransferNormalEdge | A4/tai-e/src/main/java/pascal/taie/analysis/dataflow/inter/InterConstantPropagation.java:111-115 | the edge carries the source's out fact unchanged |
| InterConstProp.TransferCallToReturnEdge | A4/tai-e/src/main/java/pascal/taie/analysis/dataflow/inter/InterConstantPropagation.java:118-127 | the edge carries the call node's out fact unchanged; the copy with the definition removed is discarded |
| InterConstProp.CallToReturnLacksDef | A4/tai-e/src/main/java/pascal/taie/analysis/dataflow/inter/InterConstantPropagation.java:89-127 | the defined variable is already UNDEF in what the call-to-return edge carries, so the discarded removal loses nothing |
| InterConstProp.BindArguments | A4/tai-e/src/main/java/pascal/taie/analysis/dataflow/inter/InterConstantPropagation.java:139-155 | the loop over the formals leaves exactly `Bind(params, args, first, callSiteOut)` |
| InterConstProp.BindFailsIff | A4/tai-e/src/main/java/pascal/taie/analysis/dataflow/inter/InterConstantPropagation.java:139-155 | binding throws exactly when some formal that can hold an `int` has no argument at its position |
| InterConstProp.BindValues | A4/tai-e/src/main/java/pascal/taie/analysis/dataflow/inter/InterConstantPropagation.java:139-155 | when binding succeeds, formal `i` holds the value of argument `first + i` if it can hold an `int`, and every other variable is UNDEF |
| InterConstProp.TransferCallEdgeAsWritten | A4/tai-e/src/main/java/pascal/taie/analysis/dataflow/inter/InterConstantPropagation.java:130-159 | binds the formals starting at argument 0 for a static call and at argument 1 for a call with a receiver |
| InterConstProp.InstanceCallEdgeShifts | A4/tai-e/src/main/java/pascal/taie/analysis/dataflow/inter/InterConstantPropagation.java:147-156 | as written, an instance call whose last formal can hold an `int` always throws; otherwise each `int` formal takes the next argument's value |
| InterConstProp.InstanceCallReadsNextArgument | A4/tai-e/src/main/java/pascal/taie/analysis/dataflow/inter/InterConstantPropagation.java:147-156 | as written, for `o.m(a0, a1)` the formal `p0` gets the value of `a1` (2); as intended it gets that of `a0` (1) |
| InterConstProp.TransferCallEdge | A4/tai-e/src/main/java/pascal/taie/analysis/dataflow/inter/InterConstantPropagation.java:130-159 | the corrected call edge binds formal `i` to argument `i` for every kind of call |
| InterConstProp.CallEdgeBindsFormals | A4/tai-e/src/main/java/pascal/taie/analysis/dataflow/inter/InterConstantPropagation.java:130-159 | with one argument per distinct formal, the corrected call edge never throws, gives each `int` formal its own argument's value, and leaves every other variable UNDEF |
| InterConstProp.ReturnEdgeFact | A4/tai-e/src/main/java/pascal/taie/analysis/dataflow/inter/InterConstantPropagation.java:162-181 | null exactly when the call defines no variable; otherwise a fact holding only the defined variable, which is NAC for several returned variables, the value of the only one, or UNDEF for none |
| InterConstProp.TransferReturnEdge | A4/tai-e/src/main/java/pascal/taie/analysis/dataflow/inter/InterConstantPropagation.java:162-181 | returns exactly `ReturnEdgeFact` |
| InterConstProp.ReturnValueReachesDef | A4/tai-e/src/main/java/pascal/taie/analysis/dataflow/inter/InterConstantPropagation.java:162-181 | at the return site, the meet of the return edge and the call-to-return edge gives the defined variable the returned value, and every other variable its value from before the call |
| AnalysisInstances.InterConstPropSolvable | A4/tai-e/src/main/java/pascal/taie/analysis/dataflow/inter/InterConstantPropagation.java:76-108 | inter-procedural constant propagation (meet of facts, call nodes killing their definition, other nodes transferred by constant propagation's `Transfer`, as `transferNonCallNode` delegates to `transferNode`) meets the laws the inter-procedural solver's fixed point relies on |
| AnalysisInstances.IntendedInterConstPropSolvable | A4/tai-e/src/main/java/pascal/taie/analysis/dataflow/inter/InterConstantPropagation.java:76-108 | the same with the corrected transfer for non-call nodes |
| AnalysisInstances.ConstPropSolvable | A4/tai-e/src/main/java/pascal/taie/analysis/dataflow/analysis/constprop/ConstantPropagation.java:78-157 | constant propagation with the code's transfer meets the laws the forward worklist solver's fixed point relies on |
| AnalysisInstances.IntendedConstPropSolvable | A4/tai-e/src/main/java/pascal/taie/analysis/dataflow/analysis/constprop/ConstantPropagation.java:78-157 | so does constant propagation with the corrected transfer |
| AnalysisInstances.ConstPropFixedPoint | A4/tai-e/src/main/java/pascal/taie/analysis/dataflow/analysis/constprop/ConstantPropagation.java:78-157 | at a stable node of the code's analysis, the out fact is `Transfer` of the in fact, and every variable's in value is at or below its value at the end of every predecessor |
| AnalysisInstances.IntendedConstPropFixedPoint | A4/tai-e/src/main/java/pascal/taie/analysis/dataflow/analysis/constprop/ConstantPropagation.java:78-157 | the same at a stable node of the corrected analysis, with `IntendedTransfer` |
| LiveVar.MeetInto | A3/tai-e/src/main/java/pascal/taie/analysis/dataflow/analysis/LiveVariableAnalysis.java:73-78 | the target becomes exactly the union of the two sets |
| LiveVar.MeetIsSemilattice | A3/tai-e/src/main/java/pascal/taie/analysis/dataflow/analysis/LiveVariableAnalysis.java:73-78 | union is a semilattice meet |
| LiveVar.Process | A3/tai-e/src/main/java/pascal/taie/analysis/dataflow/analysis/LiveVariableAnalysis.java:102-121 | adds exactly what `Processed` gives for the use: a variable, the first operand of a binary expression, an array's base and index, or an instance call's receiver and its uses |
| LiveVar.ProcessInvokeInstanceExp | A3/tai-e/src/main/java/pascal/taie/analysis/dataflow/analysis/LiveVariableAnalysis.java:123-129 | adds the receiver and what each use of the call adds |
| LiveVar.ProcessedUsesAreReadVars | A3/tai-e/src/main/java/pascal/taie/analysis/dataflow/analysis/LiveVariableAnalysis.java:91-121 | over all uses of a statement, `process` adds exactly the variables the statement reads, although it handles only the first operand of a binary expression on its own |
| LiveVar.TransferNode | A3/tai-e/src/main/java/pascal/taie/analysis/dataflow/analysis/LiveVariableAnalysis.java:81-100 | the new in fact is `Transfer(stmt, in, out)`, and the result says whether it changed |
| LiveVar.TransferIsClassic | A3/tai-e/src/main/java/pascal/taie/analysis/dataflow/analysis/LiveVariableAnalysis.java:81-100 | the transfer always contains `use ∪ (out − def)`, and equals it when the old in fact holds nothing beyond it |
| LiveVar.TransferMonotoneIdempotent | A3/tai-e/src/main/java/pascal/taie/analysis/dataflow/analysis/LiveVariableAnalysis.java:81-100 | the transfer is monotone in both facts, and transferring its own result again changes nothing |
| LiveVar.DefLiveOnlyIfRead | A3/tai-e/src/main/java/pascal/taie/analysis/dataflow/analysis/LiveVariableAnalysis.java:81-100 | the defined variable is live before the statement exactly when the statement reads it |
| AnalysisInstances.LiveVarFixedPoint | A3/tai-e/src/main/java/pascal/taie/analysis/dataflow/analysis/LiveVariableAnalysis.java:54-100 | at a stable node, the live-in set contains `use ∪ (out − def)`, and the live-out set contains every successor's live-in set |
| DeadCode.Targets | A3/tai-e/src/main/java/pascal/taie/analysis/dataflow/analysis/DeadCodeDetection.java:138-145 | a node is a target exactly when some selected out-edge leads to it |
| DeadCode.PruningOnlyRemoves | A3/tai-e/src/main/java/pascal/taie/analysis/dataflow/analysis/DeadCodeDetection.java:73-145 | every followed target is the target of an out-edge, and an `if` whose operands are not both constant follows every out-edge |
| DeadCode.DecidedIfTakesOneBranch | A3/tai-e/src/main/java/pascal/taie/analysis/dataflow/analysis/DeadCodeDetection.java:73-105 | an `if` over two constants follows exactly the targets of the edges its comparison takes |
| DeadCode.DecidedSwitch | A3/tai-e/src/main/java/pascal/taie/analysis/dataflow/analysis/DeadCodeDetection.java:106-137 | a `switch` on a constant follows the matching cases, and the default edge exactly when no case matches |
| DeadCode.Label | A3/tai-e/src/main/java/pascal/taie/analysis/dataflow/analysis/DeadCodeDetection.java:139-144 | labels the targets and appends exactly the ones not labelled before to the work list, each once |
| DeadCode.Walk | A3/tai-e/src/main/java/pascal/taie/analysis/dataflow/analysis/DeadCodeDetection.java:65-156 | a node is labelled exactly when it is reachable from the entry along followed edges, and reported exactly when labelled and a dead assignment |
| DeadCode.Analyze | A3/tai-e/src/main/java/pascal/taie/analysis/dataflow/analysis/DeadCodeDetection.java:53-177 | reports exactly the reachable assignments to variables that are not live afterwards, and the unreached nodes that have a source line (`ExpectedDead`) |
| DeadCode.EntryNotUnreachable | A3/tai-e/src/main/java/pascal/taie/analysis/dataflow/analysis/DeadCodeDetection.java:67-68 | the entry is reported only as a dead assignment, never as unreachable |
| DeadCode.NoSideEffectEvaluates | A3/tai-e/src/main/java/pascal/taie/analysis/dataflow/analysis/DeadCodeDetection.java:182-200 | a binary expression without side effects never makes `evaluate` throw |
| DeadCode.SideEffectAssignReported | A3/tai-e/src/main/java/pascal/taie/analysis/dataflow/analysis/DeadCodeDetection.java:148-155 | as written, `x = a / b` with `x` not live is reported dead, although the division may throw |
| DeadCode.IntendedDeadKeepsEffects | A3/tai-e/src/main/java/pascal/taie/analysis/dataflow/analysis/DeadCodeDetection.java:148-200 | the corrected report is within the report as written, and drops exactly the reachable dead assignments whose right-hand side may have a side effect |
| WorkListSolver.MeetPredsInto | A3/tai-e/src/main/java/pascal/taie/analysis/dataflow/solver/WorkListSolver.java:53-55 | the node's in fact becomes the fold of its predecessors' out facts into it, in order; nothing else changes |
| WorkListSolver.ForwardStep | A3/tai-e/src/main/java/pascal/taie/analysis/dataflow/solver/WorkListSolver.java:50-59 | one poll keeps every node that is not queued at its fixed point |
| WorkListSolver.DoSolveForward | A3/tai-e/src/main/java/pascal/taie/analysis/dataflow/solver/WorkListSolver.java:42-60 | keeps a fact for every node; once drained, under the semilattice laws, every node but the entry and the exit has an in fact absorbing each predecessor's out fact and an out fact that is the transfer of it |
| WorkListSolver.MeetSuccsInto | A3/tai-e/src/main/java/pascal/taie/analysis/dataflow/solver/WorkListSolver.java:72-75 | the node's out fact becomes the fold of its successors' in facts into it, in order; nothing else changes |
| WorkListSolver.BackwardNodeStable | A3/tai-e/src/main/java/pascal/taie/analysis/dataflow/solver/WorkListSolver.java:68-77 | a node whose transfer reports no change is at its fixed point, and the nodes before it stay at theirs |
| WorkListSolver.DoSolveBackward | A3/tai-e/src/main/java/pascal/taie/analysis/dataflow/solver/WorkListSolver.java:63-81 | when a pass changes nothing, every node but the exit is at its backward fixed point: its in fact is its transfer, and under a semilattice meet its out fact absorbs every successor's in fact |
| TransferMeetSolver.TransferEachPred | A2/tai-e/src/main/java/pascal/taie/analysis/dataflow/solver/WorkListSolver.java:55-61 | only the node's out fact changes, and only when the flag is set; under a semilattice meet, the out fact absorbs the transfer of each other predecessor's out fact |
| TransferMeetSolver.PollStep | A2/tai-e/src/main/java/pascal/taie/analysis/dataflow/solver/WorkListSolver.java:50-64 | one poll keeps every node that is not queued with an out fact absorbing its predecessors' transfers |
| TransferMeetSolver.DoSolveForward | A2/tai-e/src/main/java/pascal/taie/analysis/dataflow/solver/WorkListSolver.java:42-73 | in facts are never touched; once drained, under a semilattice meet, every node but the entry and the exit has an out fact absorbing, for each predecessor, the transfer of that predecessor's out fact into a fresh initial fact |
| TransferMeetSolver.DoSolveBackward | A2/tai-e/src/main/java/pascal/taie/analysis/dataflow/solver/WorkListSolver.java:75-78 | always fails with an unsupported-operation error |
| InterSolver.Solve | A4/tai-e/src/main/java/pascal/taie/analysis/dataflow/inter/InterSolver.java:60-65 | unless an edge leads back into the entry node, solving does not fail and the entry node keeps the boundary fact; once drained, every inner node is at its fixed point |
| InterSolver.Initialize | A4/tai-e/src/main/java/pascal/taie/analysis/dataflow/inter/InterSolver.java:67-83 | the entry node's out fact is the boundary fact; every other node has the initial fact as its in and out fact; no other node has facts |
| InterSolver.InnerNodes | A4/tai-e/src/main/java/pascal/taie/analysis/dataflow/inter/InterSolver.java:90-95 | queues exactly the nodes other than the entry method's entry and exit |
| InterSolver.MeetInEdges | A4/tai-e/src/main/java/pascal/taie/analysis/dataflow/inter/InterSolver.java:99-104 | fails (null) exactly when an edge's source has no out fact; otherwise, under a semilattice meet, the result absorbs everything each in-edge carries that is not dropped |
| InterSolver.PollNode | A4/tai-e/src/main/java/pascal/taie/analysis/dataflow/inter/InterSolver.java:97-107 | the node's in fact becomes what its in-edges carry met into it, and its out fact the transfer of that; the outcome says whether the out fact changed; a missing fact fails |
| InterSolver.InterStep | A4/tai-e/src/main/java/pascal/taie/analysis/dataflow/inter/InterSolver.java:96-108 | one poll keeps every node that is not queued at its fixed point |
| InterSolver.DoSolve | A4/tai-e/src/main/java/pascal/taie/analysis/dataflow/inter/InterSolver.java:85-109 | keeps the set of nodes with facts; after `initialize`, and with no edge into the entry node, it does not fail and leaves the entry's fact alone; once drained, every inner node is at its fixed point |

## Left out

- Debug printing is not modelled; it has no effect on any result.
- The global `World` is not modelled. Its main method and class hierarchy are parameters: the `Program` and the `Hierarchy`.
- Pointer and heap-object identity are not modelled as separate factories. The heap model gives each `new` statement its object id in the IR. The pointer-flow-graph factories (`getVarPtr`, `getInstanceField` and the others) are datatype values, so equal keys are the same pointer.
- `CallGraphs.resolveCallee` is not part of this model. The pointer analysis receives it as the `Resolver` parameter, which is assumed to give only methods with one parameter per argument. `CallGraphs.getCallKind` is the call kind stored on each call statement.
- Field and method references are already resolved ids in the IR. A reference that fails to resolve is not modelled.
- `StmtProcessor` is an empty visitor class and has nothing to model.
- Calls are assumed to pass one argument per formal parameter (`Program.Valid`, `ResolverValid`), as valid bytecode does. The code's `get(i)` on a shorter list would throw.
- The IR is a closed datatype. Two text tests in `transferNode` and `evaluate` become constructor tests:
  - `transferNode` tests whether a use's text contains "invoke".
  - `evaluate` compares operator text.

  An expression whose text contains "invoke" without being a call is not modelled.
- Termination is not modelled. The pointer analysis loop (`PtaSolver.Solver.Analyze`, `PtaSolver.Solver.Solve`) and the generic solvers take a `fuel` bound and report whether the work list was drained. Termination within any given fuel is not proved, because it rests on the finite height of the lattices.
- Iteration order is not modelled. `HashSet` order for successors is arbitrary and is modelled as an arbitrary choice. Independence of the final result from that order is not proved.
- Facts are map and set values, not objects shared between the solver and the analysis. A transfer returns the new fact instead of updating its argument. The live points-to set that `addPFGEdge` enqueues is the one place where sharing matters, and it is modelled by the `Shared` payload, read when the entry is polled.
- The assignment-2 constant-propagation class is not part of this model. `TransferMeetSolver.TransferEachPred` takes the flag returned by its `meetInto` to mean "the out fact changed".
- The inter-procedural graph is given with one entry node and one exit node for the entry method, standing for `entryMethods().toList().get(0)`.
- `DeadCode.Analyze` receives the constant-propagation in facts and the live-variable out facts per node, rather than reading them from the IR.
- `InterConstProp.TransferCallEdgeAsWritten`: a formal that cannot hold an `int` reads no argument, as in the code, so binding fails only at an `int` formal.
- `PtaSolver.Solver.Analyze`: states that the invariant is kept and that `done` means drained, not that the loop drains within the fuel. The solution itself is stated by `PtaSolver.Solver.Solve` together with `PtaModel.DrainedIsSolution`.
- `PtaSolver.Solver.Solve`, `PtaSolver.Solver.Initialize`, `PtaSolver.Solver.AddReachable`, `PtaSolver.Solver.Analyze`: precision is stated as `Derived`, which gives every recorded fact a rule instance over recorded facts. It does not prove the solution is the least one, because a cycle of facts that justify one another is not excluded.
- `PtaSolver.Solver.ProcessObject`, `PtaSolver.Solver.ProcessCall`: the exact set of call edges and edges they add is not stated; `Derived` bounds it instead, and `PtaSolver.Solver.DispatchOn` states the exact effect of one call.
- `AnalysisInstances.ConstPropSolvable`, `AnalysisInstances.InterConstPropSolvable`, `AnalysisInstances.ConstPropFixedPoint`: the solver instances use `ConstProp.Transfer`, which gives NAC where the code's `transferNode` throws on `%` by a constant zero (`ConstProp.TransferAsWrittenThrowsOnlyOnRem`). The generic solvers take total transfer functions, so an exception raised during solving is not modelled.
- `WorkListSolver.DoSolveForward`, `TransferMeetSolver.DoSolveForward` and `InterSolver.DoSolve` state stability only for a drained work list and under the semilattice laws. With fuel exhausted they state only that facts are kept.

## Findings

| source | as written | input that shows it | evidently intended | confidence | as-written member | corrected member |
|---|---|---|---|---|---|---|
| A4/tai-e/src/main/java/pascal/taie/analysis/graph/callgraph/CHABuilder.java:94-114 | a virtual or interface call dispatches only on the referenced class and its direct subclasses or implementors | `A`, `B extends A`, `C extends B`, with `A` and `C` declaring `m`: a virtual call of `A.m` misses `C.m` | dispatch on every subtype, direct or not | not executed | CHA.TransitiveOverrideMissed | CHA.ResolveIsHierarchyDispatch |
| A4/tai-e/src/main/java/pascal/taie/analysis/graph/callgraph/CHABuilder.java:89-90 | a static call takes the method the referenced class itself declares, which is null for an inherited static method | `A` declares static `m`, `B extends A`, and the call is `B.m()` | the method declared by the nearest class on the superclass chain | not executed | CHA.InheritedStaticIsNull | CHA.StaticTargetOnChain |
| A4/tai-e/src/main/java/pascal/taie/analysis/dataflow/analysis/constprop/ConstantPropagation.java:244-245 | `%` by a constant zero is computed with Java's `%`, so the analysis throws | `x = a % b` with `a` = 1 and `b` = 0 | NAC, as for `/` by zero two lines above | not executed | ConstProp.RemByZeroThrows | ConstProp.EvaluateCorrectsRem |
| A4/tai-e/src/main/java/pascal/taie/analysis/dataflow/inter/InterConstantPropagation.java:147-156 | for a call with a receiver, formal `i` reads argument `i + 1`, but the argument list does not include the receiver | `o.m(a0, a1)` with formals `p0: int`, `p1`, `a0` = 1 and `a1` = 2: `p0` gets 2, and an `int` last formal indexes past the end | formal `i` reads argument `i` | not executed | InterConstProp.InstanceCallReadsNextArgument | InterConstProp.CallEdgeBindsFormals |
| A4/tai-e/src/main/java/pascal/taie/analysis/dataflow/analysis/constprop/ConstantPropagation.java:127-181 | the defined variable is removed before the right-hand side is read, and restored only for a binary expression, before the operands are checked for UNDEF | `x = x` with `x` NAC gives UNDEF; `x = x + z` with `x` = 5 keeps 5 when `z` is UNDEF but gives 7 when `z` = 2 | read the right-hand side from the in fact: a copy keeps its source's value, and `x op y` is UNDEF while an operand is, which is monotone | not executed | ConstProp.RestoreIsNotMonotone | ConstProp.IntendedTransferMonotone |
| A3/tai-e/src/main/java/pascal/taie/analysis/dataflow/analysis/DeadCodeDetection.java:148-155 | every assignment to a variable that is not live afterwards is reported, and `hasNoSideEffect` is never consulted | `x = a / b` with `x` not live is reported dead, although removing it would drop a possible division by zero | report only assignments whose right-hand side has no side effect | not executed | DeadCode.SideEffectAssignReported | DeadCode.IntendedDeadKeepsEffects |

Each operation with a finding is modelled both as written and corrected:
- `CHA.BuildCallGraph` takes the resolution as a parameter. With `AsWritten` it uses the code's `resolve`, and it throws when a reachable call site resolves to null (`CHA.InheritedStaticCrashesWalk`). With `Intended` it uses `CHA.Resolve` and never throws.
- `ConstProp.TransferNode` returns the code's outcome, including the exception on `%` by zero. `ConstProp.Transfer` is that outcome with NAC in place of the exception.
- `AnalysisInstances.CPTransfer` and `AnalysisInstances.ICPTransfer` use `ConstProp.Transfer`. `AnalysisInstances.IntendedCPTransfer` and `AnalysisInstances.IntendedICPTransfer` use `ConstProp.IntendedTransfer`.
- The remaining as-written members exhibit each discrepancy beside the corrected definition.
