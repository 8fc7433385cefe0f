/** The context-insensitive pointer analysis: the solver that builds the pointer flow graph, the
    points-to sets and the call graph on the fly from the main method, driven by a work list. */
module PtaSolver {
  import opened Wrappers
  import opened Graphs
  import CHA
  import opened PtaModel
  import opened PtaPrecision

  /** The entries the loop of `propagate` adds for the successors `targets` of a pointer: one
      entry carrying `delta` for each successor. */
  method DeltaEntries(targets: set<Pointer>, delta: set<ObjId>) returns (added: seq<Entry>)
    ensures EnqueuedOnce(added, targets, delta)
  {
    added := [];
    var rest := targets;
    ghost var done: set<Pointer> := {};
    while rest != {}
      invariant done !! rest && done + rest == targets
      invariant EnqueuedOnce(added, done, delta)
      decreases rest
    {
      var t :| t in rest;
      EnqueueStep(added, done, t, delta);
      added := added + [Entry(t, Delta(delta))];
      done := done + {t};
      rest := rest - {t};
    }
  }

  class Solver {
    const program: Program
    /** `resolveCallee`: dispatch of an instance call on a receiver object. */
    const resolve: Resolver
    /** `RM`, the reachable methods, and `S`, the statements of those methods. */
    var reachable: set<MethodId>
    var reachableStmts: set<StmtRef>
    var workList: seq<Entry>
    /** The pointer flow graph, as the successors of each pointer. */
    var succs: map<Pointer, set<Pointer>>
    /** The points-to set of each pointer. */
    var pt: map<Pointer, set<ObjId>>
    var callGraph: CHA.CallGraph

    ghost function St(): State
      reads this
    {
      State(reachable, succs, pt, workList, callGraph.edges)
    }

    ghost predicate Valid()
      reads this
    {
      program.Valid() && ResolverValid(program, resolve) &&
      (forall m :: m in reachable ==> m < |program.methods|) &&
      callGraph.reachableMethods == reachable && callGraph.entryMethods == {program.main} &&
      forall r :: r in reachableStmts <==>
        (r.owner in reachable && r.owner < |program.methods| && r.index < |program.methods[r.owner].stmts|)
    }

    ghost predicate Inv()
      reads this
    {
      Invariant(program, resolve, St())
    }

    /** A fresh solver for a program: nothing is reachable yet. */
    constructor (program: Program, resolve: Resolver)
      ensures this.program == program && this.resolve == resolve
      ensures reachable == {} && reachableStmts == {}
    {
      this.program := program;
      this.resolve := resolve;
      reachable := {};
      reachableStmts := {};
      workList := [];
      succs := map[];
      pt := map[];
      callGraph := CHA.CallGraph({}, {}, {});
    }

    /** `solve`: initializes the analysis from the main method, then processes the work list.
        With enough fuel to empty the work list, the state is a solution of every constraint;
        in any case every recorded fact is produced by a rule from recorded facts. */
    method Solve(fuel: nat) returns (done: bool)
      requires program.Valid() && ResolverValid(program, resolve)
      requires reachable == {} && reachableStmts == {}
      modifies this
      ensures Valid() && Inv() && Derived(program, resolve, St())
      ensures program.main in reachable && callGraph.entryMethods == {program.main}
      ensures done ==> workList == [] && Solution(program, resolve, St())
    {
      Initialize();
      done := Analyze(fuel);
      if done {
        DrainedIsSolution(program, resolve, St());
      }
    }

    /** `initialize`: an empty work list, pointer flow graph and call graph; the main method is the
        entry of the call graph and is made reachable. */
    method Initialize()
      requires program.Valid() && ResolverValid(program, resolve)
      requires reachable == {} && reachableStmts == {}
      modifies this
      ensures Valid() && Inv() && Derived(program, resolve, St())
      ensures program.main in reachable && callGraph.entryMethods == {program.main}
    {
      workList := [];
      succs := map[];
      pt := map[];
      callGraph := CHA.CallGraph({}, {}, {});
      callGraph := callGraph.(entryMethods := callGraph.entryMethods + {program.main});
      ghost var st0 := St();
      assert Invariant(program, resolve, st0);
      assert Derived(program, resolve, st0) by {
        forall t, o ensures !Reaches(st0, t, o) {
        }
      }
      AddReachable(program.main, {});
      HeapRulesMono(program, resolve, st0, St(), 0, {});
      EdgeRulesMono(program, st0, St(), {});
    }

    /** `addPFGEdge`: a new edge `source -> target` is added, and when `source` already points to
        something its points-to set is enqueued for `target`, as the set itself and not a copy. */
    method AddPFGEdge(source: Pointer, target: Pointer)
      modifies this
      ensures target in old(SuccsOf(succs, source)) ==> succs == old(succs) && workList == old(workList)
      ensures target !in old(SuccsOf(succs, source)) ==>
        succs == old(succs)[source := old(SuccsOf(succs, source)) + {target}] &&
        workList == old(workList) + (if PointsTo(pt, source) != {} then [Entry(target, Shared(source))] else [])
      ensures pt == old(pt) && reachable == old(reachable) && reachableStmts == old(reachableStmts) && callGraph == old(callGraph)
      ensures HasEdge(St(), source, target) && Grows(old(St()), St())
      ensures Flows(old(succs), old(pt), old(workList)) ==> Flows(succs, pt, workList)
      ensures Derived(program, resolve, old(St())) && EdgeSourced(program, old(St()), source, target) ==>
        Derived(program, resolve, St())
    {
      ghost var st0 := St();
      if target !in SuccsOf(succs, source) {
        if Flows(succs, pt, workList) {
          FlowsAddEdge(succs, pt, workList, source, target);
        }
        if Derived(program, resolve, st0) && EdgeSourced(program, st0, source, target) {
          EdgeAddedDerived(program, resolve, st0, source, target);
        }
        succs := succs[source := SuccsOf(succs, source) + {target}];
        if PointsTo(pt, source) != {} {
          workList := workList + [Entry(target, Shared(source))];
        }
      }
      GrowsByAppend(st0, St());
    }

    /** `workList.addEntry` with a fresh set of objects. */
    method Enqueue(target: Pointer, objs: set<ObjId>)
      modifies this
      ensures workList == old(workList) + [Entry(target, Delta(objs))]
      ensures pt == old(pt) && succs == old(succs) && reachable == old(reachable) &&
        reachableStmts == old(reachableStmts) && callGraph == old(callGraph)
      ensures Grows(old(St()), St()) && forall o :: o in objs ==> Reaches(St(), target, o)
      ensures Flows(old(succs), old(pt), old(workList)) ==> Flows(succs, pt, workList)
      ensures Derived(program, resolve, old(St())) && (forall o :: o in objs ==> ObjSourced(program, resolve, old(St()), target, o)) ==>
        Derived(program, resolve, St())
    {
      ghost var st0 := St();
      if Flows(succs, pt, workList) {
        FlowsAppend(succs, pt, workList, workList + [Entry(target, Delta(objs))]);
      }
      if Derived(program, resolve, st0) && forall o :: o in objs ==> ObjSourced(program, resolve, st0, target, o) {
        EnqueueDerived(program, resolve, st0, target, objs);
      }
      workList := workList + [Entry(target, Delta(objs))];
      GrowsByAppend(st0, St());
      assert workList[|workList| - 1] == Entry(target, Delta(objs));
    }
  
    /** `propagate`: the objects of `pts` that `p` does not point to yet join its points-to set and
        are enqueued, as one fresh set, for each successor of `p`; they are returned. */
    method Propagate(p: Pointer, pts: set<ObjId>) returns (delta: set<ObjId>)
      modifies this
      ensures delta == pts - PointsTo(old(pt), p)
      ensures pt == Propagated(old(pt), p, pts)
      ensures Extends(old(workList), workList)
      ensures delta == {} ==> workList == old(workList)
      ensures delta != {} ==> EnqueuedOnce(workList[|old(workList)|..], SuccsOf(succs, p), delta)
      ensures succs == old(succs) && reachable == old(reachable) && reachableStmts == old(reachableStmts) && callGraph == old(callGraph)
    {
      delta := set o | o in pts && o !in PointsTo(pt, p);
      assert delta == pts - PointsTo(pt, p);
      if delta != {} {
        assert PointsTo(pt, p) + delta == PointsTo(pt, p) + pts;
        pt := pt[p := PointsTo(pt, p) + delta];
        assert pt == Propagated(old(pt), p, pts);
        EnqueueSuccs(p, delta);
      } else {
        assert pt == Propagated(pt, p, pts);
      }
    }

    /** The loop of `propagate` over the successors of `p`: `delta` is enqueued once for each. */
    method EnqueueSuccs(p: Pointer, delta: set<ObjId>)
      modifies this
      ensures Extends(old(workList), workList)
      ensures EnqueuedOnce(workList[|old(workList)|..], SuccsOf(succs, p), delta)
      ensures pt == old(pt) && succs == old(succs) && reachable == old(reachable)
      ensures reachableStmts == old(reachableStmts) && callGraph == old(callGraph)
    {
      var added := DeltaEntries(SuccsOf(succs, p), delta);
      workList := workList + added;
      assert workList[|old(workList)|..] == added;
    }

    /** The edges of a call bound to `callee`, added in turn: each argument to its parameter and,
        only when the call has a result variable, each returned variable to it (the tail of
        `processCall` for a new call edge, and of `addReachable` for a static call). */
    method BindCall(args: seq<VarId>, result: Option<VarId>, callee: MethodId)
      requires callee < |program.methods| && |args| == |program.methods[callee].params| && callee in reachable
      modifies this
      ensures succs == EdgesAdded(old(succs), old(pt), BindEdges(program, args, result, callee)).0
      ensures workList == old(workList) + EdgesAdded(old(succs), old(pt), BindEdges(program, args, result, callee)).1
      ensures CallBound(program, St(), args, result, callee)
      ensures pt == old(pt) && reachable == old(reachable) && reachableStmts == old(reachableStmts) && callGraph == old(callGraph)
      ensures Grows(old(St()), St())
      ensures Flows(old(succs), old(pt), old(workList)) ==> Flows(succs, pt, workList)
      ensures (Derived(program, resolve, old(St())) &&
               forall e :: e in BindEdges(program, args, result, callee) ==> EdgeSourced(program, old(St()), e.0, e.1)) ==>
        Derived(program, resolve, St())
    {
      var edges := BindEdges(program, args, result, callee);
      AddPFGEdges(edges);
      BindEdgesBound(program, St(), args, result, callee);
    }

    /** `addReachable`: a method not yet reachable becomes reachable, in the call graph too, its
        statements join the reachable ones, and each statement's constraint is added: an
        allocation enqueues its object for the defined variable, a copy and a static field access
        add an edge, and a static call makes its callee reachable and binds it. A static call adds
        no call-graph edge. `open` holds the methods further up the chain of calls whose
        statements are still being processed. */
    method AddReachable(m: MethodId, ghost open: set<MethodId>)
      requires Valid() && m < |program.methods| && open <= reachable
      requires Flows(succs, pt, workList) && ReachableRules(program, St(), open)
      requires Derived(program, resolve, St()) && MethodSourced(program, St(), m)
      modifies this
      ensures Valid() && Flows(succs, pt, workList) && ReachableRules(program, St(), open)
      ensures Derived(program, resolve, St())
      ensures m in reachable && Grows(old(St()), St())
      ensures pt == old(pt) && callGraph.edges == old(callGraph.edges)
      ensures m in old(reachable) ==> St() == old(St()) && reachableStmts == old(reachableStmts)
      decreases Range(|program.methods|) - reachable, 0
    {
      ghost var st0 := St();
      GrowsByAppend(st0, st0);
      if m !in reachable {
        MarkReachable(m);
        GrowsByAppend(st0, St());
        ReachableRulesMono(program, st0, St(), open, open + {m});
        assert m in Range(|program.methods|) - st0.reachable;
        ghost var st1 := St();
        ProcessStmts(m, open);
        GrowsTrans(st0, st1, St());
      }
    }

    /** The part of `addReachable` that records `m` as reachable, in the call graph too, with its
        statements. */
    method MarkReachable(m: MethodId)
      requires Valid() && m < |program.methods| && m !in reachable
      requires Derived(program, resolve, St()) && MethodSourced(program, St(), m)
      modifies this
      ensures Valid() && Derived(program, resolve, St())
      ensures reachable == old(reachable) + {m} && callGraph.edges == old(callGraph.edges)
      ensures reachableStmts == old(reachableStmts) + set i | 0 <= i < |program.methods[m].stmts| :: StmtRef(m, i)
      ensures callGraph == old(callGraph).(reachableMethods := old(callGraph.reachableMethods) + {m})
      ensures succs == old(succs) && pt == old(pt) && workList == old(workList)
    {
      ReachedDerived(program, resolve, St(), m);
      reachable := reachable + {m};
      callGraph := callGraph.(reachableMethods := callGraph.reachableMethods + {m});
      reachableStmts := reachableStmts + set i | 0 <= i < |program.methods[m].stmts| :: StmtRef(m, i);
    }

    /** The loop of `addReachable` over the statements of the method `m` it has just made
        reachable: afterwards every statement of `m` has its constraint. */
    method ProcessStmts(m: MethodId, ghost open: set<MethodId>)
      requires Valid() && m < |program.methods| && open + {m} <= reachable
      requires Flows(succs, pt, workList) && ReachableRules(program, St(), open + {m}) && Derived(program, resolve, St())
      modifies this
      ensures Valid() && Flows(succs, pt, workList) && ReachableRules(program, St(), open) && Derived(program, resolve, St())
      ensures forall i :: 0 <= i < |program.methods[m].stmts| ==> StmtRule(program, St(), program.methods[m].stmts[i])
      ensures Grows(old(St()), St()) && pt == old(pt) && callGraph.edges == old(callGraph.edges)
      decreases Range(|program.methods|) - reachable, 3
    {
      ghost var st0 := St();
      GrowsByAppend(st0, st0);
      var stmts := program.methods[m].stmts;
      for i := 0 to |stmts|
        invariant Valid() && Flows(succs, pt, workList) && Derived(program, resolve, St())
        invariant open + {m} <= reachable
        invariant Range(|program.methods|) - reachable <= Range(|program.methods|) - st0.reachable
        invariant ReachableRules(program, St(), open + {m})
        invariant forall j :: 0 <= j < i ==> StmtRule(program, St(), stmts[j])
        invariant Grows(st0, St()) && pt == st0.pt && callGraph.edges == st0.callEdges
      {
        ghost var st1 := St();
        ProcessStmt(m, i, open + {m});
        GrowsTrans(st0, st1, St());
        StmtsKept(program, st1, St(), stmts, i);
      }
    }

    /** The constraint of statement `i` of the reachable method `m`, the body of the loop of
        `addReachable`. Apart from a static call, the statement adds exactly its own edges and its
        allocation entry; an instance field or array access, an instance call, an allocation whose
        result is unused and any other statement change nothing. */
    method ProcessStmt(m: MethodId, i: nat, ghost open: set<MethodId>)
      requires Valid() && m < |program.methods| && i < |program.methods[m].stmts|
      requires m in open && open <= reachable
      requires Flows(succs, pt, workList) && ReachableRules(program, St(), open) && Derived(program, resolve, St())
      modifies this
      ensures Valid() && Flows(succs, pt, workList) && ReachableRules(program, St(), open) && Derived(program, resolve, St())
      ensures StmtRule(program, St(), program.methods[m].stmts[i])
      ensures Grows(old(St()), St()) && pt == old(pt) && callGraph.edges == old(callGraph.edges)
      ensures !program.methods[m].stmts[i].Invoke? ==>
        reachable == old(reachable) && reachableStmts == old(reachableStmts) && callGraph == old(callGraph) &&
        succs == EdgesAdded(old(succs), old(pt), StmtEdges(program, program.methods[m].stmts[i])).0 &&
        workList == old(workList) + AllocEntries(program.methods[m].stmts[i]) +
          EdgesAdded(old(succs), old(pt), StmtEdges(program, program.methods[m].stmts[i])).1
      ensures Deferred(program.methods[m].stmts[i]) ==>
        St() == old(St()) && reachableStmts == old(reachableStmts) && callGraph == old(callGraph)
      decreases Range(|program.methods|) - reachable, 2
    {
      var stmt := program.methods[m].stmts[i];
      if !stmt.Invoke? {
        ProcessLocalStmt(m, i, open);
      } else if stmt.kind == CHA.STATIC {
        ProcessStaticCall(m, i, open);
      } else {
        GrowsByAppend(St(), St());
      }
    }

    /** The branch of `addReachable` for a statement of `m` other than a call: an allocation
        enqueues its object, and any other statement adds its own edges, the one edge of a copy
        or a static field access and none for the rest. */
    method ProcessLocalStmt(m: MethodId, i: nat, ghost open: set<MethodId>)
      requires Valid() && m < |program.methods| && i < |program.methods[m].stmts|
      requires !program.methods[m].stmts[i].Invoke? && m in open && open <= reachable
      requires Flows(succs, pt, workList) && ReachableRules(program, St(), open) && Derived(program, resolve, St())
      modifies this
      ensures Valid() && Flows(succs, pt, workList) && ReachableRules(program, St(), open) && Derived(program, resolve, St())
      ensures StmtRule(program, St(), program.methods[m].stmts[i])
      ensures Grows(old(St()), St()) && pt == old(pt)
      ensures reachable == old(reachable) && reachableStmts == old(reachableStmts) && callGraph == old(callGraph)
      ensures succs == EdgesAdded(old(succs), old(pt), StmtEdges(program, program.methods[m].stmts[i])).0
      ensures workList == old(workList) + AllocEntries(program.methods[m].stmts[i]) +
        EdgesAdded(old(succs), old(pt), StmtEdges(program, program.methods[m].stmts[i])).1
    {
      ghost var st1 := St();
      var stmt := program.methods[m].stmts[i];
      if stmt.New? {
        if stmt.newLhs.Some? {
          assert AllocIn(program, st1, m, i, VarPtr(stmt.newLhs.value), stmt.obj);
          Enqueue(VarPtr(stmt.newLhs.value), {stmt.obj});
        } else {
          GrowsByAppend(st1, st1);
        }
      } else {
        var edges := StmtEdges(program, stmt);
        forall e | e in edges ensures EdgeSourced(program, st1, e.0, e.1) {
          assert StmtEdgeIn(program, st1, m, i, e.0, e.1);
        }
        AddPFGEdges(edges);
      }
      RulesKept(program, resolve, st1, St());
    }

    /** The branch of `addReachable` for statement `i` of `m`, a static call: its callee becomes
        reachable and the call is bound to it. */
    method ProcessStaticCall(m: MethodId, i: nat, ghost open: set<MethodId>)
      requires Valid() && m < |program.methods| && i < |program.methods[m].stmts|
      requires program.methods[m].stmts[i].Invoke? && program.methods[m].stmts[i].kind == CHA.STATIC
      requires m in open && open <= reachable
      requires Flows(succs, pt, workList) && ReachableRules(program, St(), open) && Derived(program, resolve, St())
      modifies this
      ensures Valid() && Flows(succs, pt, workList) && ReachableRules(program, St(), open) && Derived(program, resolve, St())
      ensures StmtRule(program, St(), program.methods[m].stmts[i])
      ensures Grows(old(St()), St()) && pt == old(pt) && callGraph.edges == old(callGraph.edges)
      decreases Range(|program.methods|) - reachable, 1
    {
      var call := program.methods[m].stmts[i];
      ghost var st1 := St();
      assert StaticCallIn(program, st1, m, i, call.methodRef);
      AddReachable(call.methodRef, open);
      ghost var st2 := St();
      forall e | e in BindEdges(program, call.args, call.result, call.methodRef) ensures EdgeSourced(program, st2, e.0, e.1) {
        assert StmtEdgeIn(program, st2, m, i, e.0, e.1);
      }
      BindCall(call.args, call.result, call.methodRef);
      RulesKept(program, resolve, st2, St());
      GrowsTrans(st1, st2, St());
    }

    /** `addPFGEdge` for each pair of a list, in order: exactly the pairs of the list become edges,
        and the work list gains one entry for each new edge whose source points to something. */
    method AddPFGEdges(edges: seq<(Pointer, Pointer)>)
      modifies this
      ensures succs == EdgesAdded(old(succs), old(pt), edges).0
      ensures workList == old(workList) + EdgesAdded(old(succs), old(pt), edges).1
      ensures forall e :: e in edges ==> HasEdge(St(), e.0, e.1)
      ensures pt == old(pt) && reachable == old(reachable) && reachableStmts == old(reachableStmts) && callGraph == old(callGraph)
      ensures Grows(old(St()), St())
      ensures Flows(old(succs), old(pt), old(workList)) ==> Flows(succs, pt, workList)
      ensures Derived(program, resolve, old(St())) && (forall e :: e in edges ==> EdgeSourced(program, old(St()), e.0, e.1)) ==>
        Derived(program, resolve, St())
    {
      ghost var st0 := St();
      ghost var flows := Flows(succs, pt, workList);
      GrowsByAppend(st0, st0);
      for i := 0 to |edges|
        invariant succs == EdgesAdded(st0.succs, st0.pt, edges[..i]).0
        invariant workList == st0.workList + EdgesAdded(st0.succs, st0.pt, edges[..i]).1
        invariant forall k :: 0 <= k < i ==> HasEdge(St(), edges[k].0, edges[k].1)
        invariant pt == st0.pt && reachable == st0.reachable && reachableStmts == old(reachableStmts) && callGraph == old(callGraph)
        invariant Grows(st0, St()) && (flows ==> Flows(succs, pt, workList))
      {
        ghost var st1 := St();
        ghost var front := EdgesAdded(st0.succs, st0.pt, edges[..i]);
        AddPFGEdge(edges[i].0, edges[i].1);
        GrowsTrans(st0, st1, St());
        assert edges[..i + 1][..i] == edges[..i];
        assert EdgesAdded(st0.succs, st0.pt, edges[..i + 1]).1 == front.1 + workList[|st1.workList|..];
      }
      assert edges[..|edges|] == edges;
      assert forall e :: e in edges ==> exists k :: 0 <= k < |edges| && edges[k] == e;
      if Derived(program, resolve, st0) && forall e :: e in edges ==> EdgeSourced(program, st0, e.0, e.1) {
        EdgesAddedDerived(program, resolve, st0, edges);
      }
    }

    /** The constraints `analyze` adds for one object `o` newly pointed to by variable `v`: the
        field and array edges of the stores and loads through `v`, then `processCall`. */
    method ProcessObject(v: VarId, o: ObjId)
      requires Valid() && Flows(succs, pt, workList)
      requires ReachableRules(program, St(), {}) && EdgeRulesExcept(program, St(), {})
      requires Derived(program, resolve, St()) && o in PointsTo(pt, VarPtr(v))
      modifies this
      ensures Valid() && Flows(succs, pt, workList) && Derived(program, resolve, St())
      ensures ReachableRules(program, St(), {}) && EdgeRulesExcept(program, St(), {})
      ensures Grows(old(St()), St()) && pt == old(pt)
      ensures HeapRule(program, resolve, St(), v, o)
    {
      ghost var st0 := St();
      var edges := HeapEdges(program, v, o);
      HeapEdgesSourced(v, o);
      AddPFGEdges(edges);
      RulesKept(program, resolve, st0, St());
      ghost var st1 := St();
      ProcessCall(v, o);
      GrowsTrans(st0, st1, St());
      EdgesKept(st1, St(), edges);
    }

    /** The field and array edges for an object of `v` each have a rule instance. */
    lemma HeapEdgesSourced(v: VarId, o: ObjId)
      requires o in PointsTo(pt, VarPtr(v))
      ensures forall e :: e in HeapEdges(program, v, o) ==> EdgeSourced(program, St(), e.0, e.1)
    {
      forall e | e in HeapEdges(program, v, o) ensures EdgeSourced(program, St(), e.0, e.1) {
        assert HeapEdgeOf(program, St(), v, o, e.0, e.1);
      }
    }

    /** The part of `processCall` for a call edge not yet in the call graph: the edge is added,
        its target made reachable and the call bound to it; no other call edge is added. */
    method AddCallEdge(l: Located, m: MethodId)
      requires Valid() && InProgram(program, l) && l.stmt.Invoke? && m < |program.methods|
      requires |l.stmt.args| == |program.methods[m].params|
      requires Flows(succs, pt, workList) && ReachableRules(program, St(), {}) && EdgeRulesExcept(program, St(), {})
      requires Derived(program, resolve, St()) && CallEdgeSourced(program, resolve, St(), CHA.CallEdge(l.stmt.kind, SiteOf(l.ref), m))
      modifies this
      ensures Valid() && Flows(succs, pt, workList) && Derived(program, resolve, St())
      ensures ReachableRules(program, St(), {}) && EdgeRulesExcept(program, St(), {})
      ensures Grows(old(St()), St()) && pt == old(pt)
      ensures callGraph.edges == old(callGraph.edges) + {CHA.CallEdge(l.stmt.kind, SiteOf(l.ref), m)}
    {
      var edge := CHA.CallEdge(l.stmt.kind, SiteOf(l.ref), m);
      ghost var st2 := St();
      CallEdgeDerived(program, resolve, st2, edge);
      callGraph := callGraph.(edges := callGraph.edges + {edge});
      GrowsByAppend(st2, St());
      EdgeRulesGrow(program, st2, St(), {}, {edge});
      ReachableRulesMono(program, st2, St(), {}, {});
      ghost var st3 := St();
      assert edge in st3.callEdges && edge.callee == m;
      AddReachable(m, {});
      EdgeRulesMono(program, st3, St(), {edge});
      ghost var st4 := St();
      assert SiteCall(program, edge) == l.stmt;
      forall e | e in BindEdges(program, l.stmt.args, l.stmt.result, m) ensures EdgeSourced(program, st4, e.0, e.1) {
        assert BoundEdgeOf(program, st4, edge, e.0, e.1);
      }
      BindCall(l.stmt.args, l.stmt.result, m);
      RulesKept(program, resolve, st4, St());
      assert EdgeRule(program, St(), edge);
      GrowsTrans(st2, st3, st4);
      GrowsTrans(st2, st4, St());
    }

    /** `processCall`: every call on `v` is dispatched on the receiver object `o`; for each target
        `o` is enqueued for the target's `this`, and a call edge not yet in the call graph is added,
        makes the target reachable and binds the call to it. */
    method ProcessCall(v: VarId, o: ObjId)
      requires Valid() && Flows(succs, pt, workList)
      requires ReachableRules(program, St(), {}) && EdgeRulesExcept(program, St(), {})
      requires Derived(program, resolve, St()) && o in PointsTo(pt, VarPtr(v))
      modifies this
      ensures Valid() && Flows(succs, pt, workList) && Derived(program, resolve, St())
      ensures ReachableRules(program, St(), {}) && EdgeRulesExcept(program, St(), {})
      ensures Grows(old(St()), St()) && pt == old(pt)
      ensures forall l :: l in InvokesOn(program, v) && resolve(o, l.ref).Some? ==>
        InvokeRule(program, St(), l, resolve(o, l.ref).value, o)
    {
      ghost var st0 := St();
      GrowsByAppend(st0, st0);
      var invokes := InvokesOn(program, v);
      for i := 0 to |invokes|
        invariant Valid() && Flows(succs, pt, workList) && Derived(program, resolve, St())
        invariant ReachableRules(program, St(), {}) && EdgeRulesExcept(program, St(), {})
        invariant Grows(st0, St()) && pt == st0.pt
        invariant Dispatched(program, resolve, St(), invokes, i, o)
      {
        ghost var st1 := St();
        assert invokes[i] in InvokesOn(program, v);
        DispatchOn(invokes[i], o);
        DispatchedStep(program, resolve, st1, St(), invokes, i, o);
        GrowsTrans(st0, st1, St());
      }
      DispatchedAll(program, resolve, St(), invokes, o);
    }

    /** The body of `processCall`'s loop for one call `l` on receiver `o`: the call is resolved; a
        call without a target is skipped and changes nothing. Otherwise `o` is enqueued for the
        target's `this`, and the call edge is added and bound unless the call graph already has it,
        in which case that entry is the only change. */
    method DispatchOn(l: Located, o: ObjId)
      requires Valid() && InProgram(program, l) && l.stmt.Invoke? && l.stmt.receiver.Some?
      requires Flows(succs, pt, workList) && ReachableRules(program, St(), {}) && EdgeRulesExcept(program, St(), {})
      requires Derived(program, resolve, St()) && o in PointsTo(pt, VarPtr(l.stmt.receiver.value))
      modifies this
      ensures Valid() && Flows(succs, pt, workList) && Derived(program, resolve, St())
      ensures ReachableRules(program, St(), {}) && EdgeRulesExcept(program, St(), {})
      ensures Grows(old(St()), St()) && pt == old(pt)
      ensures resolve(o, l.ref).Some? ==> InvokeRule(program, St(), l, resolve(o, l.ref).value, o)
      ensures resolve(o, l.ref).None? ==> St() == old(St()) && reachableStmts == old(reachableStmts) && callGraph == old(callGraph)
      ensures resolve(o, l.ref).Some? ==>
        callGraph.edges == old(callGraph.edges) + {CHA.CallEdge(l.stmt.kind, SiteOf(l.ref), resolve(o, l.ref).value)}
      ensures resolve(o, l.ref).Some? && CHA.CallEdge(l.stmt.kind, SiteOf(l.ref), resolve(o, l.ref).value) in old(callGraph.edges) ==>
        succs == old(succs) && reachable == old(reachable) && reachableStmts == old(reachableStmts) && callGraph == old(callGraph) &&
        workList == old(workList) + [Entry(VarPtr(program.methods[resolve(o, l.ref).value].thisVar), Delta({o}))]
    {
      ghost var st1 := St();
      var callee := resolve(o, l.ref);
      if callee.Some? {
        var m := callee.value;
        assert ResolvedOn(program, resolve, st1, l.ref, o, m);
        assert ThisOf(program, resolve, st1, l.ref, o, VarPtr(program.methods[m].thisVar));
        Enqueue(VarPtr(program.methods[m].thisVar), {o});
        RulesKept(program, resolve, st1, St());
        ghost var st2 := St();
        var edge := CHA.CallEdge(l.stmt.kind, SiteOf(l.ref), m);
        if edge !in callGraph.edges {
          assert StmtRef(edge.callSite.caller, edge.callSite.index) == l.ref;
          assert ResolvedOn(program, resolve, st2, l.ref, o, m);
          AddCallEdge(l, m);
        } else {
          GrowsByAppend(st2, st2);
        }
        GrowsTrans(st1, st2, St());
        assert Reaches(st2, VarPtr(program.methods[m].thisVar), o);
        assert InvokeRule(program, St(), l, m, o);
      } else {
        GrowsByAppend(st1, st1);
      }
    }

    /** `analyze`: polls the work list until it is empty (or the fuel runs out), propagating each
        entry and, when a variable gains objects, adding the constraints each of them brings. */
    method Analyze(fuel: nat) returns (done: bool)
      requires Valid() && Inv() && Derived(program, resolve, St())
      modifies this
      ensures Valid() && Inv() && Derived(program, resolve, St()) && Grows(old(St()), St())
      ensures done <==> workList == []
    {
      ghost var st0 := St();
      GrowsByAppend(st0, st0);
      var fuelLeft := fuel;
      while workList != [] && fuelLeft > 0
        invariant Valid() && Inv() && Derived(program, resolve, St()) && Grows(st0, St())
        decreases fuelLeft
      {
        fuelLeft := fuelLeft - 1;
        ghost var st1 := St();
        var entry := workList[0];
        workList := workList[1..];
        var pts := Objs(entry.payload, pt);
        var delta := Propagate(entry.pointer, pts);
        PollStep(program, resolve, st1, St(), delta);
        PollDerived(program, resolve, st1, St(), delta);
        GrowsTrans(st0, st1, St());
        if entry.pointer.VarPtr? {
          var v := entry.pointer.v;
          var rest := delta;
          ghost var ptAfter := pt;
          assert delta <= PointsTo(pt, entry.pointer);
          while rest != {}
            invariant Valid() && Flows(succs, pt, workList) && Derived(program, resolve, St())
            invariant ReachableRules(program, St(), {}) && EdgeRulesExcept(program, St(), {})
            invariant HeapRulesExcept(program, resolve, St(), v, rest) && rest <= PointsTo(pt, VarPtr(v))
            invariant Grows(st0, St()) && pt == ptAfter
            decreases rest
          {
            var o :| o in rest;
            ghost var st2 := St();
            ProcessObject(v, o);
            HeapRulesMono(program, resolve, st2, St(), v, rest);
            GrowsTrans(st0, st2, St());
            rest := rest - {o};
          }
        }
      }
      done := workList == [];
    }
  }
}
