/** Why every fact the pointer analysis records is there: each reachable method, call edge,
    pointer-flow edge and points-to fact is produced by a rule of the analysis from facts already
    recorded. The soundness side (every rule's conclusion is recorded) is in `PtaModel`; this is
    the other direction, the one that keeps the analysis from recording more than the rules give. */
module PtaPrecision {
  import opened Wrappers
  import CHA
  import opened PtaModel

  /** A call edge leaves a call of the program. */
  predicate SiteIsCall(p: Program, e: CHA.CallEdge)
  {
    e.callSite.caller < |p.methods| && e.callSite.index < |p.methods[e.callSite.caller].stmts| &&
    p.methods[e.callSite.caller].stmts[e.callSite.index].Invoke?
  }

  function SiteCall(p: Program, e: CHA.CallEdge): Stmt
    requires SiteIsCall(p, e)
  {
    p.methods[e.callSite.caller].stmts[e.callSite.index]
  }

  /** The recorded facts only grow: reachable methods, pointer-flow edges, call edges and
      points-to sets (the work list may lose entries). */
  ghost predicate FactsGrow(st: State, st': State)
  {
    st.reachable <= st'.reachable && SuccsGrow(st.succs, st'.succs) && st.callEdges <= st'.callEdges &&
    PtGrows(st.pt, st'.pt)
  }

  // ---------------------------------------------------------------- one rule instance each

  /** Statement `i` of the reachable method `c` is a static call of `m`. */
  ghost predicate StaticCallIn(p: Program, st: State, c: MethodId, i: nat, m: MethodId)
  {
    c in st.reachable && c < |p.methods| && i < |p.methods[c].stmts| &&
    p.methods[c].stmts[i].Invoke? && p.methods[c].stmts[i].kind == CHA.STATIC && p.methods[c].stmts[i].methodRef == m
  }

  /** The instance call at `r` has a receiver that points to `o`, and on `o` it resolves to `m`. */
  ghost predicate ResolvedOn(p: Program, resolve: Resolver, st: State, r: StmtRef, o: ObjId, m: MethodId)
  {
    r.owner < |p.methods| && r.index < |p.methods[r.owner].stmts| && p.methods[r.owner].stmts[r.index].Invoke? &&
    p.methods[r.owner].stmts[r.index].receiver.Some? &&
    o in PointsTo(st.pt, VarPtr(p.methods[r.owner].stmts[r.index].receiver.value)) &&
    resolve(o, r) == Some(m)
  }

  /** `s -> t` is an edge of statement `i` of the reachable method `m`. */
  ghost predicate StmtEdgeIn(p: Program, st: State, m: MethodId, i: nat, s: Pointer, t: Pointer)
  {
    m in st.reachable && m < |p.methods| && i < |p.methods[m].stmts| && (s, t) in StmtEdges(p, p.methods[m].stmts[i])
  }

  /** `s -> t` is a field or array edge for an object `o` that `v` points to. */
  ghost predicate HeapEdgeOf(p: Program, st: State, v: VarId, o: ObjId, s: Pointer, t: Pointer)
  {
    o in PointsTo(st.pt, VarPtr(v)) && (s, t) in HeapEdges(p, v, o)
  }

  /** `s -> t` binds the call of the call edge `e` to its callee. */
  ghost predicate BoundEdgeOf(p: Program, st: State, e: CHA.CallEdge, s: Pointer, t: Pointer)
  {
    e in st.callEdges && SiteIsCall(p, e) && e.callee < |p.methods| &&
    (s, t) in BindEdges(p, SiteCall(p, e).args, SiteCall(p, e).result, e.callee)
  }

  /** Statement `i` of the reachable method `m` allocates `o` into the variable `t`. */
  ghost predicate AllocIn(p: Program, st: State, m: MethodId, i: nat, t: Pointer, o: ObjId)
  {
    m in st.reachable && m < |p.methods| && i < |p.methods[m].stmts| && t.VarPtr? &&
    p.methods[m].stmts[i] == New(Some(t.v), o)
  }

  /** `o` flows to `t` along an edge from a pointer that points to it. */
  ghost predicate FlowsFrom(st: State, s: Pointer, t: Pointer, o: ObjId)
  {
    t in SuccsOf(st.succs, s) && o in PointsTo(st.pt, s)
  }

  /** `t` is the `this` of the method the call at `r` resolves to on its receiver object `o`. */
  ghost predicate ThisOf(p: Program, resolve: Resolver, st: State, r: StmtRef, o: ObjId, t: Pointer)
  {
    resolve(o, r).Some? && resolve(o, r).value < |p.methods| && ResolvedOn(p, resolve, st, r, o, resolve(o, r).value) &&
    t == VarPtr(p.methods[resolve(o, r).value].thisVar)
  }

  // ---------------------------------------------------------------- every fact has a rule instance

  /** A method is reachable because it is the entry, a reachable method calls it statically, or a
      call edge leads to it. */
  ghost predicate MethodSourced(p: Program, st: State, m: MethodId)
  {
    m == p.main || (exists c, i :: StaticCallIn(p, st, c, i, m)) || (exists e :: e in st.callEdges && e.callee == m)
  }

  /** A call edge leaves an instance call of the program, has its kind, and goes to the method the
      call resolves to on some object its receiver points to. */
  ghost predicate CallEdgeSourced(p: Program, resolve: Resolver, st: State, e: CHA.CallEdge)
  {
    SiteIsCall(p, e) && SiteCall(p, e).kind == e.kind &&
    exists o :: ResolvedOn(p, resolve, st, StmtRef(e.callSite.caller, e.callSite.index), o, e.callee)
  }

  /** A pointer-flow edge comes from a statement of a reachable method, from a field or array
      access through a variable that points to an object, or from a call edge's binding. */
  ghost predicate EdgeSourced(p: Program, st: State, s: Pointer, t: Pointer)
  {
    (exists m, i :: StmtEdgeIn(p, st, m, i, s, t)) || (exists v, o :: HeapEdgeOf(p, st, v, o, s, t)) ||
    (exists e :: BoundEdgeOf(p, st, e, s, t))
  }

  /** An object reaches a pointer because an allocation of a reachable method puts it there, an
      edge carries it there, or the pointer is the `this` of a call's target on that object. */
  ghost predicate ObjSourced(p: Program, resolve: Resolver, st: State, t: Pointer, o: ObjId)
  {
    (exists m, i :: AllocIn(p, st, m, i, t, o)) || (exists s :: FlowsFrom(st, s, t, o)) ||
    (exists r :: ThisOf(p, resolve, st, r, o, t))
  }

  /** An entry that shares a pointer's set waits on an edge from that pointer. */
  ghost predicate SharedOnEdges(st: State)
  {
    forall i :: 0 <= i < |st.workList| && st.workList[i].payload.Shared? ==>
      HasEdge(st, st.workList[i].payload.source, st.workList[i].pointer)
  }

  /** Nothing is recorded without a rule instance that produces it. */
  ghost predicate Derived(p: Program, resolve: Resolver, st: State)
  {
    (forall m {:trigger MethodSourced(p, st, m)} :: m in st.reachable ==> MethodSourced(p, st, m)) &&
    (forall e {:trigger CallEdgeSourced(p, resolve, st, e)} :: e in st.callEdges ==> CallEdgeSourced(p, resolve, st, e)) &&
    (forall s, t {:trigger EdgeSourced(p, st, s, t)} :: HasEdge(st, s, t) ==> EdgeSourced(p, st, s, t)) &&
    (forall t, o {:trigger ObjSourced(p, resolve, st, t, o)} :: Reaches(st, t, o) ==> ObjSourced(p, resolve, st, t, o)) &&
    SharedOnEdges(st)
  }

  // ---------------------------------------------------------------- the solver's steps keep it

  /** A reason stays a reason while the recorded facts only grow. */
  lemma SourcedMono(p: Program, resolve: Resolver, st: State, st': State)
    requires FactsGrow(st, st')
    ensures forall m :: MethodSourced(p, st, m) ==> MethodSourced(p, st', m)
    ensures forall e :: CallEdgeSourced(p, resolve, st, e) ==> CallEdgeSourced(p, resolve, st', e)
    ensures forall s, t :: EdgeSourced(p, st, s, t) ==> EdgeSourced(p, st', s, t)
    ensures forall t, o :: ObjSourced(p, resolve, st, t, o) ==> ObjSourced(p, resolve, st', t, o)
  {
    forall m | MethodSourced(p, st, m) ensures MethodSourced(p, st', m) {
      if exists c, i :: StaticCallIn(p, st, c, i, m) {
        var c, i :| StaticCallIn(p, st, c, i, m);
        assert StaticCallIn(p, st', c, i, m);
      }
    }
    forall e | CallEdgeSourced(p, resolve, st, e) ensures CallEdgeSourced(p, resolve, st', e) {
      var o :| ResolvedOn(p, resolve, st, StmtRef(e.callSite.caller, e.callSite.index), o, e.callee);
      assert ResolvedOn(p, resolve, st', StmtRef(e.callSite.caller, e.callSite.index), o, e.callee);
    }
    forall s, t | EdgeSourced(p, st, s, t) ensures EdgeSourced(p, st', s, t) {
      if exists m, i :: StmtEdgeIn(p, st, m, i, s, t) {
        var m, i :| StmtEdgeIn(p, st, m, i, s, t);
        assert StmtEdgeIn(p, st', m, i, s, t);
      } else if exists v, o :: HeapEdgeOf(p, st, v, o, s, t) {
        var v, o :| HeapEdgeOf(p, st, v, o, s, t);
        assert HeapEdgeOf(p, st', v, o, s, t);
      } else {
        var e :| BoundEdgeOf(p, st, e, s, t);
        assert BoundEdgeOf(p, st', e, s, t);
      }
    }
    forall t, o | ObjSourced(p, resolve, st, t, o) ensures ObjSourced(p, resolve, st', t, o) {
      if exists m, i :: AllocIn(p, st, m, i, t, o) {
        var m, i :| AllocIn(p, st, m, i, t, o);
        assert AllocIn(p, st', m, i, t, o);
      } else if exists s :: FlowsFrom(st, s, t, o) {
        var s :| FlowsFrom(st, s, t, o);
        assert SuccsOf(st.succs, s) <= SuccsOf(st'.succs, s);
        assert FlowsFrom(st', s, t, o);
      } else {
        var r :| ThisOf(p, resolve, st, r, o, t);
        assert ThisOf(p, resolve, st', r, o, t);
      }
    }
  }

  /** A step keeps every fact derived when whatever it records anew has a rule instance. */
  lemma DerivedStep(p: Program, resolve: Resolver, st: State, st': State)
    requires Derived(p, resolve, st) && FactsGrow(st, st') && SharedOnEdges(st')
    requires forall m :: m in st'.reachable ==> m in st.reachable || MethodSourced(p, st', m)
    requires forall e :: e in st'.callEdges ==> e in st.callEdges || CallEdgeSourced(p, resolve, st', e)
    requires forall s, t :: HasEdge(st', s, t) ==> HasEdge(st, s, t) || EdgeSourced(p, st', s, t)
    requires forall t, o :: Reaches(st', t, o) ==> Reaches(st, t, o) || ObjSourced(p, resolve, st', t, o)
    ensures Derived(p, resolve, st')
  {
    SourcedMono(p, resolve, st, st');
  }

  /** `addPFGEdge` on a new edge that has a rule instance: the entry it may append shares the
      source's set along the new edge. */
  lemma EdgeAddedDerived(p: Program, resolve: Resolver, st: State, source: Pointer, target: Pointer)
    requires Derived(p, resolve, st) && EdgeSourced(p, st, source, target)
    ensures Derived(p, resolve, st.(succs := st.succs[source := SuccsOf(st.succs, source) + {target}],
                                     workList := st.workList + if PointsTo(st.pt, source) != {} then [Entry(target, Shared(source))] else []))
  {
    var st' := st.(succs := st.succs[source := SuccsOf(st.succs, source) + {target}],
                   workList := st.workList + if PointsTo(st.pt, source) != {} then [Entry(target, Shared(source))] else []);
    assert FactsGrow(st, st');
    forall i | 0 <= i < |st'.workList| && st'.workList[i].payload.Shared?
      ensures HasEdge(st', st'.workList[i].payload.source, st'.workList[i].pointer)
    {
      if i < |st.workList| {
        assert st'.workList[i] == st.workList[i];
        assert SuccsOf(st.succs, st.workList[i].payload.source) <= SuccsOf(st'.succs, st.workList[i].payload.source);
      }
    }
    SourcedMono(p, resolve, st, st');
    forall t, o | Reaches(st', t, o) ensures Reaches(st, t, o) || ObjSourced(p, resolve, st', t, o) {
      if o !in PointsTo(st'.pt, t) {
        var i :| 0 <= i < |st'.workList| && st'.workList[i].pointer == t && o in Objs(st'.workList[i].payload, st'.pt);
        if i < |st.workList| {
          assert st'.workList[i] == st.workList[i];
        } else {
          assert FlowsFrom(st', source, target, o);
        }
      }
    }
    DerivedStep(p, resolve, st, st');
  }

  /** The state after `addPFGEdge` of each pair of `edges` in turn. */
  function WithEdges(st: State, edges: seq<(Pointer, Pointer)>): State
  {
    st.(succs := EdgesAdded(st.succs, st.pt, edges).0, workList := st.workList + EdgesAdded(st.succs, st.pt, edges).1)
  }

  /** Adding edges only grows the facts, and every entry appended waits on one of the pairs. */
  lemma EdgesAddedShared(st: State, edges: seq<(Pointer, Pointer)>)
    requires SharedOnEdges(st)
    ensures FactsGrow(st, WithEdges(st, edges)) && SharedOnEdges(WithEdges(st, edges))
  {
    var r := EdgesAdded(st.succs, st.pt, edges);
    var st' := WithEdges(st, edges);
    EdgesAddedExact(st.succs, st.pt, edges);
    assert FactsGrow(st, st');
    forall i | 0 <= i < |st'.workList| && st'.workList[i].payload.Shared?
      ensures HasEdge(st', st'.workList[i].payload.source, st'.workList[i].pointer)
    {
      if i < |st.workList| {
        assert st'.workList[i] == st.workList[i];
      } else {
        assert st'.workList[i] == r.1[i - |st.workList|];
      }
    }
  }

  /** Every edge the pairs add is one of them, so it has their rule instance. */
  lemma EdgesAddedSourced(p: Program, resolve: Resolver, st: State, edges: seq<(Pointer, Pointer)>)
    requires forall e :: e in edges ==> EdgeSourced(p, st, e.0, e.1)
    ensures forall s, t :: HasEdge(WithEdges(st, edges), s, t) ==> HasEdge(st, s, t) || EdgeSourced(p, WithEdges(st, edges), s, t)
  {
    var st' := WithEdges(st, edges);
    EdgesAddedSuccs(st.succs, st.pt, edges);
    assert FactsGrow(st, st');
    SourcedMono(p, resolve, st, st');
    forall s, t | HasEdge(st', s, t) ensures HasEdge(st, s, t) || EdgeSourced(p, st', s, t) {
      if !HasEdge(st, s, t) {
        assert t in Targets(edges, s);
        assert EdgeSourced(p, st, s, t);
      }
    }
  }

  /** An object pending in an entry the pairs append flows along one of them. */
  lemma EdgesAddedObjs(p: Program, resolve: Resolver, st: State, edges: seq<(Pointer, Pointer)>)
    ensures forall t, o :: Reaches(WithEdges(st, edges), t, o) ==>
      Reaches(st, t, o) || ObjSourced(p, resolve, WithEdges(st, edges), t, o)
  {
    var r := EdgesAdded(st.succs, st.pt, edges);
    var st' := WithEdges(st, edges);
    EdgesAddedExact(st.succs, st.pt, edges);
    forall t, o | Reaches(st', t, o) ensures Reaches(st, t, o) || ObjSourced(p, resolve, st', t, o) {
      if o !in PointsTo(st'.pt, t) {
        var i :| 0 <= i < |st'.workList| && st'.workList[i].pointer == t && o in Objs(st'.workList[i].payload, st'.pt);
        if i < |st.workList| {
          assert st'.workList[i] == st.workList[i];
        } else {
          var x := r.1[i - |st.workList|];
          assert st'.workList[i] == x;
          assert FlowsFrom(st', x.payload.source, t, o);
        }
      }
    }
  }

  /** `addPFGEdge` for each pair of a list that has rule instances: every new edge is one of the
      pairs, and every entry appended shares the source's set along one of them. */
  lemma EdgesAddedDerived(p: Program, resolve: Resolver, st: State, edges: seq<(Pointer, Pointer)>)
    requires Derived(p, resolve, st) && forall e :: e in edges ==> EdgeSourced(p, st, e.0, e.1)
    ensures Derived(p, resolve, WithEdges(st, edges))
  {
    EdgesAddedShared(st, edges);
    EdgesAddedSourced(p, resolve, st, edges);
    EdgesAddedObjs(p, resolve, st, edges);
    DerivedStep(p, resolve, st, WithEdges(st, edges));
  }

  /** `workList.addEntry` of objects that each have a rule instance for the target. */
  lemma EnqueueDerived(p: Program, resolve: Resolver, st: State, target: Pointer, objs: set<ObjId>)
    requires Derived(p, resolve, st) && forall o :: o in objs ==> ObjSourced(p, resolve, st, target, o)
    ensures Derived(p, resolve, st.(workList := st.workList + [Entry(target, Delta(objs))]))
  {
    var st' := st.(workList := st.workList + [Entry(target, Delta(objs))]);
    assert FactsGrow(st, st');
    SourcedMono(p, resolve, st, st');
    forall i | 0 <= i < |st'.workList| && st'.workList[i].payload.Shared?
      ensures HasEdge(st', st'.workList[i].payload.source, st'.workList[i].pointer)
    {
      assert st'.workList[i] == st.workList[i];
    }
    forall t, o | Reaches(st', t, o) ensures Reaches(st, t, o) || ObjSourced(p, resolve, st', t, o) {
      if o !in PointsTo(st'.pt, t) {
        var i :| 0 <= i < |st'.workList| && st'.workList[i].pointer == t && o in Objs(st'.workList[i].payload, st'.pt);
        if i < |st.workList| {
          assert st'.workList[i] == st.workList[i];
        }
      }
    }
    DerivedStep(p, resolve, st, st');
  }

  /** A method with a rule instance becoming reachable. */
  lemma ReachedDerived(p: Program, resolve: Resolver, st: State, m: MethodId)
    requires Derived(p, resolve, st) && MethodSourced(p, st, m)
    ensures Derived(p, resolve, st.(reachable := st.reachable + {m}))
  {
    var st' := st.(reachable := st.reachable + {m});
    assert FactsGrow(st, st');
    SourcedMono(p, resolve, st, st');
    DerivedStep(p, resolve, st, st');
  }

  /** A call edge with a rule instance joining the call graph. */
  lemma CallEdgeDerived(p: Program, resolve: Resolver, st: State, e: CHA.CallEdge)
    requires Derived(p, resolve, st) && CallEdgeSourced(p, resolve, st, e)
    ensures Derived(p, resolve, st.(callEdges := st.callEdges + {e}))
  {
    var st' := st.(callEdges := st.callEdges + {e});
    assert FactsGrow(st, st');
    SourcedMono(p, resolve, st, st');
    DerivedStep(p, resolve, st, st');
  }

  /** Polling the first entry and propagating it: the objects that join the polled pointer's set
      were pending for it, and the entries appended carry them along the pointer's edges. */
  lemma PollDerived(p: Program, resolve: Resolver, st: State, st': State, delta: set<ObjId>)
    requires Derived(p, resolve, st) && st.workList != []
    requires var e := st.workList[0];
      var pts := Objs(e.payload, st.pt);
      delta == pts - PointsTo(st.pt, e.pointer) &&
      st'.pt == Propagated(st.pt, e.pointer, pts) &&
      st'.succs == st.succs && st'.reachable == st.reachable && st'.callEdges == st.callEdges &&
      Extends(st.workList[1..], st'.workList) &&
      (if delta == {} then st'.workList == st.workList[1..]
       else EnqueuedOnce(st'.workList[|st.workList| - 1..], SuccsOf(st.succs, e.pointer), delta))
    ensures Derived(p, resolve, st')
  {
    var e := st.workList[0];
    var wl := st.workList[1..];
    var pts := Objs(e.payload, st.pt);
    assert PointsTo(st'.pt, e.pointer) == PointsTo(st.pt, e.pointer) + pts by {
      if pts - PointsTo(st.pt, e.pointer) == {} {
        forall x | x in pts ensures x in PointsTo(st.pt, e.pointer) {
          assert x !in pts - PointsTo(st.pt, e.pointer);
        }
      }
    }
    assert PtGrows(st.pt, st'.pt);
    assert FactsGrow(st, st');
    SourcedMono(p, resolve, st, st');
    forall i | 0 <= i < |st'.workList| && st'.workList[i].payload.Shared?
      ensures HasEdge(st', st'.workList[i].payload.source, st'.workList[i].pointer)
    {
      assert i < |wl|;
      assert st'.workList[i] == st.workList[i + 1];
    }
    forall t, o | Reaches(st', t, o) ensures Reaches(st, t, o) || ObjSourced(p, resolve, st', t, o) {
      if o in PointsTo(st'.pt, t) {
        if o !in PointsTo(st.pt, t) {
          assert t == e.pointer && o in pts;
          assert st.workList[0].pointer == t && o in Objs(st.workList[0].payload, st.pt);
        }
      } else {
        var i :| 0 <= i < |st'.workList| && st'.workList[i].pointer == t && o in Objs(st'.workList[i].payload, st'.pt);
        if st'.workList[i].payload.Shared? {
          assert FlowsFrom(st', st'.workList[i].payload.source, t, o);
        } else if i < |wl| {
          assert st'.workList[i] == st.workList[i + 1];
        } else {
          var added := st'.workList[|wl|..];
          assert st'.workList[i] == added[i - |wl|];
          assert FlowsFrom(st', e.pointer, t, o);
        }
      }
    }
    DerivedStep(p, resolve, st, st');
  }
}
