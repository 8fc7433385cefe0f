/** The program a context-insensitive pointer analysis runs on, and the state it builds: pointers,
    their points-to sets, the pointer flow graph and the work list of pending points-to sets.
    Everything here is a value; the solver that updates them in place is in `PtaSolver`. */
module PtaModel {
  import opened Wrappers
  import CHA

  type VarId = nat
  type ObjId = nat
  type FieldId = nat
  type MethodId = nat

  /** The nodes of the pointer flow graph: a variable, a field of an abstract object, a static
      field, and the single element slot of an abstract array. */
  datatype Pointer =
    | VarPtr(v: VarId)
    | InstanceField(base: ObjId, field: FieldId)
    | StaticField(field: FieldId)
    | ArrayIndex(array: ObjId)

  /** The statements the analysis looks at. A `New` carries the abstract object the heap model
      gives its allocation site; a field access without a base is static; an `Invoke` carries its
      call kind and, for a static call, the method its reference resolves to. */
  datatype Stmt =
    | New(newLhs: Option<VarId>, obj: ObjId)
    | Copy(lhs: VarId, rhs: VarId)
    | StoreField(fieldBase: Option<VarId>, field: FieldId, rhs: VarId)
    | LoadField(lhs: VarId, fieldBase: Option<VarId>, field: FieldId)
    | StoreArray(arrayBase: VarId, rhs: VarId)
    | LoadArray(lhs: VarId, arrayBase: VarId)
    | Invoke(kind: CHA.CallKind, result: Option<VarId>, receiver: Option<VarId>, methodRef: MethodId, args: seq<VarId>)
    | Other

  /** A method's IR: its parameters, `this`, the variables it returns and its statements. */
  datatype Method = Method(params: seq<VarId>, thisVar: VarId, returnVars: seq<VarId>, stmts: seq<Stmt>)

  /** The program: its methods, and the main method the analysis starts from. Every statically
      resolved call names a method of the program; a static call has no receiver and passes one
      argument per parameter. */
  datatype Program = Program(methods: seq<Method>, main: MethodId)
  {
    predicate Valid()
    {
      main < |methods| &&
      forall m, i :: 0 <= m < |methods| && 0 <= i < |methods[m].stmts| && methods[m].stmts[i].Invoke? ==>
        methods[m].stmts[i].methodRef < |methods| &&
        (methods[m].stmts[i].kind == CHA.STATIC ==>
           methods[m].stmts[i].receiver.None? &&
           |methods[m].stmts[i].args| == |methods[methods[m].stmts[i].methodRef].params|)
    }
  }

  /** Statement `index` of method `owner`. */
  datatype StmtRef = StmtRef(owner: MethodId, index: nat)

  datatype Located = Located(ref: StmtRef, stmt: Stmt)

  /** The statements of method `m`, each with where it is. */
  function StmtsOf(methods: seq<Method>, m: nat): (r: seq<Located>)
    requires m < |methods|
    ensures forall l :: l in r <==> l.ref.owner == m && l.ref.index < |methods[m].stmts| && l.stmt == methods[m].stmts[l.ref.index]
  {
    var r := seq(|methods[m].stmts|, i requires 0 <= i < |methods[m].stmts| => Located(StmtRef(m, i), methods[m].stmts[i]));
    assert forall i :: 0 <= i < |r| ==> r[i] == Located(StmtRef(m, i), methods[m].stmts[i]);
    assert forall l: Located :: l.ref.owner == m && l.ref.index < |methods[m].stmts| && l.stmt == methods[m].stmts[l.ref.index] ==>
      r[l.ref.index] == l;
    r
  }

  /** The statements of the first `n` methods, method by method. */
  function AllStmts(methods: seq<Method>, n: nat): (r: seq<Located>)
    requires n <= |methods|
    ensures forall l :: l in r <==>
      l.ref.owner < n && l.ref.index < |methods[l.ref.owner].stmts| && l.stmt == methods[l.ref.owner].stmts[l.ref.index]
  {
    if n == 0 then [] else AllStmts(methods, n - 1) + StmtsOf(methods, n - 1)
  }

  /** The statements `keep` selects, in order. */
  function Select(ls: seq<Located>, keep: Stmt -> bool): (r: seq<Located>)
    ensures forall l :: l in r <==> l in ls && keep(l.stmt)
  {
    if ls == [] then []
    else (if keep(ls[0].stmt) then [ls[0]] else []) + Select(ls[1..], keep)
  }

  /** Every statement of the program whose kind and variable `keep` selects. */
  function StmtsWhere(p: Program, keep: Stmt -> bool): (r: seq<Located>)
    ensures forall l :: l in r <==>
      l.ref.owner < |p.methods| && l.ref.index < |p.methods[l.ref.owner].stmts| &&
      l.stmt == p.methods[l.ref.owner].stmts[l.ref.index] && keep(l.stmt)
  {
    Select(AllStmts(p.methods, |p.methods|), keep)
  }

  /** `l` is statement `l.ref.index` of method `l.ref.owner`. */
  predicate InProgram(p: Program, l: Located)
  {
    l.ref.owner < |p.methods| && l.ref.index < |p.methods[l.ref.owner].stmts| &&
    l.stmt == p.methods[l.ref.owner].stmts[l.ref.index]
  }

  /** `x.f = y`, `y = x.f`, `x[i] = y`, `y = x[i]` and `x.m(...)` with `x` the given variable:
      `getStoreFields`, `getLoadFields`, `getStoreArrays`, `getLoadArrays`, `getInvokes`. */
  function StoreFieldsOn(p: Program, v: VarId): (r: seq<Located>)
    ensures forall l :: l in r <==> InProgram(p, l) && l.stmt.StoreField? && l.stmt.fieldBase == Some(v)
  {
    StmtsWhere(p, (s: Stmt) => s.StoreField? && s.fieldBase == Some(v))
  }

  function LoadFieldsOn(p: Program, v: VarId): (r: seq<Located>)
    ensures forall l :: l in r <==> InProgram(p, l) && l.stmt.LoadField? && l.stmt.fieldBase == Some(v)
  {
    StmtsWhere(p, (s: Stmt) => s.LoadField? && s.fieldBase == Some(v))
  }

  function StoreArraysOn(p: Program, v: VarId): (r: seq<Located>)
    ensures forall l :: l in r <==> InProgram(p, l) && l.stmt.StoreArray? && l.stmt.arrayBase == v
  {
    StmtsWhere(p, (s: Stmt) => s.StoreArray? && s.arrayBase == v)
  }

  function LoadArraysOn(p: Program, v: VarId): (r: seq<Located>)
    ensures forall l :: l in r <==> InProgram(p, l) && l.stmt.LoadArray? && l.stmt.arrayBase == v
  {
    StmtsWhere(p, (s: Stmt) => s.LoadArray? && s.arrayBase == v)
  }

  function InvokesOn(p: Program, v: VarId): (r: seq<Located>)
    ensures forall l :: l in r <==> InProgram(p, l) && l.stmt.Invoke? && l.stmt.receiver == Some(v)
  {
    StmtsWhere(p, (s: Stmt) => s.Invoke? && s.receiver == Some(v))
  }

  // ---------------------------------------------------------------- solver state

  /** What a work-list entry carries: a set of objects, or the points-to set of another pointer
      itself, which keeps growing while the entry waits (the pointer flow graph enqueues a
      source's own set when it adds an edge). */
  datatype Payload = Delta(objs: set<ObjId>) | Shared(source: Pointer)

  datatype Entry = Entry(pointer: Pointer, payload: Payload)

  /** A pointer's points-to set; a pointer not yet in the map has an empty one. */
  function PointsTo(pt: map<Pointer, set<ObjId>>, p: Pointer): set<ObjId>
  {
    if p in pt then pt[p] else {}
  }

  /** A pointer's successors in the pointer flow graph. */
  function SuccsOf(succs: map<Pointer, set<Pointer>>, p: Pointer): set<Pointer>
  {
    if p in succs then succs[p] else {}
  }

  /** The objects an entry would propagate if it were polled now. */
  function Objs(payload: Payload, pt: map<Pointer, set<ObjId>>): set<ObjId>
  {
    match payload
    case Delta(objs) => objs
    case Shared(source) => PointsTo(pt, source)
  }

  /** Object `o` waits in the work list to be propagated to `t`. */
  predicate Pending(wl: seq<Entry>, pt: map<Pointer, set<ObjId>>, t: Pointer, o: ObjId)
  {
    exists i :: 0 <= i < |wl| && wl[i].pointer == t && o in Objs(wl[i].payload, pt)
  }

  /** No points-to set ever loses an object. */
  ghost predicate PtGrows(pt: map<Pointer, set<ObjId>>, pt': map<Pointer, set<ObjId>>)
  {
    forall p :: PointsTo(pt, p) <= PointsTo(pt', p)
  }

  /** No edge of the pointer flow graph is ever removed. */
  ghost predicate SuccsGrow(succs: map<Pointer, set<Pointer>>, succs': map<Pointer, set<Pointer>>)
  {
    forall p :: SuccsOf(succs, p) <= SuccsOf(succs', p)
  }

  /** The work list only had entries appended. */
  predicate Extends(wl: seq<Entry>, wl': seq<Entry>)
  {
    |wl| <= |wl'| && wl'[..|wl|] == wl
  }

  /** The inclusion constraint of every pointer-flow edge holds, up to what is still pending:
      each object of a source's points-to set is in its target's, or waits to be propagated to it. */
  ghost predicate Flows(succs: map<Pointer, set<Pointer>>, pt: map<Pointer, set<ObjId>>, wl: seq<Entry>)
  {
    forall s, t, o :: t in SuccsOf(succs, s) && o in PointsTo(pt, s) ==> o in PointsTo(pt, t) || Pending(wl, pt, t, o)
  }

  /** What is pending stays pending while the work list only grows at its end and points-to sets
      only grow. */
  lemma PendingMono(wl: seq<Entry>, wl': seq<Entry>, pt: map<Pointer, set<ObjId>>, pt': map<Pointer, set<ObjId>>,
                    t: Pointer, o: ObjId)
    requires Extends(wl, wl') && PtGrows(pt, pt')
    requires Pending(wl, pt, t, o)
    ensures Pending(wl', pt', t, o)
  {
    var i :| 0 <= i < |wl| && wl[i].pointer == t && o in Objs(wl[i].payload, pt);
    assert wl'[i] == wl[i];
  }

  /** Appending to the work list keeps the flow constraints. */
  lemma FlowsAppend(succs: map<Pointer, set<Pointer>>, pt: map<Pointer, set<ObjId>>, wl: seq<Entry>, wl': seq<Entry>)
    requires Flows(succs, pt, wl) && Extends(wl, wl')
    ensures Flows(succs, pt, wl')
  {
    forall s, t, o | t in SuccsOf(succs, s) && o in PointsTo(pt, s) && o !in PointsTo(pt, t)
      ensures Pending(wl', pt, t, o)
    {
      PendingMono(wl, wl', pt, pt, t, o);
    }
  }

  /** `addPFGEdge` on a new edge keeps the flow constraints: a source with a non-empty points-to
      set enqueues that set for the target. */
  lemma FlowsAddEdge(succs: map<Pointer, set<Pointer>>, pt: map<Pointer, set<ObjId>>, wl: seq<Entry>,
                     source: Pointer, target: Pointer)
    requires Flows(succs, pt, wl)
    ensures Flows(succs[source := SuccsOf(succs, source) + {target}], pt,
                  wl + if PointsTo(pt, source) != {} then [Entry(target, Shared(source))] else [])
  {
    var succs' := succs[source := SuccsOf(succs, source) + {target}];
    var wl' := wl + if PointsTo(pt, source) != {} then [Entry(target, Shared(source))] else [];
    forall s, t, o | t in SuccsOf(succs', s) && o in PointsTo(pt, s) && o !in PointsTo(pt, t)
      ensures Pending(wl', pt, t, o)
    {
      if s == source && t == target {
        assert wl'[|wl|] == Entry(target, Shared(source));
      } else {
        assert t in SuccsOf(succs, s);
        PendingMono(wl, wl', pt, pt, t, o);
      }
    }
  }

  /** The entries `propagate` appends: one `(t, delta)` for each successor `t`, and no other. */
  predicate EnqueuedOnce(added: seq<Entry>, targets: set<Pointer>, delta: set<ObjId>)
  {
    |added| == |targets| &&
    (forall i :: 0 <= i < |added| ==> added[i].payload == Delta(delta) && added[i].pointer in targets) &&
    (forall t :: t in targets ==> exists i :: 0 <= i < |added| && added[i].pointer == t)
  }

  /** Enqueuing `delta` for one more successor. */
  lemma EnqueueStep(added: seq<Entry>, done: set<Pointer>, t: Pointer, delta: set<ObjId>)
    requires EnqueuedOnce(added, done, delta) && t !in done
    ensures EnqueuedOnce(added + [Entry(t, Delta(delta))], done + {t}, delta)
  {
    var added' := added + [Entry(t, Delta(delta))];
    forall u | u in done + {t} ensures exists i :: 0 <= i < |added'| && added'[i].pointer == u {
      if u == t {
        assert added'[|added|].pointer == u;
      } else {
        var i :| 0 <= i < |added| && added[i].pointer == u;
        assert added'[i].pointer == u;
      }
    }
  }

  /** Polling an entry for `p` and propagating it keeps the flow constraints: the polled objects
      join `p`'s points-to set, and the new ones are enqueued for every successor of `p`. */
  lemma FlowsPropagate(succs: map<Pointer, set<Pointer>>, pt: map<Pointer, set<ObjId>>, e: Entry, wl: seq<Entry>,
                       added: seq<Entry>)
    requires Flows(succs, pt, [e] + wl)
    requires var delta := Objs(e.payload, pt) - PointsTo(pt, e.pointer);
      if delta == {} then added == [] else EnqueuedOnce(added, SuccsOf(succs, e.pointer), delta)
    ensures var pts := Objs(e.payload, pt);
      var pt' := if pts - PointsTo(pt, e.pointer) == {} then pt else pt[e.pointer := PointsTo(pt, e.pointer) + pts];
      Flows(succs, pt', wl + added) && PtGrows(pt, pt')
  {
    var p := e.pointer;
    var pts := Objs(e.payload, pt);
    var delta := pts - PointsTo(pt, p);
    var pt' := if delta == {} then pt else pt[p := PointsTo(pt, p) + pts];
    assert PointsTo(pt', p) == PointsTo(pt, p) + pts by {
      if delta == {} {
        forall o | o in pts ensures o in PointsTo(pt, p) {
          assert o !in delta;
        }
      }
    }
    assert PtGrows(pt, pt');
    var wl' := wl + added;
    assert Extends(wl, wl');
    forall s, t, o | t in SuccsOf(succs, s) && o in PointsTo(pt', s)
      ensures o in PointsTo(pt', t) || Pending(wl', pt', t, o)
    {
      if s == p && o in delta {
        var i :| 0 <= i < |added| && added[i].pointer == t;
        assert wl'[|wl| + i] == added[i];
      } else {
        assert o in PointsTo(pt, s);
        if o in PointsTo(pt, t) {
          assert PointsTo(pt, t) <= PointsTo(pt', t);
        } else {
          var i :| 0 <= i < |[e] + wl| && ([e] + wl)[i].pointer == t && o in Objs(([e] + wl)[i].payload, pt);
          if i == 0 {
            assert o in PointsTo(pt', p);
          } else {
            assert wl[i - 1] == ([e] + wl)[i];
            PendingMono(wl, wl', pt, pt', t, o);
          }
        }
      }
    }
  }

  /** `propagate`'s effect on the points-to sets: `p` gains the objects it did not have. */
  function Propagated(pt: map<Pointer, set<ObjId>>, p: Pointer, pts: set<ObjId>): map<Pointer, set<ObjId>>
  {
    if pts - PointsTo(pt, p) == {} then pt else pt[p := PointsTo(pt, p) + pts]
  }

  /** The targets of the pairs of `edges` whose source is `s`. */
  function Targets(edges: seq<(Pointer, Pointer)>, s: Pointer): set<Pointer>
  {
    set e | e in edges && e.0 == s :: e.1
  }

  lemma TargetsSnoc(edges: seq<(Pointer, Pointer)>, last: (Pointer, Pointer))
    ensures forall s :: Targets(edges + [last], s) == Targets(edges, s) + if s == last.0 then {last.1} else {}
  {
    forall s ensures Targets(edges + [last], s) == Targets(edges, s) + if s == last.0 then {last.1} else {} {
      forall t | t in Targets(edges + [last], s) ensures t in Targets(edges, s) + if s == last.0 then {last.1} else {} {
        var e :| e in edges + [last] && e.0 == s && e.1 == t;
      }
    }
  }

  /** `addPFGEdge` for each pair of `edges` in turn, starting from the successors `succs`: the
      successors afterwards, and the entries appended to the work list on the way (the points-to
      sets `pt` stay as they are). */
  function EdgesAdded(succs: map<Pointer, set<Pointer>>, pt: map<Pointer, set<ObjId>>, edges: seq<(Pointer, Pointer)>)
    : (map<Pointer, set<Pointer>>, seq<Entry>)
    decreases |edges|
  {
    if edges == [] then (succs, [])
    else
      var r := EdgesAdded(succs, pt, edges[..|edges| - 1]);
      var last := edges[|edges| - 1];
      if last.1 in SuccsOf(r.0, last.0) then r
      else (r.0[last.0 := SuccsOf(r.0, last.0) + {last.1}],
            r.1 + if PointsTo(pt, last.0) != {} then [Entry(last.1, Shared(last.0))] else [])
  }

  /** Exactly the given pairs become edges. */
  lemma {:induction false} EdgesAddedSuccs(succs: map<Pointer, set<Pointer>>, pt: map<Pointer, set<ObjId>>,
                                           edges: seq<(Pointer, Pointer)>)
    ensures forall s :: SuccsOf(EdgesAdded(succs, pt, edges).0, s) == SuccsOf(succs, s) + Targets(edges, s)
    decreases |edges|
  {
    if edges != [] {
      var front := edges[..|edges| - 1];
      var last := edges[|edges| - 1];
      assert edges == front + [last];
      EdgesAddedSuccs(succs, pt, front);
      TargetsSnoc(front, last);
    }
  }

  /** `x` shares the source's set along a pair of `edges` that is not an edge of `succs` and whose
      source points to something. */
  predicate SharesNewEdge(succs: map<Pointer, set<Pointer>>, pt: map<Pointer, set<ObjId>>, edges: seq<(Pointer, Pointer)>, x: Entry)
  {
    x.payload.Shared? && (x.payload.source, x.pointer) in edges &&
    x.pointer !in SuccsOf(succs, x.payload.source) && PointsTo(pt, x.payload.source) != {}
  }

  /** Every entry appended shares the source's set along a pair of the list that was not yet an
      edge and whose source points to something. */
  lemma {:induction false} EdgesAddedEntries(succs: map<Pointer, set<Pointer>>, pt: map<Pointer, set<ObjId>>,
                                             edges: seq<(Pointer, Pointer)>)
    ensures forall i :: 0 <= i < |EdgesAdded(succs, pt, edges).1| ==> SharesNewEdge(succs, pt, edges, EdgesAdded(succs, pt, edges).1[i])
    decreases |edges|
  {
    if edges != [] {
      var front := edges[..|edges| - 1];
      var last := edges[|edges| - 1];
      assert edges == front + [last];
      EdgesAddedEntries(succs, pt, front);
      var r := EdgesAdded(succs, pt, front);
      EdgesAddedSuccs(succs, pt, front);
      var r' := EdgesAdded(succs, pt, edges);
      forall i | 0 <= i < |r'.1| ensures SharesNewEdge(succs, pt, edges, r'.1[i]) {
        if i < |r.1| {
          assert r'.1[i] == r.1[i];
          assert SharesNewEdge(succs, pt, front, r.1[i]);
        } else {
          assert r'.1[i] == Entry(last.1, Shared(last.0));
        }
      }
    }
  }

  /** Every pair that was not yet an edge and whose source points to something has its entry. */
  lemma {:induction false} EdgesAddedComplete(succs: map<Pointer, set<Pointer>>, pt: map<Pointer, set<ObjId>>,
                                              edges: seq<(Pointer, Pointer)>)
    ensures var r := EdgesAdded(succs, pt, edges);
      forall e :: e in edges && e.1 !in SuccsOf(succs, e.0) && PointsTo(pt, e.0) != {} ==> Entry(e.1, Shared(e.0)) in r.1
    decreases |edges|
  {
    if edges != [] {
      var front := edges[..|edges| - 1];
      var last := edges[|edges| - 1];
      assert edges == front + [last];
      EdgesAddedComplete(succs, pt, front);
      EdgesAddedSuccs(succs, pt, front);
      var r := EdgesAdded(succs, pt, front);
      var r' := EdgesAdded(succs, pt, edges);
      forall e | e in edges && e.1 !in SuccsOf(succs, e.0) && PointsTo(pt, e.0) != {} ensures Entry(e.1, Shared(e.0)) in r'.1 {
        if e in front {
          var i :| 0 <= i < |r.1| && r.1[i] == Entry(e.1, Shared(e.0));
          assert r'.1[i] == r.1[i];
        } else {
          assert e == last;
          assert last.1 !in Targets(front, last.0);
          assert r'.1[|r'.1| - 1] == Entry(e.1, Shared(e.0));
        }
      }
    }
  }

  /** Exactly the given pairs become edges, and an entry is appended exactly for each pair that is
      a new edge and whose source points to something; the entry shares the source's set. */
  lemma EdgesAddedExact(succs: map<Pointer, set<Pointer>>, pt: map<Pointer, set<ObjId>>, edges: seq<(Pointer, Pointer)>)
    ensures var r := EdgesAdded(succs, pt, edges);
      (forall s :: SuccsOf(r.0, s) == SuccsOf(succs, s) + Targets(edges, s)) &&
      (forall i :: 0 <= i < |r.1| ==>
         r.1[i].payload.Shared? && (r.1[i].payload.source, r.1[i].pointer) in edges &&
         r.1[i].pointer !in SuccsOf(succs, r.1[i].payload.source) && PointsTo(pt, r.1[i].payload.source) != {}) &&
      (forall e :: e in edges && e.1 !in SuccsOf(succs, e.0) && PointsTo(pt, e.0) != {} ==> Entry(e.1, Shared(e.0)) in r.1)
  {
    EdgesAddedSuccs(succs, pt, edges);
    EdgesAddedEntries(succs, pt, edges);
    EdgesAddedComplete(succs, pt, edges);
  }

  /** Polling an entry and propagating it loses no object on its way: what was in a points-to set
      or pending stays so. */
  lemma ReachesPropagate(pt: map<Pointer, set<ObjId>>, e: Entry, wl: seq<Entry>, added: seq<Entry>, t: Pointer, o: ObjId)
    requires o in PointsTo(pt, t) || Pending([e] + wl, pt, t, o)
    ensures var pt' := Propagated(pt, e.pointer, Objs(e.payload, pt));
      o in PointsTo(pt', t) || Pending(wl + added, pt', t, o)
  {
    var pts := Objs(e.payload, pt);
    var pt' := Propagated(pt, e.pointer, pts);
    assert PointsTo(pt', e.pointer) == PointsTo(pt, e.pointer) + pts by {
      if pts - PointsTo(pt, e.pointer) == {} {
        forall x | x in pts ensures x in PointsTo(pt, e.pointer) {
          assert x !in pts - PointsTo(pt, e.pointer);
        }
      }
    }
    assert PtGrows(pt, pt');
    if o !in PointsTo(pt, t) {
      var i :| 0 <= i < |[e] + wl| && ([e] + wl)[i].pointer == t && o in Objs(([e] + wl)[i].payload, pt);
      if i > 0 {
        assert wl[i - 1] == ([e] + wl)[i];
        PendingMono(wl, wl + added, pt, pt', t, o);
      }
    }
  }

  // ---------------------------------------------------------------- what the analysis establishes

  /** What the solver has built: the reachable methods, the pointer flow graph, the points-to
      sets, the work list and the edges of the call graph. */
  datatype State = State(reachable: set<MethodId>, succs: map<Pointer, set<Pointer>>, pt: map<Pointer, set<ObjId>>,
                         workList: seq<Entry>, callEdges: set<CHA.CallEdge>)

  /** `o` is in `t`'s points-to set or on its way there. */
  predicate Reaches(st: State, t: Pointer, o: ObjId)
  {
    o in PointsTo(st.pt, t) || Pending(st.workList, st.pt, t, o)
  }

  predicate HasEdge(st: State, s: Pointer, t: Pointer)
  {
    t in SuccsOf(st.succs, s)
  }

  /** Nothing the solver has established is ever taken back. */
  ghost predicate Grows(st: State, st': State)
  {
    st.reachable <= st'.reachable && SuccsGrow(st.succs, st'.succs) && st.callEdges <= st'.callEdges &&
    PtGrows(st.pt, st'.pt) && forall t, o :: Reaches(st, t, o) ==> Reaches(st', t, o)
  }

  lemma GrowsTrans(st: State, st': State, st'': State)
    requires Grows(st, st') && Grows(st', st'')
    ensures Grows(st, st'')
  {
    assert SuccsGrow(st.succs, st''.succs) by {
      forall p ensures SuccsOf(st.succs, p) <= SuccsOf(st''.succs, p) {
        assert SuccsOf(st.succs, p) <= SuccsOf(st'.succs, p);
      }
    }
    assert PtGrows(st.pt, st''.pt) by {
      forall p ensures PointsTo(st.pt, p) <= PointsTo(st''.pt, p) {
        assert PointsTo(st.pt, p) <= PointsTo(st'.pt, p);
      }
    }
  }

  /** Adding edges, entries at the end of the work list, reachable methods or call edges, while
      no points-to set changes, loses nothing. */
  lemma GrowsByAppend(st: State, st': State)
    requires st.reachable <= st'.reachable && SuccsGrow(st.succs, st'.succs) && st.callEdges <= st'.callEdges
    requires st'.pt == st.pt && Extends(st.workList, st'.workList)
    ensures Grows(st, st')
  {
    forall t, o | Reaches(st, t, o) ensures Reaches(st', t, o) {
      if o !in PointsTo(st.pt, t) {
        PendingMono(st.workList, st'.workList, st.pt, st'.pt, t, o);
      }
    }
  }

  /** The edges a call to `callee` adds, which `addReachable` adds for a static call and
      `processCall` for a new call edge: the callee is reachable, each argument flows to its
      parameter and, when the call has a result, each returned variable to it. */
  ghost predicate CallBound(p: Program, st: State, args: seq<VarId>, result: Option<VarId>, callee: MethodId)
    requires callee < |p.methods|
  {
    callee in st.reachable &&
    (forall i :: 0 <= i < |args| && i < |p.methods[callee].params| ==>
       HasEdge(st, VarPtr(args[i]), VarPtr(p.methods[callee].params[i]))) &&
    (result.Some? ==> forall r :: r in p.methods[callee].returnVars ==> HasEdge(st, VarPtr(r), VarPtr(result.value)))
  }

  /** The edges binding a call to `callee`: each argument to the parameter at its position and,
      when the call has a result variable, each returned variable to it; no return edge for a call
      whose result is unused. */
  function BindEdges(p: Program, args: seq<VarId>, result: Option<VarId>, callee: MethodId): seq<(Pointer, Pointer)>
    requires callee < |p.methods|
  {
    var params := p.methods[callee].params;
    var rets := p.methods[callee].returnVars;
    var n := if |args| < |params| then |args| else |params|;
    seq(n, k requires 0 <= k < n => (VarPtr(args[k]), VarPtr(params[k]))) +
    if result.Some? then seq(|rets|, k requires 0 <= k < |rets| => (VarPtr(rets[k]), VarPtr(result.value))) else []
  }

  /** The binding edges are the argument-to-parameter pairs at equal positions, and the
      returned-variable-to-result pairs when the call has a result, and no others. */
  lemma BindEdgesExact(p: Program, args: seq<VarId>, result: Option<VarId>, callee: MethodId)
    requires callee < |p.methods|
    ensures forall e :: e in BindEdges(p, args, result, callee) <==>
      (exists k :: 0 <= k < |args| && k < |p.methods[callee].params| && e == (VarPtr(args[k]), VarPtr(p.methods[callee].params[k]))) ||
      (result.Some? && exists x :: x in p.methods[callee].returnVars && e == (VarPtr(x), VarPtr(result.value)))
  {
    var params := p.methods[callee].params;
    var rets := p.methods[callee].returnVars;
    var n := if |args| < |params| then |args| else |params|;
    var argEdges := seq(n, k requires 0 <= k < n => (VarPtr(args[k]), VarPtr(params[k])));
    var retEdges := if result.Some? then seq(|rets|, k requires 0 <= k < |rets| => (VarPtr(rets[k]), VarPtr(result.value))) else [];
    assert BindEdges(p, args, result, callee) == argEdges + retEdges;
    forall k | 0 <= k < |args| && k < |params| ensures (VarPtr(args[k]), VarPtr(params[k])) in argEdges {
      assert argEdges[k] == (VarPtr(args[k]), VarPtr(params[k]));
    }
    if result.Some? {
      forall x | x in rets ensures (VarPtr(x), VarPtr(result.value)) in retEdges {
        var k :| 0 <= k < |rets| && rets[k] == x;
        assert retEdges[k] == (VarPtr(x), VarPtr(result.value));
      }
    }
  }
  /** A reachable callee whose binding edges are all edges is bound to the call. */
  lemma BindEdgesBound(p: Program, st: State, args: seq<VarId>, result: Option<VarId>, callee: MethodId)
    requires callee < |p.methods| && callee in st.reachable
    requires forall e :: e in BindEdges(p, args, result, callee) ==> HasEdge(st, e.0, e.1)
    ensures CallBound(p, st, args, result, callee)
  {
    BindEdgesExact(p, args, result, callee);
    var params := p.methods[callee].params;
    forall k | 0 <= k < |args| && k < |params| ensures HasEdge(st, VarPtr(args[k]), VarPtr(params[k])) {
      assert (VarPtr(args[k]), VarPtr(params[k])) in BindEdges(p, args, result, callee);
    }
    if result.Some? {
      forall r | r in p.methods[callee].returnVars ensures HasEdge(st, VarPtr(r), VarPtr(result.value)) {
        assert (VarPtr(r), VarPtr(result.value)) in BindEdges(p, args, result, callee);
      }
    }
  }


  /** The constraint `addReachable` adds for one statement of a reachable method: the allocated
      object flows to the variable, a copy or a static field access is an edge, a static call is
      bound to its callee. Instance field and array accesses and instance calls wait for their
      base variable's objects. */
  ghost predicate StmtRule(p: Program, st: State, s: Stmt)
  {
    match s
    case New(lhs, obj) => lhs.Some? ==> Reaches(st, VarPtr(lhs.value), obj)
    case Copy(x, y) => HasEdge(st, VarPtr(y), VarPtr(x))
    case StoreField(base, f, y) => base.None? ==> HasEdge(st, VarPtr(y), StaticField(f))
    case LoadField(x, base, f) => base.None? ==> HasEdge(st, StaticField(f), VarPtr(x))
    case Invoke(kind, result, _, callee, args) =>
      kind == CHA.STATIC && callee < |p.methods| ==> CallBound(p, st, args, result, callee)
    case _ => true
  }

  /** The edges `addReachable` adds for one statement on its own: a copy, a static field store or
      load, and the binding of a static call. */
  function StmtEdges(p: Program, s: Stmt): seq<(Pointer, Pointer)>
  {
    match s
    case Copy(x, y) => [(VarPtr(y), VarPtr(x))]
    case StoreField(base, f, y) => if base.None? then [(VarPtr(y), StaticField(f))] else []
    case LoadField(x, base, f) => if base.None? then [(StaticField(f), VarPtr(x))] else []
    case Invoke(kind, result, _, callee, args) =>
      if kind == CHA.STATIC && callee < |p.methods| then BindEdges(p, args, result, callee) else []
    case _ => []
  }

  /** The entry `addReachable` enqueues for an allocation with a defined variable. */
  function AllocEntries(s: Stmt): seq<Entry>
  {
    if s.New? && s.newLhs.Some? then [Entry(VarPtr(s.newLhs.value), Delta({s.obj}))] else []
  }

  /** The statements `addReachable` adds nothing for: instance field and array accesses and
      instance calls, which wait for their base's objects, an allocation whose result is unused,
      and every statement the analysis does not look at. */
  predicate Deferred(s: Stmt)
  {
    match s
    case New(lhs, _) => lhs.None?
    case Copy(_, _) => false
    case StoreField(base, _, _) => base.Some?
    case LoadField(_, base, _) => base.Some?
    case StoreArray(_, _) => true
    case LoadArray(_, _) => true
    case Invoke(kind, _, _, _, _) => kind != CHA.STATIC
    case Other => true
  }

  /** Every statement of every reachable method outside `open` has its constraint. */
  ghost predicate ReachableRules(p: Program, st: State, open: set<MethodId>)
  {
    forall m, i :: m in st.reachable && m !in open && m < |p.methods| && 0 <= i < |p.methods[m].stmts| ==>
      StmtRule(p, st, p.methods[m].stmts[i])
  }

  /** The call site a statement reference names. */
  function SiteOf(ref: StmtRef): CHA.CallSiteRef
  {
    CHA.CallSiteRef(ref.owner, ref.index)
  }

  /** `resolveCallee`: the method an instance call dispatches to on a receiver object, if any. */
  type Resolver = (ObjId, StmtRef) -> Option<MethodId>

  /** Resolution only yields methods of the program, with one parameter per argument of the call. */
  ghost predicate ResolverValid(p: Program, resolve: Resolver)
  {
    forall o, r :: resolve(o, r).Some? ==>
      resolve(o, r).value < |p.methods| &&
      (r.owner < |p.methods| && r.index < |p.methods[r.owner].stmts| && p.methods[r.owner].stmts[r.index].Invoke? ==>
         |p.methods[r.owner].stmts[r.index].args| == |p.methods[resolve(o, r).value].params|)
  }

  /** What `processCall` establishes for an instance call `l` dispatched to `m` on receiver `o`:
      the call edge exists and `o` reaches `m`'s `this`. */
  ghost predicate InvokeRule(p: Program, st: State, l: Located, m: MethodId, o: ObjId)
  {
    l.stmt.Invoke? && m < |p.methods| &&
    CHA.CallEdge(l.stmt.kind, SiteOf(l.ref), m) in st.callEdges &&
    Reaches(st, VarPtr(p.methods[m].thisVar), o)
  }

  /** The first `n` calls of `ls` are dispatched on `o`. */
  ghost predicate Dispatched(p: Program, resolve: Resolver, st: State, ls: seq<Located>, n: nat, o: ObjId)
  {
    forall j :: 0 <= j < n && j < |ls| && resolve(o, ls[j].ref).Some? ==> InvokeRule(p, st, ls[j], resolve(o, ls[j].ref).value, o)
  }

  lemma DispatchedMono(p: Program, resolve: Resolver, st: State, st': State, ls: seq<Located>, n: nat, o: ObjId)
    requires Grows(st, st') && Dispatched(p, resolve, st, ls, n, o)
    ensures Dispatched(p, resolve, st', ls, n, o)
  {
    forall j | 0 <= j < n && j < |ls| && resolve(o, ls[j].ref).Some?
      ensures InvokeRule(p, st', ls[j], resolve(o, ls[j].ref).value, o)
    {
      InvokeRuleMono(p, st, st', ls[j], resolve(o, ls[j].ref).value, o);
    }
  }

  /** One more call dispatched, while the state grows. */
  lemma DispatchedStep(p: Program, resolve: Resolver, st: State, st': State, ls: seq<Located>, n: nat, o: ObjId)
    requires Grows(st, st') && Dispatched(p, resolve, st, ls, n, o) && n < |ls|
    requires resolve(o, ls[n].ref).Some? ==> InvokeRule(p, st', ls[n], resolve(o, ls[n].ref).value, o)
    ensures Dispatched(p, resolve, st', ls, n + 1, o)
  {
    DispatchedMono(p, resolve, st, st', ls, n, o);
  }

  lemma DispatchedAll(p: Program, resolve: Resolver, st: State, ls: seq<Located>, o: ObjId)
    requires Dispatched(p, resolve, st, ls, |ls|, o)
    ensures forall l :: l in ls && resolve(o, l.ref).Some? ==> InvokeRule(p, st, l, resolve(o, l.ref).value, o)
  {
    forall l | l in ls && resolve(o, l.ref).Some?
      ensures InvokeRule(p, st, l, resolve(o, l.ref).value, o)
    {
      var j :| 0 <= j < |ls| && ls[j] == l;
    }
  }

  /** The constraints `analyze` adds once `o` is in the points-to set of `v`: `o.f` receives what
      is stored through `v` and flows to what is loaded through it, likewise `o`'s array slot, and
      every call on `v` is dispatched on `o`. */
  ghost predicate HeapRule(p: Program, resolve: Resolver, st: State, v: VarId, o: ObjId)
  {
    (forall l :: l in StoreFieldsOn(p, v) ==> HasEdge(st, VarPtr(l.stmt.rhs), InstanceField(o, l.stmt.field))) &&
    (forall l :: l in LoadFieldsOn(p, v) ==> HasEdge(st, InstanceField(o, l.stmt.field), VarPtr(l.stmt.lhs))) &&
    (forall l :: l in StoreArraysOn(p, v) ==> HasEdge(st, VarPtr(l.stmt.rhs), ArrayIndex(o))) &&
    (forall l :: l in LoadArraysOn(p, v) ==> HasEdge(st, ArrayIndex(o), VarPtr(l.stmt.lhs))) &&
    (forall l :: l in InvokesOn(p, v) && resolve(o, l.ref).Some? ==> InvokeRule(p, st, l, resolve(o, l.ref).value, o))
  }

  /** The pointer-flow edges `analyze` adds once `v` points to `o`: `y -> o.f` for each `v.f = y`,
      `o.f -> y` for each `y = v.f`, `y -> o[*]` for each `v[i] = y`, `o[*] -> y` for each `y = v[i]`. */
  function StoreFieldEdges(p: Program, v: VarId, o: ObjId): (r: seq<(Pointer, Pointer)>)
    ensures forall l :: l in StoreFieldsOn(p, v) ==> (VarPtr(l.stmt.rhs), InstanceField(o, l.stmt.field)) in r
  {
    var ls := StoreFieldsOn(p, v);
    var r := seq(|ls|, k requires 0 <= k < |ls| => (VarPtr(ls[k].stmt.rhs), InstanceField(o, ls[k].stmt.field)));
    assert forall l :: l in ls ==> exists k :: 0 <= k < |ls| && ls[k] == l && r[k] == (VarPtr(l.stmt.rhs), InstanceField(o, l.stmt.field));
    r
  }

  function LoadFieldEdges(p: Program, v: VarId, o: ObjId): (r: seq<(Pointer, Pointer)>)
    ensures forall l :: l in LoadFieldsOn(p, v) ==> (InstanceField(o, l.stmt.field), VarPtr(l.stmt.lhs)) in r
  {
    var ls := LoadFieldsOn(p, v);
    var r := seq(|ls|, k requires 0 <= k < |ls| => (InstanceField(o, ls[k].stmt.field), VarPtr(ls[k].stmt.lhs)));
    assert forall l :: l in ls ==> exists k :: 0 <= k < |ls| && ls[k] == l && r[k] == (InstanceField(o, l.stmt.field), VarPtr(l.stmt.lhs));
    r
  }

  function StoreArrayEdges(p: Program, v: VarId, o: ObjId): (r: seq<(Pointer, Pointer)>)
    ensures forall l :: l in StoreArraysOn(p, v) ==> (VarPtr(l.stmt.rhs), ArrayIndex(o)) in r
  {
    var ls := StoreArraysOn(p, v);
    var r := seq(|ls|, k requires 0 <= k < |ls| => (VarPtr(ls[k].stmt.rhs), ArrayIndex(o)));
    assert forall l :: l in ls ==> exists k :: 0 <= k < |ls| && ls[k] == l && r[k] == (VarPtr(l.stmt.rhs), ArrayIndex(o));
    r
  }

  function LoadArrayEdges(p: Program, v: VarId, o: ObjId): (r: seq<(Pointer, Pointer)>)
    ensures forall l :: l in LoadArraysOn(p, v) ==> (ArrayIndex(o), VarPtr(l.stmt.lhs)) in r
  {
    var ls := LoadArraysOn(p, v);
    var r := seq(|ls|, k requires 0 <= k < |ls| => (ArrayIndex(o), VarPtr(ls[k].stmt.lhs)));
    assert forall l :: l in ls ==> exists k :: 0 <= k < |ls| && ls[k] == l && r[k] == (ArrayIndex(o), VarPtr(l.stmt.lhs));
    r
  }

  /** Every edge `analyze` adds once `v` points to `o`. */
  function HeapEdges(p: Program, v: VarId, o: ObjId): seq<(Pointer, Pointer)>
  {
    StoreFieldEdges(p, v, o) + LoadFieldEdges(p, v, o) + StoreArrayEdges(p, v, o) + LoadArrayEdges(p, v, o)
  }

  /** Edges, once added, stay. */
  lemma EdgesKept(st: State, st': State, edges: seq<(Pointer, Pointer)>)
    requires Grows(st, st') && forall e :: e in edges ==> HasEdge(st, e.0, e.1)
    ensures forall e :: e in edges ==> HasEdge(st', e.0, e.1)
  {
    forall e | e in edges ensures HasEdge(st', e.0, e.1) {
      assert SuccsOf(st.succs, e.0) <= SuccsOf(st'.succs, e.0);
    }
  }

  /** Every object of every variable's points-to set has its heap constraints, except the objects
      `pend` of `v0`, which `analyze` is still processing. */
  ghost predicate HeapRulesExcept(p: Program, resolve: Resolver, st: State, v0: VarId, pend: set<ObjId>)
  {
    forall v, o :: o in PointsTo(st.pt, VarPtr(v)) && !(v == v0 && o in pend) ==> HeapRule(p, resolve, st, v, o)
  }

  /** A call edge's site is a call of the program and the call is bound to the edge's callee. */
  ghost predicate EdgeRule(p: Program, st: State, e: CHA.CallEdge)
  {
    var r := e.callSite;
    r.caller < |p.methods| && r.index < |p.methods[r.caller].stmts| && p.methods[r.caller].stmts[r.index].Invoke? &&
    e.callee < |p.methods| &&
    CallBound(p, st, p.methods[r.caller].stmts[r.index].args, p.methods[r.caller].stmts[r.index].result, e.callee)
  }

  /** Every call edge outside `skip` is bound. */
  ghost predicate EdgeRulesExcept(p: Program, st: State, skip: set<CHA.CallEdge>)
  {
    forall e :: e in st.callEdges && e !in skip ==> EdgeRule(p, st, e)
  }

  lemma CallBoundMono(p: Program, st: State, st': State, args: seq<VarId>, result: Option<VarId>, callee: MethodId)
    requires callee < |p.methods| && Grows(st, st') && CallBound(p, st, args, result, callee)
    ensures CallBound(p, st', args, result, callee)
  {
  }

  lemma {:induction false} StmtRuleMono(p: Program, st: State, st': State, s: Stmt)
    requires Grows(st, st') && StmtRule(p, st, s)
    ensures StmtRule(p, st', s)
  {
    if s.Invoke? && s.kind == CHA.STATIC && s.methodRef < |p.methods| {
      CallBoundMono(p, st, st', s.args, s.result, s.methodRef);
    }
  }

  lemma InvokeRuleMono(p: Program, st: State, st': State, l: Located, m: MethodId, o: ObjId)
    requires Grows(st, st') && InvokeRule(p, st, l, m, o)
    ensures InvokeRule(p, st', l, m, o)
  {
  }

  lemma HeapRuleMono(p: Program, resolve: Resolver, st: State, st': State, v: VarId, o: ObjId)
    requires Grows(st, st') && HeapRule(p, resolve, st, v, o)
    ensures HeapRule(p, resolve, st', v, o)
  {
    forall l | l in InvokesOn(p, v) && resolve(o, l.ref).Some?
      ensures InvokeRule(p, st', l, resolve(o, l.ref).value, o)
    {
      InvokeRuleMono(p, st, st', l, resolve(o, l.ref).value, o);
    }
  }

  lemma EdgeRuleMono(p: Program, st: State, st': State, e: CHA.CallEdge)
    requires Grows(st, st') && EdgeRule(p, st, e)
    ensures EdgeRule(p, st', e)
  {
    var r := e.callSite;
    CallBoundMono(p, st, st', p.methods[r.caller].stmts[r.index].args, p.methods[r.caller].stmts[r.index].result, e.callee);
  }

  /** A step that only adds edges or work-list entries keeps every established constraint. */
  lemma RulesKept(p: Program, resolve: Resolver, st: State, st': State)
    requires Grows(st, st') && st'.reachable == st.reachable && st'.pt == st.pt && st'.callEdges == st.callEdges
    ensures forall open :: ReachableRules(p, st, open) ==> ReachableRules(p, st', open)
    ensures forall v0, pend :: HeapRulesExcept(p, resolve, st, v0, pend) ==> HeapRulesExcept(p, resolve, st', v0, pend)
    ensures forall skip :: EdgeRulesExcept(p, st, skip) ==> EdgeRulesExcept(p, st', skip)
  {
    forall open | ReachableRules(p, st, open) ensures ReachableRules(p, st', open) {
      ReachableRulesMono(p, st, st', open, open);
    }
    forall v0, pend | HeapRulesExcept(p, resolve, st, v0, pend) ensures HeapRulesExcept(p, resolve, st', v0, pend) {
      HeapRulesMono(p, resolve, st, st', v0, pend);
    }
    forall skip | EdgeRulesExcept(p, st, skip) ensures EdgeRulesExcept(p, st', skip) {
      EdgeRulesMono(p, st, st', skip);
    }
  }

  /** The statement constraints survive growth, for methods that were already finished. */
  lemma ReachableRulesMono(p: Program, st: State, st': State, open: set<MethodId>, open': set<MethodId>)
    requires Grows(st, st') && ReachableRules(p, st, open)
    requires open <= open' && st'.reachable <= st.reachable + open'
    ensures ReachableRules(p, st', open')
  {
    forall m, i | m in st'.reachable && m !in open' && m < |p.methods| && 0 <= i < |p.methods[m].stmts|
      ensures StmtRule(p, st', p.methods[m].stmts[i])
    {
      StmtRuleMono(p, st, st', p.methods[m].stmts[i]);
    }
  }

  lemma HeapRulesMono(p: Program, resolve: Resolver, st: State, st': State, v0: VarId, pend: set<ObjId>)
    requires Grows(st, st') && HeapRulesExcept(p, resolve, st, v0, pend) && st'.pt == st.pt
    ensures HeapRulesExcept(p, resolve, st', v0, pend)
  {
    forall v, o | o in PointsTo(st'.pt, VarPtr(v)) && !(v == v0 && o in pend)
      ensures HeapRule(p, resolve, st', v, o)
    {
      HeapRuleMono(p, resolve, st, st', v, o);
    }
  }

  lemma EdgeRulesMono(p: Program, st: State, st': State, skip: set<CHA.CallEdge>)
    requires Grows(st, st') && EdgeRulesExcept(p, st, skip) && st'.callEdges == st.callEdges
    ensures EdgeRulesExcept(p, st', skip)
  {
    forall e | e in st'.callEdges && e !in skip ensures EdgeRule(p, st', e) {
      EdgeRuleMono(p, st, st', e);
    }
  }

  /** A new call edge joins the edges still being bound. */
  lemma EdgeRulesGrow(p: Program, st: State, st': State, skip: set<CHA.CallEdge>, skip': set<CHA.CallEdge>)
    requires Grows(st, st') && EdgeRulesExcept(p, st, skip)
    requires skip <= skip' && st'.callEdges <= st.callEdges + skip'
    ensures EdgeRulesExcept(p, st', skip')
  {
    forall e | e in st'.callEdges && e !in skip' ensures EdgeRule(p, st', e) {
      EdgeRuleMono(p, st, st', e);
    }
  }

  /** One iteration of `analyze` up to its loop over the new objects: polling the first entry and
      propagating it keeps the flow constraints and everything established, except the heap
      constraints of the objects just added to a variable's points-to set. */
  lemma PollStep(p: Program, resolve: Resolver, st: State, st': State, delta: set<ObjId>)
    requires Invariant(p, resolve, st) && st.workList != []
    requires var e := st.workList[0];
      var pts := Objs(e.payload, st.pt);
      delta == pts - PointsTo(st.pt, e.pointer) &&
      st'.pt == Propagated(st.pt, e.pointer, pts) &&
      st'.succs == st.succs && st'.reachable == st.reachable && st'.callEdges == st.callEdges &&
      Extends(st.workList[1..], st'.workList) &&
      (if delta == {} then st'.workList == st.workList[1..]
       else EnqueuedOnce(st'.workList[|st.workList| - 1..], SuccsOf(st.succs, e.pointer), delta))
    ensures Grows(st, st') && Flows(st'.succs, st'.pt, st'.workList)
    ensures ReachableRules(p, st', {}) && EdgeRulesExcept(p, st', {})
    ensures var e := st.workList[0];
      HeapRulesExcept(p, resolve, st', if e.pointer.VarPtr? then e.pointer.v else 0, if e.pointer.VarPtr? then delta else {})
  {
    var e := st.workList[0];
    var wl := st.workList[1..];
    var added := st'.workList[|wl|..];
    assert st'.workList == wl + added;
    assert [e] + wl == st.workList;
    var pts := Objs(e.payload, st.pt);
    FlowsPropagate(st.succs, st.pt, e, wl, added);
    forall t, o | Reaches(st, t, o) ensures Reaches(st', t, o) {
      ReachesPropagate(st.pt, e, wl, added, t, o);
    }
    assert Grows(st, st');
    ReachableRulesMono(p, st, st', {}, {});
    EdgeRulesMono(p, st, st', {});
    var v0 := if e.pointer.VarPtr? then e.pointer.v else 0;
    var pend := if e.pointer.VarPtr? then delta else {};
    forall v, o | o in PointsTo(st'.pt, VarPtr(v)) && !(v == v0 && o in pend)
      ensures HeapRule(p, resolve, st', v, o)
    {
      assert o in PointsTo(st.pt, VarPtr(v));
      HeapRuleMono(p, resolve, st, st', v, o);
    }
  }

  /** The first `n` statements keep their constraints as the state grows. */
  lemma StmtsKept(p: Program, st: State, st': State, stmts: seq<Stmt>, n: nat)
    requires Grows(st, st') && n <= |stmts|
    requires forall j :: 0 <= j < n ==> StmtRule(p, st, stmts[j])
    ensures forall j :: 0 <= j < n ==> StmtRule(p, st', stmts[j])
  {
    forall j | 0 <= j < n ensures StmtRule(p, st', stmts[j]) {
      StmtRuleMono(p, st, st', stmts[j]);
    }
  }

  /** The solution of the analysis: nothing is pending, every pointer-flow edge carries its
      source's points-to set into its target's, and every constraint of the reachable statements,
      of the objects the variables point to and of the call edges holds. */
  ghost predicate Solution(p: Program, resolve: Resolver, st: State)
  {
    (forall t, o :: Reaches(st, t, o) ==> o in PointsTo(st.pt, t)) &&
    (forall s, t :: HasEdge(st, s, t) ==> PointsTo(st.pt, s) <= PointsTo(st.pt, t)) &&
    ReachableRules(p, st, {}) &&
    (forall v, o :: o in PointsTo(st.pt, VarPtr(v)) ==> HeapRule(p, resolve, st, v, o)) &&
    (forall e :: e in st.callEdges ==> EdgeRule(p, st, e))
  }

  /** The invariant of the solver between two work-list entries. */
  ghost predicate Invariant(p: Program, resolve: Resolver, st: State)
  {
    Flows(st.succs, st.pt, st.workList) && ReachableRules(p, st, {}) &&
    HeapRulesExcept(p, resolve, st, 0, {}) && EdgeRulesExcept(p, st, {})
  }

  /** Once the work list is empty, the invariant is the solution. */
  lemma DrainedIsSolution(p: Program, resolve: Resolver, st: State)
    requires Invariant(p, resolve, st) && st.workList == []
    ensures Solution(p, resolve, st)
  {
    forall s, t | HasEdge(st, s, t) ensures PointsTo(st.pt, s) <= PointsTo(st.pt, t) {
      forall o | o in PointsTo(st.pt, s) ensures o in PointsTo(st.pt, t) {
        assert !Pending(st.workList, st.pt, t, o);
      }
    }
  }

  /** The solution read as the inclusion constraints of the analysis: in a reachable method an
      allocated object is in the points-to set of its variable, a copy's source set is in its
      target's; for every object `o` a variable points to, what is stored through it is in
      `o.f`, what is loaded through it holds what `o.f` holds, and a call on it dispatched on `o`
      has a reachable target whose `this` points to `o`, with every argument's set in its
      parameter's. */
  lemma SolutionIsClosed(p: Program, resolve: Resolver, st: State)
    requires Solution(p, resolve, st)
    ensures forall m, i ::
      (m in st.reachable && m < |p.methods| && 0 <= i < |p.methods[m].stmts| &&
       p.methods[m].stmts[i].New? && p.methods[m].stmts[i].newLhs.Some?) ==>
      p.methods[m].stmts[i].obj in PointsTo(st.pt, VarPtr(p.methods[m].stmts[i].newLhs.value))
    ensures forall m, i ::
      (m in st.reachable && m < |p.methods| && 0 <= i < |p.methods[m].stmts| && p.methods[m].stmts[i].Copy?) ==>
      PointsTo(st.pt, VarPtr(p.methods[m].stmts[i].rhs)) <= PointsTo(st.pt, VarPtr(p.methods[m].stmts[i].lhs))
    ensures forall v, o, l :: o in PointsTo(st.pt, VarPtr(v)) && l in StoreFieldsOn(p, v) ==>
      PointsTo(st.pt, VarPtr(l.stmt.rhs)) <= PointsTo(st.pt, InstanceField(o, l.stmt.field))
    ensures forall v, o, l :: o in PointsTo(st.pt, VarPtr(v)) && l in LoadFieldsOn(p, v) ==>
      PointsTo(st.pt, InstanceField(o, l.stmt.field)) <= PointsTo(st.pt, VarPtr(l.stmt.lhs))
    ensures forall v, o, l :: o in PointsTo(st.pt, VarPtr(v)) && l in InvokesOn(p, v) && resolve(o, l.ref).Some? ==>
      var m := resolve(o, l.ref).value;
      m < |p.methods| && m in st.reachable && o in PointsTo(st.pt, VarPtr(p.methods[m].thisVar)) &&
      forall k :: 0 <= k < |l.stmt.args| && k < |p.methods[m].params| ==>
        PointsTo(st.pt, VarPtr(l.stmt.args[k])) <= PointsTo(st.pt, VarPtr(p.methods[m].params[k]))
  {
    forall v, o, l | o in PointsTo(st.pt, VarPtr(v)) && l in InvokesOn(p, v) && resolve(o, l.ref).Some?
      ensures var m := resolve(o, l.ref).value;
        m < |p.methods| && m in st.reachable && o in PointsTo(st.pt, VarPtr(p.methods[m].thisVar)) &&
        forall k :: 0 <= k < |l.stmt.args| && k < |p.methods[m].params| ==>
          PointsTo(st.pt, VarPtr(l.stmt.args[k])) <= PointsTo(st.pt, VarPtr(p.methods[m].params[k]))
    {
      var m := resolve(o, l.ref).value;
      assert HeapRule(p, resolve, st, v, o);
      assert InvokeRule(p, st, l, m, o);
      var e := CHA.CallEdge(l.stmt.kind, SiteOf(l.ref), m);
      assert EdgeRule(p, st, e);
      assert p.methods[l.ref.owner].stmts[l.ref.index] == l.stmt;
    }
  }
}
