/** The inter-procedural worklist solver: facts flow along the edges of the inter-procedural
    control-flow graph, each edge transferring its source's out fact (or dropping it) before the
    result is met into the target's in fact. */
module InterSolver {
  import opened Wrappers
  import opened Lattice
  import opened Dataflow
  import WorkListSolver

  /** An edge into a node: its source and what kind of edge it is (normal, call-to-return, call
      or return), which only the analysis's edge transfer looks at. */
  datatype ICFGEdge<K> = ICFGEdge(source: nat, kind: K)

  /** The inter-procedural control-flow graph over nodes `0 .. |inEdges| - 1`, with the entry and
      exit node of the entry method. Every in-edge's target is among its source's successors. */
  datatype ICFG<K> = ICFG(entryNode: nat, exitNode: nat, inEdges: seq<seq<ICFGEdge<K>>>, succs: seq<seq<nat>>)
  {
    function Size(): nat { |inEdges| }

    predicate Valid()
    {
      entryNode < |inEdges| && exitNode < |inEdges| && |succs| == |inEdges| &&
      (forall n, k :: 0 <= n < |inEdges| && 0 <= k < |inEdges[n]| ==>
         inEdges[n][k].source < |inEdges| && n in succs[inEdges[n][k].source]) &&
      (forall n, k :: 0 <= n < |succs| && 0 <= k < |succs[n]| ==> succs[n][k] < |inEdges|)
    }
  }

  /** What `initialize` leaves: the entry node has an out fact, every other node both facts. */
  predicate Initialized<K, F>(icfg: ICFG<K>, ins: map<nat, F>, outs: map<nat, F>)
  {
    forall n: nat :: n < icfg.Size() ==> n in outs && (n != icfg.entryNode ==> n in ins)
  }

  /** No edge leads back into the entry method's entry node. */
  predicate EntryNotCalled<K>(icfg: ICFG<K>)
  {
    forall n, k :: 0 <= n < |icfg.succs| && 0 <= k < |icfg.succs[n]| ==> icfg.succs[n][k] != icfg.entryNode
  }

  predicate Inner<K>(icfg: ICFG<K>, n: nat)
  {
    n < icfg.Size() && n != icfg.entryNode && n != icfg.exitNode
  }

  /** The edge's source has an out fact, and the edge's transfer of it, unless dropped, is
      absorbed by `inFact`. */
  predicate EdgeAbsorbed<K, F(==)>(meet: (F, F) -> F, transferEdge: (ICFGEdge<K>, F) -> Option<F>,
                                   outs: map<nat, F>, e: ICFGEdge<K>, inFact: F)
  {
    e.source in outs &&
    (transferEdge(e, outs[e.source]).Some? ==> Absorbs(meet, transferEdge(e, outs[e.source]).value, inFact))
  }

  /** A node at the inter-procedural fixed point: its in fact absorbs what each in-edge carries,
      and transferring it again would leave its out fact as it is. */
  predicate InterStable<K, F(==)>(icfg: ICFG<K>, meet: (F, F) -> F, transferNode: (nat, F, F) -> F,
                                  transferEdge: (ICFGEdge<K>, F) -> Option<F>,
                                  ins: map<nat, F>, outs: map<nat, F>, n: nat)
  {
    n < |icfg.inEdges| && n in ins && n in outs &&
    (forall k :: 0 <= k < |icfg.inEdges[n]| ==> EdgeAbsorbed(meet, transferEdge, outs, icfg.inEdges[n][k], ins[n])) &&
    transferNode(n, ins[n], outs[n]) == outs[n]
  }

  /** `initialize`: the entry node of the entry method gets the boundary fact as its out fact;
      every other node gets an initial in fact and an initial out fact. */
  method Initialize<K, F>(icfg: ICFG<K>, boundary: F, initial: F, result: DataflowResult<F>)
    requires icfg.Valid()
    requires result.inFacts == map[] && result.outFacts == map[]
    modifies result
    ensures forall n: nat :: n < icfg.Size() ==>
      n in result.outFacts && result.outFacts[n] == if n == icfg.entryNode then boundary else initial
    ensures forall n: nat :: n < icfg.Size() && n != icfg.entryNode ==> n in result.inFacts && result.inFacts[n] == initial
    ensures forall n :: n in result.outFacts ==> n < icfg.Size()
    ensures forall n :: n in result.inFacts ==> n < icfg.Size() && n != icfg.entryNode
  {
    result.outFacts := result.outFacts[icfg.entryNode := boundary];
    for n: nat := 0 to icfg.Size()
      invariant forall m: nat :: m < n || m == icfg.entryNode ==>
        m in result.outFacts && result.outFacts[m] == if m == icfg.entryNode then boundary else initial
      invariant forall m: nat :: m < n && m != icfg.entryNode ==> m in result.inFacts && result.inFacts[m] == initial
      invariant forall m :: m in result.outFacts ==> m < icfg.Size() && (m < n || m == icfg.entryNode)
      invariant forall m :: m in result.inFacts ==> m < n && m != icfg.entryNode
    {
      if n != icfg.entryNode {
        result.inFacts := result.inFacts[n := initial];
        result.outFacts := result.outFacts[n := initial];
      }
    }
  }

  /** The loop over a node's in-edges: each edge transfers its source's out fact, and a result
      that is not dropped is met into the node's in fact. It fails when a source has no out fact. */
  method MeetInEdges<K, F(==,!new)>(icfg: ICFG<K>, meet: (F, F) -> F, transferEdge: (ICFGEdge<K>, F) -> Option<F>,
                                     outs: map<nat, F>, node: nat, inFact: F) returns (r: Result<F>)
    requires icfg.Valid() && node < icfg.Size()
    ensures r.Failure? <==> exists k :: 0 <= k < |icfg.inEdges[node]| && icfg.inEdges[node][k].source !in outs
    ensures r.Failure? ==> r.error == NullPointer
    ensures r.Success? && IsSemilattice(meet) ==>
      forall k :: 0 <= k < |icfg.inEdges[node]| ==> EdgeAbsorbed(meet, transferEdge, outs, icfg.inEdges[node][k], r.value)
  {
    var edges := icfg.inEdges[node];
    var acc := inFact;
    for k := 0 to |edges|
      invariant forall j :: 0 <= j < k ==> edges[j].source in outs
      invariant IsSemilattice(meet) ==> forall j :: 0 <= j < k ==> EdgeAbsorbed(meet, transferEdge, outs, edges[j], acc)
    {
      if edges[k].source !in outs {
        return Failure(NullPointer);
      }
      var tmp := transferEdge(edges[k], outs[edges[k].source]);
      if tmp.Some? {
        ghost var before := acc;
        acc := meet(tmp.value, acc);
        if IsSemilattice(meet) {
          forall j | 0 <= j < k + 1
            ensures EdgeAbsorbed(meet, transferEdge, outs, edges[j], acc)
          {
            if j < k {
              var f := transferEdge(edges[j], outs[edges[j].source]);
              if f.Some? {
                AbsorbPersists(meet, f.value, tmp.value, before);
              }
            } else {
              AbsorbsMet(meet, tmp.value, before);
            }
          }
        }
      }
    }
    r := Success(acc);
  }

  /** One poll keeps every node that is not queued at its fixed point. */
  lemma InterStep<K, F(!new)>(icfg: ICFG<K>, meet: (F, F) -> F, transferNode: (nat, F, F) -> F,
                              transferEdge: (ICFGEdge<K>, F) -> Option<F>,
                              ins0: map<nat, F>, outs0: map<nat, F>, wl0: seq<nat>, met: F,
                              ins1: map<nat, F>, outs1: map<nat, F>, wl1: seq<nat>)
    requires icfg.Valid() && WorkListSolver.ForwardLaws(meet, transferNode)
    requires wl0 != [] && wl0[0] < icfg.Size() && wl0[0] in ins0 && wl0[0] in outs0
    requires forall m :: Inner(icfg, m) && m !in wl0 ==> InterStable(icfg, meet, transferNode, transferEdge, ins0, outs0, m)
    requires forall k :: 0 <= k < |icfg.inEdges[wl0[0]]| ==>
      EdgeAbsorbed(meet, transferEdge, outs0, icfg.inEdges[wl0[0]][k], met)
    requires ins1 == ins0[wl0[0] := met]
    requires outs1 == outs0[wl0[0] := transferNode(wl0[0], met, outs0[wl0[0]])]
    requires wl1 == if outs1[wl0[0]] != outs0[wl0[0]] then wl0[1..] + icfg.succs[wl0[0]] else wl0[1..]
    ensures forall m :: Inner(icfg, m) && m !in wl1 ==> InterStable(icfg, meet, transferNode, transferEdge, ins1, outs1, m)
  {
    var node := wl0[0];
    var changed := outs1[node] != outs0[node];
    assert wl1[..|wl0| - 1] == wl0[1..];
    forall m: nat | Inner(icfg, m)
      ensures m in wl1 || InterStable(icfg, meet, transferNode, transferEdge, ins1, outs1, m)
    {
      PollKeeps(wl0, wl1, m);
      forall k | 0 <= k < |icfg.inEdges[m]|
        ensures m in wl1 || outs1[icfg.inEdges[m][k].source] == outs0[icfg.inEdges[m][k].source]
      {
        if icfg.inEdges[m][k].source == node && changed {
          assert m in icfg.succs[node];
          assert m in wl1[|wl0| - 1..];
        }
      }
      if m == node {
        assert transferNode(node, ins1[node], transferNode(node, ins1[node], outs0[node])) == outs1[node];
      }
    }
  }

  /** The body of the loop in `doSolve` (lines 99-105) for the polled node: its in fact becomes
      what its in-edges carry met into it, and its out fact the transfer of that; the outcome
      says whether the out fact changed. Reading a missing fact fails. */
  method PollNode<K, F(==,!new)>(icfg: ICFG<K>, meet: (F, F) -> F, transferNode: (nat, F, F) -> F,
                                  transferEdge: (ICFGEdge<K>, F) -> Option<F>, result: DataflowResult<F>, node: nat)
    returns (changed: Result<bool>)
    requires icfg.Valid() && node < icfg.Size()
    modifies result
    ensures result.inFacts.Keys == old(result.inFacts.Keys) && result.outFacts.Keys == old(result.outFacts.Keys)
    ensures changed.Failure? ==> changed.error == NullPointer
    ensures (node in old(result.inFacts) && node in old(result.outFacts) &&
             forall k :: 0 <= k < |icfg.inEdges[node]| ==> icfg.inEdges[node][k].source in old(result.outFacts)) ==>
      changed.Success?
    ensures changed.Success? ==>
      && node in old(result.inFacts) && node in old(result.outFacts)
      && result.inFacts == old(result.inFacts)[node := result.inFacts[node]]
      && result.outFacts == old(result.outFacts)[node := transferNode(node, result.inFacts[node], old(result.outFacts)[node])]
      && (changed.value <==> result.outFacts[node] != old(result.outFacts)[node])
    ensures changed.Success? && IsSemilattice(meet) ==>
      forall k :: 0 <= k < |icfg.inEdges[node]| ==>
        EdgeAbsorbed(meet, transferEdge, old(result.outFacts), icfg.inEdges[node][k], result.inFacts[node])
  {
    if node !in result.inFacts || node !in result.outFacts {
      return Failure(NullPointer);
    }
    var met := MeetInEdges(icfg, meet, transferEdge, result.outFacts, node, result.inFacts[node]);
    if met.Failure? {
      return Failure(met.error);
    }
    result.inFacts := result.inFacts[node := met.value];
    var out := result.outFacts[node];
    var newOut := transferNode(node, met.value, out);
    result.outFacts := result.outFacts[node := newOut];
    changed := Success(newOut != out);
  }

  /** Every node but the entry and exit of the entry method, in node order. */
  method InnerNodes<K>(icfg: ICFG<K>) returns (workList: seq<nat>)
    ensures forall m: nat :: m in workList <==> Inner(icfg, m)
  {
    workList := [];
    for n := 0 to icfg.Size()
      invariant forall m: nat :: m in workList <==> Inner(icfg, m) && m < n
    {
      if n != icfg.entryNode && n != icfg.exitNode {
        workList := workList + [n];
      }
    }
  }

  /** Whether facts are initialized depends only on which nodes have them. */
  lemma InitializedByKeys<K, F>(icfg: ICFG<K>, ins0: map<nat, F>, outs0: map<nat, F>, ins1: map<nat, F>, outs1: map<nat, F>)
    requires ins1.Keys == ins0.Keys && outs1.Keys == outs0.Keys
    ensures Initialized(icfg, ins1, outs1) == Initialized(icfg, ins0, outs0)
  {
  }

  /** `doSolve`: queue every node but the entry and exit of the entry method; poll a node, meet
      what each in-edge carries into its in fact, transfer it, and queue its successors when its
      out fact changed. `fuel` bounds the number of polls; a `Success(true)` outcome says the
      queue was drained, and then every queued-at-start node is at its fixed point. Reading a
      node's missing fact fails; after `initialize` that only happens if an edge leads back into
      the entry node. */
  method DoSolve<K, F(==,!new)>(icfg: ICFG<K>, meet: (F, F) -> F, transferNode: (nat, F, F) -> F,
                                 transferEdge: (ICFGEdge<K>, F) -> Option<F>, result: DataflowResult<F>, fuel: nat)
    returns (r: Result<bool>)
    requires icfg.Valid()
    modifies result
    ensures result.inFacts.Keys == old(result.inFacts.Keys) && result.outFacts.Keys == old(result.outFacts.Keys)
    ensures r.Failure? ==> r.error == NullPointer
    ensures old(Initialized(icfg, result.inFacts, result.outFacts)) && EntryNotCalled(icfg) ==>
      r.Success? && result.outFacts[icfg.entryNode] == old(result.outFacts)[icfg.entryNode]
    ensures r == Success(true) && WorkListSolver.ForwardLaws(meet, transferNode) ==>
      forall n :: Inner(icfg, n) ==> InterStable(icfg, meet, transferNode, transferEdge, result.inFacts, result.outFacts, n)
  {
    var workList: seq<nat> := InnerNodes(icfg);
    ghost var ready := Initialized(icfg, old(result.inFacts), old(result.outFacts)) && EntryNotCalled(icfg);
    var fuelLeft := fuel;
    while workList != [] && fuelLeft > 0
      invariant result.inFacts.Keys == old(result.inFacts.Keys) && result.outFacts.Keys == old(result.outFacts.Keys)
      invariant forall m :: m in workList ==> m < icfg.Size()
      invariant ready ==> icfg.entryNode !in workList
      invariant ready ==> result.outFacts[icfg.entryNode] == old(result.outFacts)[icfg.entryNode]
      invariant WorkListSolver.ForwardLaws(meet, transferNode) ==>
        forall m :: Inner(icfg, m) && m !in workList ==>
          InterStable(icfg, meet, transferNode, transferEdge, result.inFacts, result.outFacts, m)
      decreases fuelLeft
    {
      ghost var ins0, outs0, wl0 := result.inFacts, result.outFacts, workList;
      var node := workList[0];
      assert node in wl0;
      workList := workList[1..];
      assert forall m :: m in workList ==> m in wl0;
      fuelLeft := fuelLeft - 1;
      if ready {
        InitializedByKeys(icfg, old(result.inFacts), old(result.outFacts), result.inFacts, result.outFacts);
        assert node != icfg.entryNode && node < icfg.Size();
      }
      var changed := PollNode(icfg, meet, transferNode, transferEdge, result, node);
      if changed.Failure? {
        return Failure(changed.error);
      }
      ghost var met := result.inFacts[node];
      if changed.value {
        assert forall k :: 0 <= k < |icfg.succs[node]| ==> icfg.succs[node][k] < icfg.Size();
        workList := workList + icfg.succs[node];
      }
      if WorkListSolver.ForwardLaws(meet, transferNode) {
        InterStep(icfg, meet, transferNode, transferEdge, ins0, outs0, wl0, met, result.inFacts, result.outFacts, workList);
      }
    }
    r := Success(workList == []);
  }

  /** `solve`: a fresh result, initialized, then solved. Unless an edge leads back into the entry
      node, solving does not fail and the entry node keeps the boundary fact. */
  method Solve<K, F(==,!new)>(icfg: ICFG<K>, meet: (F, F) -> F, transferNode: (nat, F, F) -> F,
                               transferEdge: (ICFGEdge<K>, F) -> Option<F>, boundary: F, initial: F, fuel: nat)
    returns (result: DataflowResult<F>, r: Result<bool>)
    requires icfg.Valid()
    ensures r.Failure? ==> r.error == NullPointer
    ensures EntryNotCalled(icfg) ==>
      r.Success? && icfg.entryNode in result.outFacts && result.outFacts[icfg.entryNode] == boundary
    ensures r == Success(true) && WorkListSolver.ForwardLaws(meet, transferNode) ==>
      forall n :: Inner(icfg, n) ==> InterStable(icfg, meet, transferNode, transferEdge, result.inFacts, result.outFacts, n)
  {
    result := new DataflowResult();
    Initialize(icfg, boundary, initial, result);
    r := DoSolve(icfg, meet, transferNode, transferEdge, result, fuel);
  }
}
