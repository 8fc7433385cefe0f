/** The worklist solver of the live-variable assignment: a queue-driven forward solver that
    meets predecessors' out facts into a node's in fact before transferring it, and a
    round-robin backward solver that repeats passes until one changes nothing. */
module WorkListSolver {
  import opened Lattice
  import opened Dataflow

  /** What the stability of a forward result relies on: a semilattice meet, and a transfer that,
      applied again to its own output with the same in fact, leaves that output as it is. */
  ghost predicate ForwardLaws<F(!new)>(meet: (F, F) -> F, transfer: (nat, F, F) -> F)
  {
    IsSemilattice(meet) &&
    forall n: nat, i: F, o: F {:trigger transfer(n, i, transfer(n, i, o))} ::
      transfer(n, i, transfer(n, i, o)) == transfer(n, i, o)
  }

  /** A node at a forward fixed point: its in fact absorbs the out fact of every predecessor, and
      transferring it again would leave its out fact as it is. */
  predicate ForwardStable<F(==)>(cfg: FlowGraph, meet: (F, F) -> F, transfer: (nat, F, F) -> F,
                                 ins: map<nat, F>, outs: map<nat, F>, n: nat)
  {
    n < |cfg.preds| && n in ins && n in outs &&
    (forall k :: 0 <= k < |cfg.preds[n]| ==>
       cfg.preds[n][k] in outs && Absorbs(meet, outs[cfg.preds[n][k]], ins[n])) &&
    transfer(n, ins[n], outs[n]) == outs[n]
  }

  /** The nodes the forward solver is responsible for: all but the entry and the exit. */
  predicate Inner(cfg: FlowGraph, n: nat)
  {
    n < cfg.Size() && n != cfg.entry && n != cfg.exit
  }

  /** After a poll, the out fact of each predecessor of `m` is what it was, unless it is the
      polled node, its out fact changed, and `m`, one of its successors, was queued. */
  lemma PredsUnchangedOrQueued<F>(cfg: FlowGraph, outs0: map<nat, F>, outs1: map<nat, F>,
                                  wl0: seq<nat>, wl1: seq<nat>, m: nat)
    requires cfg.Valid() && m < cfg.Size() && wl0 != [] && wl0[0] < cfg.Size()
    requires forall n: nat :: n < cfg.Size() ==> n in outs0
    requires wl0[0] in outs1 && outs1 == outs0[wl0[0] := outs1[wl0[0]]]
    requires wl1 == if outs1[wl0[0]] != outs0[wl0[0]] then wl0[1..] + cfg.succs[wl0[0]] else wl0[1..]
    ensures forall k :: 0 <= k < |cfg.preds[m]| ==> outs1[cfg.preds[m][k]] == outs0[cfg.preds[m][k]] || m in wl1
  {
    var node := wl0[0];
    forall k | 0 <= k < |cfg.preds[m]|
      ensures outs1[cfg.preds[m][k]] == outs0[cfg.preds[m][k]] || m in wl1
    {
      if cfg.preds[m][k] == node && outs1[node] != outs0[node] {
        assert m in cfg.succs[node];
        assert m in wl1[|wl0| - 1..];
      }
    }
  }

  /** One poll of the forward solver keeps every node that is not queued at its fixed point:
      the polled node's in fact is the fold of its predecessors' out facts into the old one, its
      out fact is the transfer of that, and if the out fact changed its successors were queued. */
  lemma ForwardStep<F(!new)>(cfg: FlowGraph, meet: (F, F) -> F, transfer: (nat, F, F) -> F,
                             ins0: map<nat, F>, outs0: map<nat, F>, wl0: seq<nat>,
                             ins1: map<nat, F>, outs1: map<nat, F>, wl1: seq<nat>)
    requires cfg.Valid() && ForwardLaws(meet, transfer)
    requires forall n: nat :: n < cfg.Size() ==> n in ins0 && n in outs0
    requires wl0 != [] && wl0[0] < cfg.Size()
    requires forall m :: Inner(cfg, m) && m !in wl0 ==> ForwardStable(cfg, meet, transfer, ins0, outs0, m)
    requires ins1 == ins0[wl0[0] := FoldMeet(meet, FactsOf(outs0, cfg.preds[wl0[0]]), ins0[wl0[0]])]
    requires outs1 == outs0[wl0[0] := transfer(wl0[0], ins1[wl0[0]], outs0[wl0[0]])]
    requires wl1 == if outs1[wl0[0]] != outs0[wl0[0]] then wl0[1..] + cfg.succs[wl0[0]] else wl0[1..]
    ensures forall m :: Inner(cfg, m) && m !in wl1 ==> ForwardStable(cfg, meet, transfer, ins1, outs1, m)
  {
    var node := wl0[0];
    assert wl1[..|wl0| - 1] == wl0[1..];
    forall m | Inner(cfg, m)
      ensures m in wl1 || ForwardStable(cfg, meet, transfer, ins1, outs1, m)
    {
      PollKeeps(wl0, wl1, m);
      PredsUnchangedOrQueued(cfg, outs0, outs1, wl0, wl1, m);
      if m == node {
        NodeAfterPoll(cfg, meet, transfer, ins0, outs0, ins1, outs1, node, m in wl1);
      }
    }
  }

  /** The polled node itself: unless it is queued again, it is at its fixed point. */
  lemma NodeAfterPoll<F(!new)>(cfg: FlowGraph, meet: (F, F) -> F, transfer: (nat, F, F) -> F,
                               ins0: map<nat, F>, outs0: map<nat, F>, ins1: map<nat, F>, outs1: map<nat, F>,
                               node: nat, queued: bool)
    requires cfg.Valid() && ForwardLaws(meet, transfer) && node < cfg.Size()
    requires forall n: nat :: n < cfg.Size() ==> n in ins0 && n in outs0
    requires ins1 == ins0[node := FoldMeet(meet, FactsOf(outs0, cfg.preds[node]), ins0[node])]
    requires outs1 == outs0[node := transfer(node, ins1[node], outs0[node])]
    requires forall k :: 0 <= k < |cfg.preds[node]| ==> outs1[cfg.preds[node][k]] == outs0[cfg.preds[node][k]] || queued
    ensures queued || ForwardStable(cfg, meet, transfer, ins1, outs1, node)
  {
    if !queued {
      var preds := cfg.preds[node];
      forall k | 0 <= k < |preds|
        ensures preds[k] in outs1 && Absorbs(meet, outs1[preds[k]], ins1[node])
      {
        FoldAbsorbsEach(meet, FactsOf(outs0, preds), ins0[node], k);
        assert outs1[preds[k]] == outs0[preds[k]];
      }
      var out := transfer(node, ins1[node], outs0[node]);
      assert transfer(node, ins1[node], transfer(node, ins1[node], outs0[node])) == out;
      assert outs1[node] == out;
    }
  }

  /** The inner loop of `doSolveForward` (lines 53-55): meets the out fact of each predecessor
      of `node`, in order, into its in fact. */
  method MeetPredsInto<F(!new)>(cfg: FlowGraph, meet: (F, F) -> F, result: DataflowResult<F>, node: nat)
    requires cfg.Valid() && node < cfg.Size() && HasFacts(cfg.Size(), result)
    modifies result
    ensures result.outFacts == old(result.outFacts)
    ensures result.inFacts == old(result.inFacts)[node :=
      FoldMeet(meet, FactsOf(old(result.outFacts), cfg.preds[node]), old(result.inFacts)[node])]
  {
    ghost var ins0, outs0 := result.inFacts, result.outFacts;
    var preds := cfg.preds[node];
    for k := 0 to |preds|
      invariant result.outFacts == outs0
      invariant result.inFacts == ins0[node := FoldMeet(meet, FactsOf(outs0, preds[..k]), ins0[node])]
    {
      FoldMeetStep(meet, outs0, preds, k, ins0[node]);
      result.inFacts := result.inFacts[node := meet(result.outFacts[preds[k]], result.inFacts[node])];
    }
    assert preds[..|preds|] == preds;
  }

  /** `doSolveForward`: queue every node but the entry and the exit; poll a node, meet each
      predecessor's out fact into its in fact, transfer it, and queue its successors when its out
      fact changed. `fuel` bounds the number of polls; `done` says the queue was drained. Once
      drained, every queued-at-start node is at its fixed point. */
  method DoSolveForward<F(==,!new)>(cfg: FlowGraph, meet: (F, F) -> F, transfer: (nat, F, F) -> F,
                               result: DataflowResult<F>, fuel: nat) returns (done: bool)
    requires cfg.Valid() && HasFacts(cfg.Size(), result)
    modifies result
    ensures HasFacts(cfg.Size(), result)
    ensures done && ForwardLaws(meet, transfer) ==>
      forall n :: Inner(cfg, n) ==> ForwardStable(cfg, meet, transfer, result.inFacts, result.outFacts, n)
  {
    var workList: seq<nat> := [];
    for n := 0 to cfg.Size()
      invariant forall m: nat :: m in workList <==> Inner(cfg, m) && m < n
    {
      if n != cfg.entry && n != cfg.exit {
        workList := workList + [n];
      }
    }
    var fuelLeft := fuel;
    while workList != [] && fuelLeft > 0
      invariant HasFacts(cfg.Size(), result)
      invariant forall m :: m in workList ==> m < cfg.Size()
      invariant ForwardLaws(meet, transfer) ==>
        forall m :: Inner(cfg, m) && m !in workList ==>
          ForwardStable(cfg, meet, transfer, result.inFacts, result.outFacts, m)
      decreases fuelLeft
    {
      ghost var ins0, outs0, wl0 := result.inFacts, result.outFacts, workList;
      var node := workList[0];
      assert node in wl0;
      workList := workList[1..];
      assert forall m :: m in workList ==> m in wl0;
      fuelLeft := fuelLeft - 1;
      MeetPredsInto(cfg, meet, result, node);
      var out := result.outFacts[node];
      var newOut := transfer(node, result.inFacts[node], out);
      result.outFacts := result.outFacts[node := newOut];
      if newOut != out {
        assert forall k :: 0 <= k < |cfg.succs[node]| ==> cfg.succs[node][k] < cfg.Size();
        workList := workList + cfg.succs[node];
      }
      if ForwardLaws(meet, transfer) {
        ForwardStep(cfg, meet, transfer, ins0, outs0, wl0, result.inFacts, result.outFacts, workList);
      }
    }
    done := workList == [];
  }

  /** A node at a backward fixed point: transferring it again would leave its in fact as it is
      and, when the meet is a semilattice meet, its out fact absorbs the in fact of every
      successor. */
  ghost predicate BackwardStable<F(!new)>(cfg: FlowGraph, meet: (F, F) -> F, transfer: (nat, F, F) -> F,
                                          ins: map<nat, F>, outs: map<nat, F>, n: nat)
  {
    n < |cfg.succs| && n in ins && n in outs &&
    transfer(n, ins[n], outs[n]) == ins[n] &&
    (IsSemilattice(meet) ==>
       forall k :: 0 <= k < |cfg.succs[n]| ==>
         cfg.succs[n][k] in ins && Absorbs(meet, ins[cfg.succs[n][k]], outs[n]))
  }

  /** The inner loop of `doSolveBackward` (lines 72-75): meets the in fact of each successor of
      `node`, in order, into its out fact. */
  method MeetSuccsInto<F(!new)>(cfg: FlowGraph, meet: (F, F) -> F, result: DataflowResult<F>, node: nat)
    requires cfg.Valid() && node < cfg.Size() && HasFacts(cfg.Size(), result)
    modifies result
    ensures result.inFacts == old(result.inFacts)
    ensures result.outFacts == old(result.outFacts)[node :=
      FoldMeet(meet, FactsOf(old(result.inFacts), cfg.succs[node]), old(result.outFacts)[node])]
  {
    ghost var ins0, outs0 := result.inFacts, result.outFacts;
    var succs: seq<nat> := cfg.succs[node];
    assert forall k :: 0 <= k < |succs| ==> succs[k] < cfg.Size();
    for k := 0 to |succs|
      invariant result.inFacts == ins0
      invariant result.outFacts == outs0[node := FoldMeet(meet, FactsOf(ins0, succs[..k]), outs0[node])]
    {
      FoldMeetStep(meet, ins0, succs, k, outs0[node]);
      result.outFacts := result.outFacts[node := meet(result.inFacts[succs[k]], result.outFacts[node])];
    }
    assert succs[..|succs|] == succs;
  }

  /** A node whose transfer reported no change is at its backward fixed point, and the nodes
      before it, whose facts it did not touch, stay at theirs. */
  lemma BackwardNodeStable<F(!new)>(cfg: FlowGraph, meet: (F, F) -> F, transfer: (nat, F, F) -> F,
                                    ins0: map<nat, F>, outs0: map<nat, F>, outs1: map<nat, F>, node: nat)
    requires cfg.Valid() && node < cfg.Size()
    requires forall n: nat :: n < cfg.Size() ==> n in ins0 && n in outs0
    requires outs1 == outs0[node := FoldMeet(meet, FactsOf(ins0, cfg.succs[node]), outs0[node])]
    requires transfer(node, ins0[node], outs1[node]) == ins0[node]
    requires forall n: nat :: n < node && n != cfg.exit ==> BackwardStable(cfg, meet, transfer, ins0, outs0, n)
    ensures BackwardStable(cfg, meet, transfer, ins0, outs1, node)
    ensures forall n: nat :: n < node && n != cfg.exit ==> BackwardStable(cfg, meet, transfer, ins0, outs1, n)
  {
    var succs: seq<nat> := cfg.succs[node];
    assert forall k :: 0 <= k < |succs| ==> succs[k] < cfg.Size();
    if IsSemilattice(meet) {
      forall k | 0 <= k < |succs|
        ensures Absorbs(meet, ins0[succs[k]], outs1[node])
      {
        FoldAbsorbsEach(meet, FactsOf(ins0, succs), outs0[node], k);
      }
    }
    forall n: nat | n < node && n != cfg.exit
      ensures BackwardStable(cfg, meet, transfer, ins0, outs1, n)
    {
      assert BackwardStable(cfg, meet, transfer, ins0, outs0, n);
      assert outs1[n] == outs0[n];
    }
  }

  /** `doSolveBackward`: passes over every node but the exit, in node order; each meets the in
      facts of the node's successors into its out fact and transfers it. Passes repeat until one
      has no transfer report a change; `fuel` bounds their number and `done` says the last pass
      changed nothing, in which case every node but the exit is at its fixed point. */
  method DoSolveBackward<F(==,!new)>(cfg: FlowGraph, meet: (F, F) -> F, transfer: (nat, F, F) -> F,
                                     result: DataflowResult<F>, fuel: nat) returns (done: bool)
    requires cfg.Valid() && HasFacts(cfg.Size(), result)
    modifies result
    ensures HasFacts(cfg.Size(), result)
    ensures done ==> forall n: nat :: n < cfg.Size() && n != cfg.exit ==>
      BackwardStable(cfg, meet, transfer, result.inFacts, result.outFacts, n)
  {
    var flag := true;
    var fuelLeft := fuel;
    while flag && fuelLeft > 0
      invariant HasFacts(cfg.Size(), result)
      invariant !flag ==> forall n: nat :: n < cfg.Size() && n != cfg.exit ==>
        BackwardStable(cfg, meet, transfer, result.inFacts, result.outFacts, n)
      decreases fuelLeft
    {
      fuelLeft := fuelLeft - 1;
      flag := false;
      for node: nat := 0 to cfg.Size()
        invariant HasFacts(cfg.Size(), result)
        invariant !flag ==> forall n: nat :: n < node && n != cfg.exit ==>
          BackwardStable(cfg, meet, transfer, result.inFacts, result.outFacts, n)
      {
        if node != cfg.exit {
          ghost var ins0, outs0 := result.inFacts, result.outFacts;
          MeetSuccsInto(cfg, meet, result, node);
          var inFact := result.inFacts[node];
          var newIn := transfer(node, inFact, result.outFacts[node]);
          result.inFacts := result.inFacts[node := newIn];
          flag := flag || newIn != inFact;
          if !flag {
            assert result.inFacts == ins0;
            BackwardNodeStable(cfg, meet, transfer, ins0, outs0, result.outFacts, node);
          }
        }
      }
    }
    done := !flag;
  }
}
