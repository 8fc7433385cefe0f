/** The worklist solver of the constant-propagation assignment: forward only, and it transfers a
    node once per predecessor, from that predecessor's out fact into a fresh initial fact, then
    meets each result into the node's out fact. It never reads or writes an in fact. */
module TransferMeetSolver {
  import opened Wrappers
  import opened Lattice
  import opened Dataflow

  /** The out fact of `n` absorbs, for each predecessor, the transfer of `n` from that
      predecessor's out fact into a fresh initial fact. */
  predicate OutAbsorbsTransfers<F(==)>(cfg: FlowGraph, meet: (F, F) -> F, transfer: (nat, F, F) -> F,
                                       initial: F, outs: map<nat, F>, n: nat)
  {
    n < |cfg.preds| && n in outs &&
    forall k :: 0 <= k < |cfg.preds[n]| ==>
      cfg.preds[n][k] in outs && Absorbs(meet, transfer(n, outs[cfg.preds[n][k]], initial), outs[n])
  }

  predicate Inner(cfg: FlowGraph, n: nat)
  {
    n < cfg.Size() && n != cfg.exit && n != cfg.entry
  }

  /** The loop over one node's predecessors: each is transferred into `initial` and met into the
      node's out fact; `changed` says some meet changed it. Only the node's out fact changes;
      if none did, each transferred fact was absorbed, and with a semilattice meet every
      transferred fact read from another node is absorbed by the final out fact. */
  method TransferEachPred<F(==,!new)>(cfg: FlowGraph, meet: (F, F) -> F, transfer: (nat, F, F) -> F,
                                      initial: F, outs0: map<nat, F>, node: nat) returns (outs: map<nat, F>, changed: bool)
    requires cfg.Valid() && node < cfg.Size()
    requires forall n: nat :: n < cfg.Size() ==> n in outs0
    ensures node in outs && outs == outs0[node := outs[node]]
    ensures !changed ==> outs == outs0
    ensures forall k :: 0 <= k < |cfg.preds[node]| && cfg.preds[node][k] == node ==>
      changed || Absorbs(meet, transfer(node, outs[node], initial), outs[node])
    ensures IsSemilattice(meet) ==>
      forall k :: 0 <= k < |cfg.preds[node]| && cfg.preds[node][k] != node ==>
        Absorbs(meet, transfer(node, outs[cfg.preds[node][k]], initial), outs[node])
  {
    var preds: seq<nat> := cfg.preds[node];
    outs := outs0;
    changed := false;
    for k := 0 to |preds|
      invariant node in outs && outs == outs0[node := outs[node]]
      invariant !changed ==> outs == outs0
      invariant forall j :: 0 <= j < k && preds[j] == node ==>
        changed || Absorbs(meet, transfer(node, outs[node], initial), outs[node])
      invariant IsSemilattice(meet) ==>
        forall j :: 0 <= j < k && preds[j] != node ==>
          Absorbs(meet, transfer(node, outs[preds[j]], initial), outs[node])
    {
      ghost var before := outs[node];
      var tmp := transfer(node, outs[preds[k]], initial);
      var target := outs[node];
      var merged := meet(tmp, target);
      outs := outs[node := merged];
      changed := changed || merged != target;
      if IsSemilattice(meet) {
        forall j | 0 <= j < k + 1 && preds[j] != node
          ensures Absorbs(meet, transfer(node, outs[preds[j]], initial), outs[node])
        {
          if j < k {
            AbsorbPersists(meet, transfer(node, outs0[preds[j]], initial), tmp, before);
          } else {
            AbsorbsMet(meet, tmp, target);
          }
        }
      }
    }
  }

  /** `doSolveForward`: queue every node but the entry and the exit; poll a node, transfer it from
      each predecessor's out fact and meet the results into its out fact, and queue its
      successors when some meet changed it. `fuel` bounds the number of polls; `done` says the
      queue was drained. In facts are left as they were. */
  method DoSolveForward<F(==,!new)>(cfg: FlowGraph, meet: (F, F) -> F, transfer: (nat, F, F) -> F,
                                    initial: F, result: DataflowResult<F>, fuel: nat) returns (done: bool)
    requires cfg.Valid() && HasFacts(cfg.Size(), result)
    modifies result
    ensures HasFacts(cfg.Size(), result)
    ensures result.inFacts == old(result.inFacts)
    ensures done && IsSemilattice(meet) ==>
      forall n :: Inner(cfg, n) ==> OutAbsorbsTransfers(cfg, meet, transfer, initial, result.outFacts, n)
  {
    var workList: seq<nat> := [];
    for n := 0 to cfg.Size()
      invariant forall m: nat :: m in workList <==> Inner(cfg, m) && m < n
    {
      if n != cfg.entry && n != cfg.exit {
        workList := workList + [n];
      }
    }
    var fuelLeft := fuel;
    while workList != [] && fuelLeft > 0
      invariant HasFacts(cfg.Size(), result)
      invariant result.inFacts == old(result.inFacts)
      invariant forall m :: m in workList ==> m < cfg.Size()
      invariant IsSemilattice(meet) ==>
        forall m :: Inner(cfg, m) && m !in workList ==>
          OutAbsorbsTransfers(cfg, meet, transfer, initial, result.outFacts, m)
      decreases fuelLeft
    {
      ghost var outs0, wl0 := result.outFacts, workList;
      var node := workList[0];
      assert node in wl0;
      workList := workList[1..];
      assert forall m :: m in workList ==> m in wl0;
      fuelLeft := fuelLeft - 1;
      var outs, flag := TransferEachPred(cfg, meet, transfer, initial, result.outFacts, node);
      result.outFacts := outs;
      if flag {
        assert forall k :: 0 <= k < |cfg.succs[node]| ==> cfg.succs[node][k] < cfg.Size();
        workList := workList + cfg.succs[node];
      }
      if IsSemilattice(meet) {
        PollStep(cfg, meet, transfer, initial, outs0, wl0, outs, flag, workList);
      }
    }
    done := workList == [];
  }

  /** One poll keeps every node that is not queued with an out fact absorbing its transfers. */
  lemma PollStep<F(!new)>(cfg: FlowGraph, meet: (F, F) -> F, transfer: (nat, F, F) -> F, initial: F,
                          outs0: map<nat, F>, wl0: seq<nat>, outs1: map<nat, F>, flag: bool, wl1: seq<nat>)
    requires cfg.Valid() && IsSemilattice(meet)
    requires forall n: nat :: n < cfg.Size() ==> n in outs0
    requires wl0 != [] && wl0[0] < cfg.Size()
    requires forall m :: Inner(cfg, m) && m !in wl0 ==> OutAbsorbsTransfers(cfg, meet, transfer, initial, outs0, m)
    requires wl0[0] in outs1 && outs1 == outs0[wl0[0] := outs1[wl0[0]]]
    requires !flag ==> outs1 == outs0
    requires forall k :: 0 <= k < |cfg.preds[wl0[0]]| && cfg.preds[wl0[0]][k] == wl0[0] ==>
      flag || Absorbs(meet, transfer(wl0[0], outs1[wl0[0]], initial), outs1[wl0[0]])
    requires forall k :: 0 <= k < |cfg.preds[wl0[0]]| && cfg.preds[wl0[0]][k] != wl0[0] ==>
      Absorbs(meet, transfer(wl0[0], outs1[cfg.preds[wl0[0]][k]], initial), outs1[wl0[0]])
    requires wl1 == if flag then wl0[1..] + cfg.succs[wl0[0]] else wl0[1..]
    ensures forall m :: Inner(cfg, m) && m !in wl1 ==> OutAbsorbsTransfers(cfg, meet, transfer, initial, outs1, m)
  {
    var node := wl0[0];
    assert wl1[..|wl0| - 1] == wl0[1..];
    forall m: nat | Inner(cfg, m)
      ensures m in wl1 || OutAbsorbsTransfers(cfg, meet, transfer, initial, outs1, m)
    {
      PollKeeps(wl0, wl1, m);
      if flag && node in cfg.preds[m] {
        assert m in cfg.succs[node];
        assert m in wl1[|wl0| - 1..];
      }
    }
  }

  /** `doSolveBackward`: this solver does not handle backward analyses; it throws. */
  method DoSolveBackward<F>(cfg: FlowGraph, result: DataflowResult<F>) returns (r: Result<()>)
    ensures r.Failure? && r.error == UnsupportedOperation
  {
    r := Failure(UnsupportedOperation);
  }
}
