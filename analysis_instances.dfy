/** The analyses plugged into the solvers: constant propagation into the forward solvers,
    live variables into the backward one. Node `n` of the graph holds statement `stmts[n]`. What
    the solvers guarantee at a drained fixed point is read back here in each analysis's terms. */
module AnalysisInstances {
  import opened IR
  import opened Dataflow
  import ConstProp
  import LiveVar
  import InterConstProp
  import WorkListSolver
  import Lattice

  /** Constant propagation's `transferNode`, as the new out fact of node `n`. */
  function CPTransfer(stmts: seq<Stmt>): (nat, ConstProp.CPFact, ConstProp.CPFact) -> ConstProp.CPFact
  {
    (n: nat, inFact: ConstProp.CPFact, out: ConstProp.CPFact) =>
      if n < |stmts| then ConstProp.Transfer(stmts[n], inFact) else out
  }

  /** The same with the corrected value for the defined variable (see
      `ConstProp.IntendedTransfer`). */
  function IntendedCPTransfer(stmts: seq<Stmt>): (nat, ConstProp.CPFact, ConstProp.CPFact) -> ConstProp.CPFact
  {
    (n: nat, inFact: ConstProp.CPFact, out: ConstProp.CPFact) =>
      if n < |stmts| then ConstProp.IntendedTransfer(stmts[n], inFact) else out
  }

  /** Live variables' `transferNode`, as the new in fact of node `n`. */
  function LVTransfer(stmts: seq<Stmt>): (nat, set<Var>, set<Var>) -> set<Var>
  {
    (n: nat, inFact: set<Var>, out: set<Var>) =>
      if n < |stmts| then LiveVar.Transfer(stmts[n], inFact, out) else inFact
  }

  /** The inter-procedural `transferNode`: a call node drops its defined variable, every other
      node is transferred by constant propagation's `transferNode`. */
  function ICPTransfer(stmts: seq<Stmt>): (nat, ConstProp.CPFact, ConstProp.CPFact) -> ConstProp.CPFact
  {
    (n: nat, inFact: ConstProp.CPFact, out: ConstProp.CPFact) =>
      if n < |stmts| then
        if stmts[n].kind.Call? then InterConstProp.KillDef(stmts[n], inFact) else ConstProp.Transfer(stmts[n], inFact)
      else out
  }

  /** The same with the corrected transfer for the other nodes. */
  function IntendedICPTransfer(stmts: seq<Stmt>): (nat, ConstProp.CPFact, ConstProp.CPFact) -> ConstProp.CPFact
  {
    (n: nat, inFact: ConstProp.CPFact, out: ConstProp.CPFact) =>
      if n < |stmts| then
        if stmts[n].kind.Call? then InterConstProp.KillDef(stmts[n], inFact) else ConstProp.IntendedTransfer(stmts[n], inFact)
      else out
  }

  /** Constant propagation meets what the forward worklist solver's fixed point relies on. */
  lemma ConstPropSolvable(stmts: seq<Stmt>)
    ensures WorkListSolver.ForwardLaws(ConstProp.MeetFacts, CPTransfer(stmts))
  {
    ConstProp.MeetIsSemilattice();
  }

  /** So does its corrected transfer. */
  lemma IntendedConstPropSolvable(stmts: seq<Stmt>)
    ensures WorkListSolver.ForwardLaws(ConstProp.MeetFacts, IntendedCPTransfer(stmts))
  {
    ConstProp.MeetIsSemilattice();
  }

  /** So does inter-procedural constant propagation, for the inter-procedural solver. */
  lemma InterConstPropSolvable(stmts: seq<Stmt>)
    ensures WorkListSolver.ForwardLaws(ConstProp.MeetFacts, ICPTransfer(stmts))
  {
    ConstProp.MeetIsSemilattice();
  }

  /** And its corrected transfer. */
  lemma IntendedInterConstPropSolvable(stmts: seq<Stmt>)
    ensures WorkListSolver.ForwardLaws(ConstProp.MeetFacts, IntendedICPTransfer(stmts))
  {
    ConstProp.MeetIsSemilattice();
  }

  /** A node whose in fact absorbs every predecessor's out fact has, at each variable, an in value
      at or below the value at the end of every predecessor. */
  lemma InBelowPreds(cfg: FlowGraph, ins: map<nat, ConstProp.CPFact>, outs: map<nat, ConstProp.CPFact>, n: nat)
    requires n < |cfg.preds| && n in ins
    requires forall k :: 0 <= k < |cfg.preds[n]| ==>
      cfg.preds[n][k] in outs && Lattice.Absorbs(ConstProp.MeetFacts, outs[cfg.preds[n][k]], ins[n])
    ensures forall k, v :: 0 <= k < |cfg.preds[n]| ==>
      ConstProp.ValueLeq(ConstProp.Get(ins[n], v), ConstProp.Get(outs[cfg.preds[n][k]], v))
  {
    ConstProp.MeetIsSemilattice();
    forall k | 0 <= k < |cfg.preds[n]|
      ensures forall v :: ConstProp.ValueLeq(ConstProp.Get(ins[n], v), ConstProp.Get(outs[cfg.preds[n][k]], v))
    {
      var p := outs[cfg.preds[n][k]];
      assert ConstProp.MeetFacts(ins[n], p) == ConstProp.MeetFacts(p, ins[n]);
      ConstProp.FactLeqPointwise(ins[n], p);
    }
  }

  /** At a forward fixed point of constant propagation, a node's out fact is the transfer of its
      in fact, and every variable's value in the in fact is at or below its value at the end of
      every predecessor: UNDEF only where all predecessors leave it UNDEF, a constant only where
      each predecessor leaves that constant or UNDEF. */
  lemma ConstPropFixedPoint(cfg: FlowGraph, stmts: seq<Stmt>, ins: map<nat, ConstProp.CPFact>,
                            outs: map<nat, ConstProp.CPFact>, n: nat)
    requires n < |stmts|
    requires WorkListSolver.ForwardStable(cfg, ConstProp.MeetFacts, CPTransfer(stmts), ins, outs, n)
    ensures outs[n] == ConstProp.Transfer(stmts[n], ins[n])
    ensures forall k, v :: 0 <= k < |cfg.preds[n]| ==>
      ConstProp.ValueLeq(ConstProp.Get(ins[n], v), ConstProp.Get(outs[cfg.preds[n][k]], v))
  {
    InBelowPreds(cfg, ins, outs, n);
  }

  /** The same at a fixed point of the corrected transfer. */
  lemma IntendedConstPropFixedPoint(cfg: FlowGraph, stmts: seq<Stmt>, ins: map<nat, ConstProp.CPFact>,
                                    outs: map<nat, ConstProp.CPFact>, n: nat)
    requires n < |stmts|
    requires WorkListSolver.ForwardStable(cfg, ConstProp.MeetFacts, IntendedCPTransfer(stmts), ins, outs, n)
    ensures outs[n] == ConstProp.IntendedTransfer(stmts[n], ins[n])
    ensures forall k, v :: 0 <= k < |cfg.preds[n]| ==>
      ConstProp.ValueLeq(ConstProp.Get(ins[n], v), ConstProp.Get(outs[cfg.preds[n][k]], v))
  {
    InBelowPreds(cfg, ins, outs, n);
  }

  /** At a backward fixed point of live variables, a node's live-in set contains the classic
      `use ∪ (out − def)`, and its live-out set contains the live-in set of every successor. */
  lemma LiveVarFixedPoint(cfg: FlowGraph, stmts: seq<Stmt>, ins: map<nat, set<Var>>,
                          outs: map<nat, set<Var>>, n: nat)
    requires n < |stmts|
    requires WorkListSolver.BackwardStable(cfg, LiveVar.MeetInto, LVTransfer(stmts), ins, outs, n)
    ensures LiveVar.LiveIn(stmts[n], outs[n]) <= ins[n]
    ensures forall k :: 0 <= k < |cfg.succs[n]| ==> cfg.succs[n][k] in ins && ins[cfg.succs[n][k]] <= outs[n]
  {
    LiveVar.MeetIsSemilattice();
    LiveVar.TransferIsClassic(stmts[n], ins[n], outs[n]);
  }
}
