/** What the dataflow solvers share: the control-flow graph they walk and the result object
    holding one in fact and one out fact per node. */
module Dataflow {
  import Lattice

  /** A control-flow graph over the nodes `0 .. |preds| - 1`: the predecessors and the
      successors of every node, read off the same set of edges. */
  datatype FlowGraph = FlowGraph(entry: nat, exit: nat, preds: seq<seq<nat>>, succs: seq<seq<nat>>)
  {
    function Size(): nat { |preds| }

    predicate Valid()
    {
      entry < |preds| && exit < |preds| && |succs| == |preds| &&
      (forall n, k :: 0 <= n < |preds| && 0 <= k < |preds[n]| ==> preds[n][k] < |preds|) &&
      (forall n, k :: 0 <= n < |succs| && 0 <= k < |succs[n]| ==> succs[n][k] < |preds|) &&
      (forall n, m :: 0 <= n < |preds| && 0 <= m < |preds| ==> (m in preds[n] <==> n in succs[m]))
    }
  }

  /** `DataflowResult`: the in and out fact of each node; a node without an entry has a null fact. */
  class DataflowResult<F> {
    var inFacts: map<nat, F>
    var outFacts: map<nat, F>

    constructor ()
      ensures inFacts == map[] && outFacts == map[]
    {
      inFacts := map[];
      outFacts := map[];
    }
  }

  /** Every node below `size` has both of its facts. */
  predicate HasFacts<F>(size: nat, result: DataflowResult<F>)
    reads result
  {
    forall n: nat :: n < size ==> n in result.inFacts && n in result.outFacts
  }

  /** The facts that `facts` holds for `nodes`, in order. */
  function FactsOf<F>(facts: map<nat, F>, nodes: seq<nat>): (r: seq<F>)
    requires forall k :: 0 <= k < |nodes| ==> nodes[k] in facts
    ensures |r| == |nodes|
    ensures forall k :: 0 <= k < |nodes| ==> r[k] == facts[nodes[k]]
  {
    if nodes == [] then [] else FactsOf(facts, nodes[..|nodes| - 1]) + [facts[nodes[|nodes| - 1]]]
  }

  /** Meeting the fact of one more node into a fold over a prefix gives the fold over the longer
      prefix. */
  lemma FoldMeetStep<F(!new)>(meet: (F, F) -> F, facts: map<nat, F>, nodes: seq<nat>, k: nat, target: F)
    requires k < |nodes| && forall j :: 0 <= j < |nodes| ==> nodes[j] in facts
    ensures Lattice.FoldMeet(meet, FactsOf(facts, nodes[..k + 1]), target) ==
      meet(facts[nodes[k]], Lattice.FoldMeet(meet, FactsOf(facts, nodes[..k]), target))
  {
    assert nodes[..k + 1][..k] == nodes[..k];
  }

  /** Polling the head of a queue and appending to its tail keeps every other element queued. */
  lemma PollKeeps(wl0: seq<nat>, wl1: seq<nat>, m: nat)
    requires wl0 != [] && |wl1| >= |wl0| - 1 && wl1[..|wl0| - 1] == wl0[1..]
    ensures m in wl0 ==> m == wl0[0] || m in wl1
  {
    if m in wl0 && m != wl0[0] {
      var i :| 0 <= i < |wl0| && wl0[i] == m;
      assert wl1[i - 1] == wl0[1..][i - 1];
    }
  }
}
