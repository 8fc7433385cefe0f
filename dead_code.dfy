/** Dead-code detection: a walk of the control-flow graph from its entry that skips branches
    whose condition constant propagation has decided, followed by the nodes it never reached;
    plus assignments to variables that are not live afterwards. */
module DeadCode {
  import opened Wrappers
  import opened JavaInt
  import opened IR
  import opened ConstProp
  import opened Graphs

  datatype EdgeKind = IfTrue | IfFalse | SwitchCase(caseValue: int32) | SwitchDefault | FallThrough

  datatype Edge = Edge(kind: EdgeKind, target: nat)

  /** The CFG of one method body: node `n` holds `stmts[n]` and leaves along `outEdges[n]`. */
  datatype CFG = CFG(stmts: seq<Stmt>, outEdges: seq<seq<Edge>>, entry: nat)
  {
    predicate Valid()
    {
      |outEdges| == |stmts| && entry < |stmts| &&
      forall n, e :: 0 <= n < |outEdges| && e in outEdges[n] ==> e.target < |stmts|
    }
  }

  /** The targets of the edges that `keep` selects, in edge order. */
  function Targets(edges: seq<Edge>, keep: Edge -> bool): (r: seq<nat>)
    ensures forall t :: t in r <==> exists e :: e in edges && keep(e) && e.target == t
  {
    if edges == [] then []
    else (if keep(edges[0]) then [edges[0].target] else []) + Targets(edges[1..], keep)
  }

  /** The targets `analyze` labels from a polled statement with in fact `inFact`: for an `if`
      whose operands are both constant, only the branch the comparison takes; for a `switch` on
      a constant, the matching cases, or the default when none matches; otherwise every target. */
  function LabeledTargets(s: Stmt, edges: seq<Edge>, inFact: CPFact): seq<nat>
  {
    match s.kind
    case If(op, a, b) =>
      var v1, v2 := Get(inFact, a), Get(inFact, b);
      if !v1.Const? || !v2.Const? then Targets(edges, (e: Edge) => true)
      else
        var res := if Compare(op, v1.constant, v2.constant) then 1 else 0;
        Targets(edges, (e: Edge) => (res == 1 && e.kind == IfTrue) || (res == 0 && e.kind == IfFalse))
    case Switch(v) =>
      var value := Get(inFact, v);
      if !value.Const? then Targets(edges, (e: Edge) => true)
      else
        var cases := Targets(edges, (e: Edge) => e.kind == SwitchCase(value.constant));
        if cases == [] then Targets(edges, (e: Edge) => e.kind == SwitchDefault) else cases
    case _ => Targets(edges, (e: Edge) => true)
  }

  /** The targets `analyze` labels from node `m`, in out-edge order. */
  function FeasibleTargets(cfg: CFG, constants: seq<CPFact>, m: nat): seq<nat>
  {
    if m < |cfg.stmts| && m < |cfg.outEdges| && m < |constants| then
      LabeledTargets(cfg.stmts[m], cfg.outEdges[m], constants[m])
    else []
  }

  /** The successors `analyze` follows from each node of the CFG. */
  function Feasible(cfg: CFG, constants: seq<CPFact>): nat -> set<nat>
  {
    (m: nat) => set t | t in FeasibleTargets(cfg, constants, m)
  }

  lemma FeasibleInRange(cfg: CFG, constants: seq<CPFact>)
    requires cfg.Valid() && |constants| == |cfg.stmts|
    ensures InRange(|cfg.stmts|, Feasible(cfg, constants))
  {
    forall m: nat, t | m < |cfg.stmts| && t in Feasible(cfg, constants)(m)
      ensures t < |cfg.stmts|
    {
      PruningOnlyRemoves(cfg.stmts[m], cfg.outEdges[m], constants[m]);
    }
  }

  /** An assignment to a variable that is not live after it. */
  predicate IsDeadAssign(s: Stmt, liveOut: set<Var>)
  {
    s.kind.Assign? && s.kind.lhs.LVar? && s.kind.lhs.v !in liveOut
  }

  /** What `analyze` reports: dead assignments reachable from the entry without taking a branch
      constant propagation rules out, and unreachable nodes that stand for source lines. */
  ghost function ExpectedDead(cfg: CFG, constants: seq<CPFact>, liveOut: seq<set<Var>>): set<nat>
    requires cfg.Valid() && |constants| == |cfg.stmts| && |liveOut| == |cfg.stmts|
  {
    set n | 0 <= n < |cfg.stmts| &&
      ((Reachable(cfg.entry, Feasible(cfg, constants), n) && IsDeadAssign(cfg.stmts[n], liveOut[n])) ||
       (!Reachable(cfg.entry, Feasible(cfg, constants), n) && cfg.stmts[n].lineNumber >= 0))
  }

  /** Labels the targets not labelled yet and appends them to the work list, in order. */
  method Label(targets: seq<nat>, labeled: set<nat>, workList: seq<nat>) returns (labeled': set<nat>, workList': seq<nat>)
    ensures labeled' == labeled + set t | t in targets
    ensures |workList'| >= |workList| && workList'[..|workList|] == workList
    ensures forall t :: t in workList'[|workList|..] <==> t in targets && t !in labeled
    ensures forall i, j :: |workList| <= i < j < |workList'| ==> workList'[i] != workList'[j]
  {
    labeled', workList' := labeled, workList;
    for k := 0 to |targets|
      invariant labeled' == labeled + set t | t in targets[..k]
      invariant |workList'| >= |workList| && workList'[..|workList|] == workList
      invariant forall t :: t in workList'[|workList|..] <==> t in targets[..k] && t !in labeled
      invariant forall t :: t in workList'[|workList|..] <==> t in labeled' - labeled
      invariant forall i, j :: |workList| <= i < j < |workList'| ==> workList'[i] != workList'[j]
    {
      assert targets[..k + 1] == targets[..k] + [targets[k]];
      var t := targets[k];
      if t !in labeled' {
        labeled' := labeled' + {t};
        assert (workList' + [t])[|workList|..] == workList'[|workList|..] + [t];
        workList' := workList' + [t];
      }
    }
    assert targets[..|targets|] == targets;
  }

  /** `analyze`: walks the CFG from the entry, labelling the targets each polled statement can
      reach and recording dead assignments, then adds every unlabelled node with a source line. */
  method Analyze(cfg: CFG, constants: seq<CPFact>, liveOut: seq<set<Var>>) returns (dead: set<nat>)
    requires cfg.Valid() && |constants| == |cfg.stmts| && |liveOut| == |cfg.stmts|
    ensures dead == ExpectedDead(cfg, constants, liveOut)
  {
    FeasibleInRange(cfg, constants);
    var deadAt := (m: nat) => m < |cfg.stmts| && m < |liveOut| && IsDeadAssign(cfg.stmts[m], liveOut[m]);
    var targets := (m: nat) => FeasibleTargets(cfg, constants, m);
    var labeled, deadAssigns := Walk(|cfg.stmts|, cfg.entry, targets, Feasible(cfg, constants), deadAt);
    dead := deadAssigns;
    for i := 0 to |cfg.stmts|
      invariant forall m: nat :: m in dead <==> m in deadAssigns || (m < i && m !in labeled && cfg.stmts[m].lineNumber >= 0)
    {
      if cfg.stmts[i].lineNumber >= 0 && i !in labeled {
        dead := dead + {i};
      }
    }
  }

  /** The loop of `analyze` over a graph of `size` nodes: labels exactly the nodes reachable from
      `entry`, polling each once, and collects those among them that `deadAt` picks out. */
  method Walk(size: nat, entry: nat, targets: nat -> seq<nat>, succ: nat -> set<nat>, deadAt: nat -> bool)
    returns (labeled: set<nat>, dead: set<nat>)
    requires entry < size && InRange(size, succ)
    requires forall m: nat, t :: t in succ(m) <==> t in targets(m)
    ensures forall m: nat :: m in labeled <==> m < size && Reachable(entry, succ, m)
    ensures forall m: nat :: m in dead <==> m in labeled && deadAt(m)
  {
    ghost var nodes := Range(size);
    labeled := {entry};
    var workList: seq<nat> := [entry];
    ghost var polled: set<nat> := {};
    dead := {};
    EntryReachable(entry, succ);
    while workList != []
      invariant labeled <= nodes
      invariant forall t :: t in labeled <==> t in polled || t in workList
      invariant forall t :: t in workList ==> t !in polled
      invariant forall i, j :: 0 <= i < j < |workList| ==> workList[i] != workList[j]
      invariant entry in labeled
      invariant forall m :: m in labeled ==> Reachable(entry, succ, m)
      invariant forall m, t :: m in polled && t in succ(m) ==> t in labeled
      invariant forall m: nat :: m in dead <==> m in polled && deadAt(m)
      decreases nodes - labeled, |workList|
    {
      var node := workList[0];
      assert node in labeled;
      workList := workList[1..];
      ReachableStep(entry, succ, node);
      ghost var before, rest := labeled, workList;
      labeled, workList := Label(targets(node), labeled, workList);
      SplitMembership(workList, rest);
      assert |workList| > |rest| ==> workList[|rest|] in labeled - before by {
        if |workList| > |rest| {
          assert workList[|rest|] in workList[|rest|..];
        }
      }
      forall i, j | 0 <= i < j < |workList|
        ensures workList[i] != workList[j]
      {
        assert workList[..|rest|] == rest;
        if i < |rest| {
          assert workList[i] == rest[i] && rest[i] in before;
          if j < |rest| {
            assert workList[j] == rest[j];
          } else {
            assert workList[j] in workList[|rest|..];
          }
        }
      }
      if deadAt(node) {
        dead := dead + {node};
      }
      polled := polled + {node};
    }
    ClosedContainsReachable(entry, succ, labeled);
  }

  /** The entry is never reported as unreachable. */
  lemma EntryNotUnreachable(cfg: CFG, constants: seq<CPFact>, liveOut: seq<set<Var>>)
    requires cfg.Valid() && |constants| == |cfg.stmts| && |liveOut| == |cfg.stmts|
    ensures cfg.entry in ExpectedDead(cfg, constants, liveOut) ==> IsDeadAssign(cfg.stmts[cfg.entry], liveOut[cfg.entry])
  {
    EntryReachable(cfg.entry, Feasible(cfg, constants));
  }

  /** Pruning only removes edges: every labelled target is an out-edge target, and a branch on
      operands that are not both constants keeps every edge. */
  lemma PruningOnlyRemoves(s: Stmt, edges: seq<Edge>, inFact: CPFact)
    ensures forall t :: t in LabeledTargets(s, edges, inFact) ==> exists e :: e in edges && e.target == t
    ensures s.kind.If? && !(Get(inFact, s.kind.operand1).Const? && Get(inFact, s.kind.operand2).Const?) ==>
      forall e :: e in edges ==> e.target in LabeledTargets(s, edges, inFact)
  {
  }

  /** A decided `if` follows only the edge its comparison takes. */
  lemma DecidedIfTakesOneBranch(s: Stmt, edges: seq<Edge>, inFact: CPFact, t: nat)
    requires s.kind.If?
    requires Get(inFact, s.kind.operand1).Const? && Get(inFact, s.kind.operand2).Const?
    ensures var taken := if Compare(s.kind.cond, Get(inFact, s.kind.operand1).constant, Get(inFact, s.kind.operand2).constant) then IfTrue else IfFalse;
      t in LabeledTargets(s, edges, inFact) <==> Edge(taken, t) in edges
  {
    var c := Compare(s.kind.cond, Get(inFact, s.kind.operand1).constant, Get(inFact, s.kind.operand2).constant);
    var taken := if c then IfTrue else IfFalse;
    if Edge(taken, t) in edges {
      assert (c && Edge(taken, t).kind == IfTrue) || (!c && Edge(taken, t).kind == IfFalse);
    }
  }

  /** A `switch` on a constant follows the matching cases, and the default only when no case
      matches. */
  lemma DecidedSwitch(s: Stmt, edges: seq<Edge>, inFact: CPFact, t: nat)
    requires s.kind.Switch? && Get(inFact, s.kind.selector).Const?
    ensures var c := Get(inFact, s.kind.selector).constant;
      t in LabeledTargets(s, edges, inFact) <==>
        Edge(SwitchCase(c), t) in edges ||
        (Edge(SwitchDefault, t) in edges && forall e :: e in edges ==> e.kind != SwitchCase(c))
  {
    var c := Get(inFact, s.kind.selector).constant;
    var cases := Targets(edges, (e: Edge) => e.kind == SwitchCase(c));
    if cases == [] {
      forall e | e in edges
        ensures e.kind != SwitchCase(c)
      {
        assert e.kind == SwitchCase(c) ==> e.target in cases;
      }
    } else {
      var u := cases[0];
      assert u in cases;
    }
  }

  // ---------------------------------------------------------------- side effects

  /** `hasNoSideEffect`: allocation, casts, field and array accesses, and `/` or `%` may have an
      effect beyond the value they compute. */
  function HasNoSideEffect(rv: RValue): bool
  {
    if rv.NewExp? || rv.CastExp? || rv.FieldAccess? || rv.ArrayAccess? then false
    else if rv.BinaryExp? && rv.op.Arithmetic? then rv.op.aop != DIV && rv.op.aop != REM
    else true
  }

  /** A binary expression without side effect never makes `evaluate` throw, whatever its operand
      values. */
  lemma NoSideEffectEvaluates(rv: RValue, v1: Value, v2: Value)
    requires rv.BinaryExp? && HasNoSideEffect(rv)
    requires v1 != Undef && v2 != Undef
    ensures EvaluateAsWritten(rv.op, v1, v2).Success?
  {
  }

  /** As written, an assignment whose right-hand side may throw is still reported dead when its
      variable is not live: `x = a / b` with `x` dead afterwards. */
  lemma SideEffectAssignReported()
    ensures var x, a, b := Var(0, Primitive(INT)), Var(1, Primitive(INT)), Var(2, Primitive(INT));
      var s := Stmt(0, 3, Assign(LVar(x), BinaryExp(Arithmetic(DIV), a, b)));
      IsDeadAssign(s, {}) && !HasNoSideEffect(s.kind.rhs)
  {
  }

  /** A dead assignment as evidently intended: only one whose right-hand side has no side effect. */
  predicate IsRemovableAssign(s: Stmt, liveOut: set<Var>)
  {
    IsDeadAssign(s, liveOut) && HasNoSideEffect(s.kind.rhs)
  }

  /** The report with side-effecting assignments kept. */
  ghost function IntendedDead(cfg: CFG, constants: seq<CPFact>, liveOut: seq<set<Var>>): set<nat>
    requires cfg.Valid() && |constants| == |cfg.stmts| && |liveOut| == |cfg.stmts|
  {
    set n | 0 <= n < |cfg.stmts| &&
      ((Reachable(cfg.entry, Feasible(cfg, constants), n) && IsRemovableAssign(cfg.stmts[n], liveOut[n])) ||
       (!Reachable(cfg.entry, Feasible(cfg, constants), n) && cfg.stmts[n].lineNumber >= 0))
  }

  /** The corrected report drops exactly the reachable side-effecting assignments from the one as
      written: it never reports a reachable assignment that may throw, allocate or read the heap. */
  lemma IntendedDeadKeepsEffects(cfg: CFG, constants: seq<CPFact>, liveOut: seq<set<Var>>)
    requires cfg.Valid() && |constants| == |cfg.stmts| && |liveOut| == |cfg.stmts|
    ensures IntendedDead(cfg, constants, liveOut) <= ExpectedDead(cfg, constants, liveOut)
    ensures forall n :: n in ExpectedDead(cfg, constants, liveOut) - IntendedDead(cfg, constants, liveOut) <==>
      0 <= n < |cfg.stmts| && Reachable(cfg.entry, Feasible(cfg, constants), n) && IsDeadAssign(cfg.stmts[n], liveOut[n]) &&
      !HasNoSideEffect(cfg.stmts[n].kind.rhs)
  {
  }
}
