/** Live-variable analysis: a backward analysis whose facts are sets of variables, joined by
    union. */
module LiveVar {
  import opened Wrappers
  import opened IR
  import Lattice

  /** `newBoundaryFact` and `newInitialFact`: no variable is live. */
  const BoundaryFact: set<Var> := {}
  const InitialFact: set<Var> := {}

  /** `meetInto(fact, target)`: the target becomes the union of the two. */
  function MeetInto(fact: set<Var>, target: set<Var>): (r: set<Var>)
    ensures fact <= r && target <= r
    ensures forall v :: v in r ==> v in fact || v in target
  {
    target + fact
  }

  lemma MeetIsSemilattice()
    ensures Lattice.IsSemilattice(MeetInto)
  {
    forall a: set<Var>, b: set<Var>
      ensures MeetInto(a, b) == MeetInto(b, a)
    {
      assert a + b == b + a;
    }
    forall a: set<Var>, b: set<Var>, c: set<Var>
      ensures MeetInto(a, MeetInto(b, c)) == MeetInto(MeetInto(a, b), c)
    {
      assert c + b + a == c + (b + a);
    }
    forall a: set<Var>
      ensures MeetInto(a, a) == a
    {
      assert a + a == a;
    }
  }

  /** The defined variable, as a set. */
  function DefSet(s: Stmt): set<Var>
  {
    match Def(s)
    case Some(x) => {x}
    case None => {}
  }

  /** How deep `process` recurses on an expression: a variable not at all, a binary expression
      into its operand, an instance invocation into its uses. */
  function Depth(e: RValue): nat
  {
    if e.VarExp? then 0 else if e.InvokeInstanceExp? then 2 else 1
  }

  /** The variables `process` adds for one use: a variable itself, an instance call's receiver
      and its uses, the first operand of a binary expression, an array's base (and index). */
  function Processed(e: RValue): set<Var>
    decreases Depth(e)
  {
    match e
    case VarExp(v) => {v}
    case InvokeInstanceExp(r, args) =>
      {r} + ProcessedAll(ExpUses(e))
    case BinaryExp(_, a, _) => {a}
    case ArrayLengthExp(b) => {b}
    case ArrayAccess(b, i) => {b, i}
    case _ => {}
  }

  function ProcessedAll(es: seq<RValue>): set<Var>
    requires forall e :: e in es ==> e.VarExp?
  {
    set e | e in es :: e.v
  }

  /** The union of what `process` adds for each of a list of uses. */
  function ProcessedEach(es: seq<RValue>): set<Var>
  {
    if es == [] then {} else ProcessedEach(es[..|es| - 1]) + Processed(es[|es| - 1])
  }

  /** The in fact `transferNode` leaves: the old in fact joined with the out fact, without the
      defined variable, plus everything `process` adds for the statement's uses. */
  function Transfer(s: Stmt, inFact: set<Var>, outFact: set<Var>): set<Var>
  {
    (inFact + outFact) - DefSet(s) + ProcessedEach(Uses(s))
  }

  /** `process`: adds what one use reads to the live set. */
  method Process(e: RValue, live: set<Var>) returns (r: set<Var>)
    ensures r == live + Processed(e)
    decreases Depth(e)
  {
    r := live;
    match e {
      case VarExp(v) =>
        r := r + {v};
      case InvokeInstanceExp(base, args) =>
        r := ProcessInvokeInstanceExp(e, r);
      case BinaryExp(_, a, _) =>
        r := Process(VarExp(a), r);
        r := Process(VarExp(a), r);
      case ArrayLengthExp(b) =>
        r := r + {b};
      case ArrayAccess(b, i) =>
        r := r + {b};
        r := r + {i};
      case _ =>
    }
  }

  /** `processInvokeInstanceExp`: adds the receiver, then processes each of the call's uses. */
  method ProcessInvokeInstanceExp(e: RValue, live: set<Var>) returns (r: set<Var>)
    requires e.InvokeInstanceExp?
    ensures r == live + Processed(e)
    decreases Depth(e), 0
  {
    r := live + {e.receiver};
    var uses := ExpUses(e);
    for i := 0 to |uses|
      invariant r == live + {e.receiver} + ProcessedAll(uses[..i])
    {
      assert uses[..i + 1] == uses[..i] + [uses[i]];
      r := Process(uses[i], r);
    }
    assert uses[..|uses|] == uses;
  }

  /** `transferNode`: computes the new in fact and reports whether it changed. */
  method TransferNode(s: Stmt, inFact: set<Var>, outFact: set<Var>) returns (newIn: set<Var>, changed: bool)
    ensures newIn == Transfer(s, inFact, outFact)
    ensures changed <==> newIn != inFact
  {
    var tmp := inFact;
    newIn := inFact + outFact;
    newIn := set v | v in newIn && !(Def(s).Some? && v == Def(s).value);
    assert newIn == (inFact + outFact) - DefSet(s);
    var uses := Uses(s);
    for i := 0 to |uses|
      invariant newIn == (inFact + outFact) - DefSet(s) + ProcessedEach(uses[..i])
    {
      assert uses[..i + 1][..i] == uses[..i];
      newIn := Process(uses[i], newIn);
    }
    assert uses[..|uses|] == uses;
    changed := tmp != newIn;
  }

  /** The classic live-in set: the variables the statement reads, plus those live after it
      that it does not define. */
  function LiveIn(s: Stmt, outFact: set<Var>): set<Var>
  {
    UseVars(s) + (outFact - DefSet(s))
  }

  lemma {:induction false} ProcessedEachIn(es: seq<RValue>, v: Var)
    ensures v in ProcessedEach(es) <==> exists i :: 0 <= i < |es| && v in Processed(es[i])
  {
    if es != [] {
      var n := |es| - 1;
      ProcessedEachIn(es[..n], v);
      if v in Processed(es[n]) {
        assert 0 <= n < |es| && v in Processed(es[n]);
      }
      if exists i :: 0 <= i < |es| && v in Processed(es[i]) {
        var i :| 0 <= i < |es| && v in Processed(es[i]);
        if i < n {
          assert es[..n][i] == es[i];
        }
      }
    }
  }

  /** An operand of a use of a statement is itself a use of it. */
  lemma OperandIsUse(s: Stmt, e: RValue, u: RValue)
    requires e in Uses(s) && u in ExpUses(e)
    ensures u in Uses(s)
  {
    UsesListOperands(s);
  }

  /** Whatever `process` adds for one use of a statement is a variable the statement reads. */
  lemma ProcessedUseIsReadVar(s: Stmt, e: RValue, v: Var)
    requires e in Uses(s) && v in Processed(e)
    ensures v in UseVars(s)
  {
    var u: RValue;
    if e.VarExp? {
      u := e;
    } else {
      if e.InvokeInstanceExp? && v != e.receiver {
        u :| u in ExpUses(e) && u.VarExp? && u.v == v;
      } else if e.ArrayAccess? && v != e.base {
        u := ExpUses(e)[1];
      } else {
        u := ExpUses(e)[0];
      }
      OperandIsUse(s, e, u);
    }
    assert u in Uses(s) && u.VarExp? && u.v == v;
  }

  /** What `process` adds over all the uses of a statement is exactly the set of variables the
      statement reads: every operand it picks out of a compound expression is listed among the
      uses on its own. */
  lemma ProcessedUsesAreReadVars(s: Stmt)
    ensures ProcessedEach(Uses(s)) == UseVars(s)
  {
    var uses := Uses(s);
    forall v | v in ProcessedEach(uses)
      ensures v in UseVars(s)
    {
      ProcessedEachIn(uses, v);
      var i :| 0 <= i < |uses| && v in Processed(uses[i]);
      ProcessedUseIsReadVar(s, uses[i], v);
    }
    forall v | v in UseVars(s)
      ensures v in ProcessedEach(uses)
    {
      var e :| e in uses && e.VarExp? && e.v == v;
      var i :| 0 <= i < |uses| && uses[i] == e;
      ProcessedEachIn(uses, v);
    }
  }

  /** The transfer as written agrees with the classic equation `in = use ∪ (out − def)` as long
      as the old in fact holds nothing beyond it, and always contains it. */
  lemma TransferIsClassic(s: Stmt, inFact: set<Var>, outFact: set<Var>)
    ensures LiveIn(s, outFact) <= Transfer(s, inFact, outFact)
    ensures inFact <= LiveIn(s, outFact) ==> Transfer(s, inFact, outFact) == LiveIn(s, outFact)
  {
    ProcessedUsesAreReadVars(s);
  }

  /** The transfer is monotone in both facts, and applying it again to its own result changes
      nothing. */
  lemma TransferMonotoneIdempotent(s: Stmt, in1: set<Var>, out1: set<Var>, in2: set<Var>, out2: set<Var>)
    ensures in1 <= in2 && out1 <= out2 ==> Transfer(s, in1, out1) <= Transfer(s, in2, out2)
    ensures Transfer(s, Transfer(s, in1, out1), out1) == Transfer(s, in1, out1)
  {
    ProcessedUsesAreReadVars(s);
  }

  /** The defined variable is live before the statement exactly when the statement reads it. */
  lemma DefLiveOnlyIfRead(s: Stmt, inFact: set<Var>, outFact: set<Var>)
    requires Def(s).Some?
    ensures Def(s).value in Transfer(s, inFact, outFact) <==> Def(s).value in UseVars(s)
  {
    ProcessedUsesAreReadVars(s);
  }
}
