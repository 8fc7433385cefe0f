/** Interprocedural constant propagation: the intraprocedural lattice, meet and statement
    transfer, plus the transfers of call nodes and of the four kinds of edges of the
    interprocedural control-flow graph. */
module InterConstProp {
  import opened Wrappers
  import opened IR
  import opened ConstProp

  // ---------------------------------------------------------------- call nodes

  /** The fact with the call's defined variable, if any, made UNDEF. */
  function KillDef(s: Stmt, fact: CPFact): (r: CPFact)
    ensures forall v :: Get(r, v) == (if Def(s) == Some(v) then Undef else Get(fact, v))
  {
    if Def(s).Some? then Update(fact, Def(s).value, Undef) else fact
  }

  /** `transferCallNode`: the out fact is the in fact without the variable the call defines;
      the value it receives comes in along the return edge. Reports whether out changed. */
  method TransferCallNode(s: Stmt, inFact: CPFact, out: CPFact) returns (newOut: CPFact, changed: bool)
    ensures newOut == KillDef(s, inFact)
    ensures changed <==> newOut != out
  {
    var tmp := out;
    newOut := CopyFact(inFact);
    if Def(s).Some? && Get(newOut, Def(s).value) != Undef {
      newOut := Update(newOut, Def(s).value, Undef);
    }
    FactExtensionality(newOut, KillDef(s, inFact));
    changed := tmp != newOut;
  }

  // ---------------------------------------------------------------- edges

  /** `transferNormalEdge`: a copy of the source's out fact. */
  method TransferNormalEdge(out: CPFact) returns (r: CPFact)
    ensures r == out
  {
    r := CopyFact(out);
  }

  /** `transferCallToReturnEdge`: a copy of the call node's out fact; the copy from which the
      defined variable is removed is discarded. */
  method TransferCallToReturnEdge(s: Stmt, out: CPFact) returns (r: CPFact)
    ensures r == out
  {
    if Def(s).None? {
      r := CopyFact(out);
      return;
    }
    var tmp := CopyFact(out);
    tmp := Update(tmp, Def(s).value, Undef);
    r := CopyFact(out);
  }

  /** Along the call-to-return edge the defined variable is already UNDEF: the call node
      removed it, so the discarded removal loses nothing. */
  lemma CallToReturnLacksDef(s: Stmt, inFact: CPFact)
    requires Def(s).Some?
    ensures Get(KillDef(s, inFact), Def(s).value) == Undef
    ensures forall v :: Def(s) != Some(v) ==> Get(KillDef(s, inFact), v) == Get(inFact, v)
  {
  }

  /** The fact the call edge passes to the callee: walking the formals in order, with argument
      position `first + i` for formal `i`, each formal that can hold an `int` takes its argument's
      value at the call site; an argument position past the end throws. */
  function Bind(params: seq<Var>, args: seq<Var>, first: nat, callSiteOut: CPFact): Result<CPFact>
    decreases |params|
  {
    if params == [] then Success(NewInitialFact())
    else
      var i := |params| - 1;
      var prev := Bind(params[..i], args, first, callSiteOut);
      if prev.Failure? || !CanHoldInt(params[i]) then prev
      else if first + i >= |args| then Failure(IndexOutOfBounds(first + i))
      else Success(Update(prev.value, params[i], Get(callSiteOut, args[first + i])))
  }

  /** Once binding a prefix of the formals throws, binding all of them throws the same. */
  lemma {:induction false} BindFailureSticks(params: seq<Var>, args: seq<Var>, first: nat, callSiteOut: CPFact, k: nat)
    requires k <= |params| && Bind(params[..k], args, first, callSiteOut).Failure?
    ensures Bind(params, args, first, callSiteOut) == Bind(params[..k], args, first, callSiteOut)
    decreases |params| - k
  {
    if k < |params| {
      assert params[..k + 1][..k] == params[..k];
      BindFailureSticks(params, args, first, callSiteOut, k + 1);
    } else {
      assert params[..k] == params;
    }
  }

  /** The loop of `transferCallEdge`: `index` starts at `first` and advances with every formal. */
  method BindArguments(params: seq<Var>, args: seq<Var>, first: nat, callSiteOut: CPFact) returns (r: Result<CPFact>)
    ensures r == Bind(params, args, first, callSiteOut)
  {
    var res := NewInitialFact();
    var index := first;
    for i := 0 to |params|
      invariant index == first + i
      invariant Bind(params[..i], args, first, callSiteOut) == Success(res)
    {
      assert params[..i + 1][..i] == params[..i];
      if CanHoldInt(params[i]) {
        if index >= |args| {
          r := Failure(IndexOutOfBounds(index));
          BindFailureSticks(params, args, first, callSiteOut, i + 1);
          return;
        }
        res := Update(res, params[i], Get(callSiteOut, args[index]));
      }
      index := index + 1;
    }
    assert params[..|params|] == params;
    r := Success(res);
  }

  /** Binding throws exactly when some formal that can hold an `int` has no argument at its
      position. */
  lemma {:induction false} BindFailsIff(params: seq<Var>, args: seq<Var>, first: nat, callSiteOut: CPFact)
    ensures Bind(params, args, first, callSiteOut).Failure? <==>
      exists i :: 0 <= i < |params| && CanHoldInt(params[i]) && first + i >= |args|
    decreases |params|
  {
    if params != [] {
      var n := |params| - 1;
      BindFailsIff(params[..n], args, first, callSiteOut);
      if exists i :: 0 <= i < |params| && CanHoldInt(params[i]) && first + i >= |args| {
        var i :| 0 <= i < |params| && CanHoldInt(params[i]) && first + i >= |args|;
        if i < n {
          assert params[..n][i] == params[i];
        }
      }
      if exists i :: 0 <= i < n && CanHoldInt(params[..n][i]) && first + i >= |args| {
        var i :| 0 <= i < n && CanHoldInt(params[..n][i]) && first + i >= |args|;
        assert params[i] == params[..n][i];
      }
    }
  }

  /** Formals are pairwise distinct. */
  predicate Distinct(params: seq<Var>)
  {
    forall i, j :: 0 <= i < j < |params| ==> params[i] != params[j]
  }

  /** When binding succeeds on distinct formals, formal `i` holds the value of argument
      `first + i` if it can hold an `int`, and every other variable is UNDEF. */
  lemma {:induction false} BindValues(params: seq<Var>, args: seq<Var>, first: nat, callSiteOut: CPFact)
    requires Distinct(params) && Bind(params, args, first, callSiteOut).Success?
    ensures var r := Bind(params, args, first, callSiteOut).value;
      (forall i :: 0 <= i < |params| && CanHoldInt(params[i]) ==>
        first + i < |args| && Get(r, params[i]) == Get(callSiteOut, args[first + i])) &&
      (forall i :: 0 <= i < |params| && !CanHoldInt(params[i]) ==> Get(r, params[i]) == Undef) &&
      (forall v :: v !in params ==> Get(r, v) == Undef)
    decreases |params|
  {
    if params != [] {
      var n := |params| - 1;
      var pre := params[..n];
      assert Distinct(pre);
      BindValues(pre, args, first, callSiteOut);
      var r := Bind(params, args, first, callSiteOut).value;
      var prev := Bind(pre, args, first, callSiteOut).value;
      forall i | 0 <= i < n
        ensures Get(r, params[i]) == Get(prev, params[i])
      {
        assert params[i] == pre[i] && params[i] != params[n];
      }
      forall v | v !in params
        ensures Get(r, v) == Undef
      {
        forall k | 0 <= k < n ensures pre[k] != v {
          assert pre[k] == params[k];
        }
      }
      forall k | 0 <= k < n ensures pre[k] != params[n] {
        assert pre[k] == params[k];
      }
      forall i | 0 <= i < |params| && CanHoldInt(params[i])
        ensures first + i < |args| && Get(r, params[i]) == Get(callSiteOut, args[first + i])
      {
        if i < n {
          assert pre[i] == params[i];
        }
      }
      forall i | 0 <= i < |params| && !CanHoldInt(params[i])
        ensures Get(r, params[i]) == Undef
      {
        if i < n {
          assert pre[i] == params[i];
        }
      }
    }
  }

  /** `transferCallEdge` as written: for a call with a receiver the argument index starts at 1,
      although the argument list does not include the receiver. */
  method TransferCallEdgeAsWritten(call: Stmt, params: seq<Var>, callSiteOut: CPFact) returns (r: Result<CPFact>)
    requires call.kind.Call?
    ensures r == Bind(params, call.kind.args, if call.kind.receiver.None? then 0 else 1, callSiteOut)
  {
    if call.kind.receiver.None? {
      r := BindArguments(params, call.kind.args, 0, callSiteOut);
    } else {
      r := BindArguments(params, call.kind.args, 1, callSiteOut);
    }
  }

  /** `transferCallEdge` as evidently intended: formal `i` takes argument `i` for every kind of
      call. */
  method TransferCallEdge(call: Stmt, params: seq<Var>, callSiteOut: CPFact) returns (r: Result<CPFact>)
    requires call.kind.Call?
    ensures r == Bind(params, call.kind.args, 0, callSiteOut)
  {
    r := BindArguments(params, call.kind.args, 0, callSiteOut);
  }

  /** With as many arguments as distinct formals, the intended call edge never throws and passes
      each `int` formal the value of its own argument, and nothing else. */
  lemma CallEdgeBindsFormals(params: seq<Var>, args: seq<Var>, callSiteOut: CPFact)
    requires |args| == |params| && Distinct(params)
    ensures Bind(params, args, 0, callSiteOut).Success?
    ensures var r := Bind(params, args, 0, callSiteOut).value;
      (forall i :: 0 <= i < |params| ==>
        Get(r, params[i]) == (if CanHoldInt(params[i]) then Get(callSiteOut, args[i]) else Undef)) &&
      (forall v :: v !in params ==> Get(r, v) == Undef)
  {
    BindFailsIff(params, args, 0, callSiteOut);
    BindValues(params, args, 0, callSiteOut);
  }

  /** As written, an instance call whose last formal can hold an `int` always throws, and
      otherwise each `int` formal takes the value of the next argument. */
  lemma InstanceCallEdgeShifts(params: seq<Var>, args: seq<Var>, callSiteOut: CPFact)
    requires |args| == |params| && Distinct(params)
    ensures Bind(params, args, 1, callSiteOut).Failure? <==> |params| > 0 && CanHoldInt(params[|params| - 1])
    ensures Bind(params, args, 1, callSiteOut).Success? ==>
      forall i :: 0 <= i < |params| && CanHoldInt(params[i]) ==>
        i + 1 < |args| && Get(Bind(params, args, 1, callSiteOut).value, params[i]) == Get(callSiteOut, args[i + 1])
  {
    BindFailsIff(params, args, 1, callSiteOut);
    if Bind(params, args, 1, callSiteOut).Success? {
      BindValues(params, args, 1, callSiteOut);
    }
  }

  /** A concrete instance of the shift: for `o.m(a0, a1)` with formals `p0: int` and
      `p1: Object`, where `a0` is 1 and `a1` is 2 at the call, the call edge as written gives `p0`
      the value 2; as intended it gives 1. */
  lemma InstanceCallReadsNextArgument()
    ensures var p0, p1 := Var(10, Primitive(INT)), Var(11, Reference);
      var a0, a1 := Var(0, Primitive(INT)), Var(1, Reference);
      var out: CPFact := map[a0 := Const(1), a1 := Const(2)];
      var shifted: CPFact, intended: CPFact := map[p0 := Const(2)], map[p0 := Const(1)];
      Bind([p0, p1], [a0, a1], 1, out) == Success(shifted) &&
      Bind([p0, p1], [a0, a1], 0, out) == Success(intended)
  {
    var p0, p1 := Var(10, Primitive(INT)), Var(11, Reference);
    var a0, a1 := Var(0, Primitive(INT)), Var(1, Reference);
    var out: CPFact := map[a0 := Const(1), a1 := Const(2)];
    assert [p0, p1][..1] == [p0];
    assert [p0][..0] == [];
    assert CanHoldInt(p0) && !CanHoldInt(p1);
    assert Bind([p0], [a0, a1], 1, out) == Success(Update(NewInitialFact(), p0, Const(2)));
    assert Bind([p0], [a0, a1], 0, out) == Success(Update(NewInitialFact(), p0, Const(1)));
  }

  // ---------------------------------------------------------------- return edges

  /** The value the return edge gives the call's defined variable: NAC for several returned
      variables, the value of the only one, and UNDEF when the callee returns none. */
  function ReturnedValue(returnVars: seq<Var>, returnOut: CPFact): Value
  {
    if |returnVars| > 1 then NAC
    else if |returnVars| == 1 then Get(returnOut, returnVars[0])
    else Undef
  }

  /** The fact the return edge carries: nothing (null) when the call defines no variable,
      otherwise a fact holding only the defined variable. */
  function ReturnEdgeFact(callSite: Stmt, returnVars: seq<Var>, returnOut: CPFact): (r: Option<CPFact>)
    ensures r.None? <==> Def(callSite).None?
    ensures r.Some? ==> forall v :: (Get(r.value, v) ==
      if Def(callSite) == Some(v) then ReturnedValue(returnVars, returnOut) else Undef)
  {
    if Def(callSite).None? then None
    else Some(Update(NewInitialFact(), Def(callSite).value, ReturnedValue(returnVars, returnOut)))
  }

  /** `transferReturnEdge`: the callee's returned value for the call's defined variable. */
  method TransferReturnEdge(callSite: Stmt, returnVars: seq<Var>, returnOut: CPFact) returns (r: Option<CPFact>)
    ensures r == ReturnEdgeFact(callSite, returnVars, returnOut)
  {
    if Def(callSite).None? {
      return None;
    }
    var x := Def(callSite).value;
    var res := NewInitialFact();
    if |returnVars| > 1 {
      res := Update(res, x, NAC);
    } else {
      for i := 0 to |returnVars|
        invariant res == if i == 0 then NewInitialFact() else Update(NewInitialFact(), x, Get(returnOut, returnVars[0]))
      {
        res := Update(res, x, Get(returnOut, returnVars[i]));
      }
    }
    r := Some(res);
  }

  /** At the return site, meeting the return edge's fact into the call-to-return edge's fact
      gives the defined variable exactly the callee's returned value and leaves every other
      variable as it was before the call. */
  lemma ReturnValueReachesDef(s: Stmt, inFact: CPFact, returnVars: seq<Var>, returnOut: CPFact)
    requires Def(s).Some?
    ensures var merged := MeetFacts(ReturnEdgeFact(s, returnVars, returnOut).value, KillDef(s, inFact));
      forall v :: Get(merged, v) == (if Def(s) == Some(v) then ReturnedValue(returnVars, returnOut) else Get(inFact, v))
  {
  }
}
