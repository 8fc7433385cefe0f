/** Intraprocedural constant propagation over Java `int` variables: the value lattice, the
    `CPFact` maps, `meetInto`, `evaluate` and `transferNode`. */
module ConstProp {
  import opened Wrappers
  import opened JavaInt
  import opened IR
  import Lattice

  /** The lattice of one variable: UNDEF on top, the constants, NAC at the bottom. */
  datatype Value = Undef | Const(constant: int32) | NAC

  /** A `CPFact`: a map from variables to values that never stores UNDEF; a variable it does
      not hold reads as UNDEF. */
  type CPFact = m: map<Var, Value> | forall v :: v in m ==> m[v] != Undef witness map[]

  /** `fact.get(v)`. */
  function Get(f: CPFact, v: Var): Value
  {
    if v in f then f[v] else Undef
  }

  /** `fact.update(v, val)`: storing UNDEF removes the variable. */
  function Update(f: CPFact, v: Var, val: Value): (r: CPFact)
    ensures Get(r, v) == val
    ensures forall w :: w != v ==> Get(r, w) == Get(f, w)
  {
    if val == Undef then f - {v} else f[v := val]
  }

  /** Two facts that read the same for every variable are the same fact. */
  lemma FactExtensionality(f: CPFact, g: CPFact)
    requires forall v :: Get(f, v) == Get(g, v)
    ensures f == g
  {
    forall v | v in f
      ensures v in g && f[v] == g[v]
    {
      assert Get(f, v) == Get(g, v);
    }
    forall v | v in g
      ensures v in f
    {
      assert Get(f, v) == Get(g, v);
    }
  }

  lemma UpdateUpdate(f: CPFact, x: Var, a: Value, b: Value)
    ensures Update(Update(f, x, a), x, b) == Update(f, x, b)
  {
    FactExtensionality(Update(Update(f, x, a), x, b), Update(f, x, b));
  }

  lemma UpdateSame(f: CPFact, x: Var)
    ensures Update(f, x, Get(f, x)) == f
  {
    FactExtensionality(Update(f, x, Get(f, x)), f);
  }

  // ---------------------------------------------------------------- boundary and initial facts

  /** `newBoundaryFact`: every parameter that can hold an `int` is NAC on entry. */
  method NewBoundaryFact(params: seq<Var>) returns (fact: CPFact)
    ensures forall v :: Get(fact, v) == (if v in params && CanHoldInt(v) then NAC else Undef)
  {
    fact := map[];
    for i := 0 to |params|
      invariant forall v :: Get(fact, v) == (if v in params[..i] && CanHoldInt(v) then NAC else Undef)
    {
      assert params[..i + 1] == params[..i] + [params[i]];
      if CanHoldInt(params[i]) {
        fact := Update(fact, params[i], NAC);
      }
    }
    assert params[..|params|] == params;
  }

  /** `newInitialFact`: every variable UNDEF. */
  function NewInitialFact(): (f: CPFact)
    ensures forall v :: Get(f, v) == Undef
  {
    map[]
  }

  // ---------------------------------------------------------------- meet

  /** `meetValue`, defined for two values that are not UNDEF. */
  function MeetValue(v1: Value, v2: Value): (r: Value)
    requires v1 != Undef && v2 != Undef
    ensures r != Undef
    ensures r == NAC <==> v1 == NAC || v2 == NAC || v1 != v2
    ensures r != NAC ==> r == v1 == v2
  {
    if v1.NAC? || v2.NAC? then NAC
    else if v1.constant != v2.constant then NAC
    else v1
  }

  /** What `meetInto(fact, target)` leaves in `target` for one variable: a variable UNDEF in
      `target` takes `fact`'s value, one UNDEF in `fact` (absent from it) keeps its own, and
      otherwise the two meet. */
  function MeetOne(fromFact: Value, inTarget: Value): Value
  {
    if inTarget == Undef then fromFact
    else if fromFact == Undef then inTarget
    else MeetValue(fromFact, inTarget)
  }

  /** The target fact after `meetInto(fact, target)`. */
  function MeetFacts(fact: CPFact, target: CPFact): (r: CPFact)
    ensures forall v :: Get(r, v) == MeetOne(Get(fact, v), Get(target, v))
  {
    map v | v in fact.Keys + target.Keys :: MeetOne(Get(fact, v), Get(target, v))
  }

  /** `meetInto`: meets every entry of `fact` into `target`, one variable at a time. */
  method MeetInto(fact: CPFact, target: CPFact) returns (r: CPFact)
    ensures r == MeetFacts(fact, target)
  {
    r := target;
    var keys := fact.Keys;
    while keys != {}
      invariant keys <= fact.Keys
      invariant forall v :: Get(r, v) == (if v in fact.Keys - keys then MeetOne(Get(fact, v), Get(target, v)) else Get(target, v))
      decreases keys
    {
      var k :| k in keys;
      if Get(r, k) == Undef {
        r := Update(r, k, fact[k]);
      } else {
        r := Update(r, k, MeetValue(fact[k], Get(r, k)));
      }
      keys := keys - {k};
    }
    FactExtensionality(r, MeetFacts(fact, target));
  }

  /** The per-variable meet is commutative, associative and idempotent. */
  lemma MeetOneLaws()
    ensures forall a, b :: MeetOne(a, b) == MeetOne(b, a)
    ensures forall a, b, c :: MeetOne(a, MeetOne(b, c)) == MeetOne(MeetOne(a, b), c)
    ensures forall a :: MeetOne(a, a) == a
  {
    forall a, b, c
      ensures MeetOne(a, MeetOne(b, c)) == MeetOne(MeetOne(a, b), c)
    {
      MeetOneAssociative(a, b, c);
    }
  }

  lemma MeetOneAssociative(a: Value, b: Value, c: Value)
    ensures MeetOne(a, MeetOne(b, c)) == MeetOne(MeetOne(a, b), c)
  {
    if a != Undef && b != Undef && c != Undef && a != NAC && b != NAC && c != NAC {
      assert MeetOne(b, c) == MeetValue(b, c);
    }
  }

  /** `meetInto` is the meet of a semilattice on facts. */
  lemma MeetIsSemilattice()
    ensures Lattice.IsSemilattice(MeetFacts)
  {
    MeetOneLaws();
    forall f: CPFact, g: CPFact
      ensures MeetFacts(f, g) == MeetFacts(g, f)
    {
      FactExtensionality(MeetFacts(f, g), MeetFacts(g, f));
    }
    forall f: CPFact, g: CPFact, h: CPFact
      ensures MeetFacts(f, MeetFacts(g, h)) == MeetFacts(MeetFacts(f, g), h)
    {
      FactExtensionality(MeetFacts(f, MeetFacts(g, h)), MeetFacts(MeetFacts(f, g), h));
    }
    forall f: CPFact
      ensures MeetFacts(f, f) == f
    {
      FactExtensionality(MeetFacts(f, f), f);
    }
  }

  /** The order of one variable's lattice: a value is below another when it is the same, or NAC,
      or the other is UNDEF. */
  predicate ValueLeq(a: Value, b: Value)
  {
    MeetOne(a, b) == a
  }

  lemma ValueLeqCases(a: Value, b: Value)
    ensures ValueLeq(a, b) <==> a == b || a == NAC || b == Undef
  {
  }

  /** One fact is below another exactly when it is below it at every variable. */
  lemma FactLeqPointwise(f: CPFact, g: CPFact)
    ensures Lattice.Leq(MeetFacts, f, g) <==> forall v :: ValueLeq(Get(f, v), Get(g, v))
  {
    if forall v :: ValueLeq(Get(f, v), Get(g, v)) {
      FactExtensionality(MeetFacts(f, g), f);
    }
    if Lattice.Leq(MeetFacts, f, g) {
      forall v
        ensures ValueLeq(Get(f, v), Get(g, v))
      {
        assert Get(MeetFacts(f, g), v) == Get(f, v);
      }
    }
  }

  // ---------------------------------------------------------------- evaluate

  /** The six `int` comparisons of a `ConditionExp`. */
  function Compare(op: ConditionOp, a: int32, b: int32): bool
  {
    match op
    case EQ => a == b
    case NE => a != b
    case LT => a < b
    case GT => a > b
    case LE => a <= b
    case GE => a >= b
  }

  /** `evaluate` for operand values that are not UNDEF, with a zero divisor of `%` giving NAC
      as one of `/` does (see `EvaluateAsWritten` for the code as written). */
  function Evaluate(op: BinaryOp, v1: Value, v2: Value): (r: Value)
    requires v1 != Undef && v2 != Undef
    ensures r != Undef
  {
    if v1 == NAC || v2 == NAC then NAC
    else
      var a, b := v1.constant, v2.constant;
      match op
      case Arithmetic(ADD) => Const(Add(a, b))
      case Arithmetic(SUB) => Const(Sub(a, b))
      case Arithmetic(MUL) => Const(Mul(a, b))
      case Arithmetic(DIV) => if b == 0 then NAC else Const(Div(a, b))
      case Arithmetic(REM) => if b == 0 then NAC else Const(Rem(a, b))
      case Condition(c) => Const(if Compare(c, a, b) then 1 else 0)
      case Shift(SHL) => Const(Shl(a, b))
      case Shift(SHR) => Const(Shr(a, b))
      case Shift(USHR) => Const(Ushr(a, b))
      case Bitwise(OR) => Const(Or(a, b))
      case Bitwise(AND) => Const(And(a, b))
      case Bitwise(XOR) => Const(Xor(a, b))
      case Comparison => NAC
  }

  /** `evaluate` as written: `%` by a constant zero is evaluated with Java's `%` and throws. */
  function EvaluateAsWritten(op: BinaryOp, v1: Value, v2: Value): Result<Value>
    requires v1 != Undef && v2 != Undef
  {
    if v1 != NAC && v2 != NAC && op == Arithmetic(REM) && v2.constant == 0 then Failure(DivideByZero)
    else Success(Evaluate(op, v1, v2))
  }

  /** `x % 0` with both operands constant makes the analysis itself throw, where `x / 0` gives NAC. */
  lemma RemByZeroThrows(a: int32)
    ensures EvaluateAsWritten(Arithmetic(REM), Const(a), Const(0)) == Failure(DivideByZero)
    ensures EvaluateAsWritten(Arithmetic(DIV), Const(a), Const(0)) == Success(NAC)
  {
  }

  /** The corrected `evaluate` is total, agrees with the code wherever the code does not throw,
      and sends a zero divisor of `/` and `%` alike to NAC. */
  lemma EvaluateCorrectsRem(op: BinaryOp, v1: Value, v2: Value)
    requires v1 != Undef && v2 != Undef
    ensures EvaluateAsWritten(op, v1, v2).Success? ==> EvaluateAsWritten(op, v1, v2).value == Evaluate(op, v1, v2)
    ensures op.Arithmetic? && op.aop in {DIV, REM} && v2 == Const(0) ==> Evaluate(op, v1, v2) == NAC
  {
  }

  /** On constants, `/` and `%` evaluate to Java's quotient and remainder, which recombine to the
      dividend in `int` arithmetic; a condition evaluates to 0 or 1. */
  lemma EvaluateArithmetic(op: BinaryOp, a: int32, b: int32)
    ensures b != 0 && Evaluate(Arithmetic(DIV), Const(a), Const(b)).Const? && Evaluate(Arithmetic(REM), Const(a), Const(b)).Const? ==>
      Add(Mul(Evaluate(Arithmetic(DIV), Const(a), Const(b)).constant, b), Evaluate(Arithmetic(REM), Const(a), Const(b)).constant) == a
    ensures op.Condition? ==> Evaluate(op, Const(a), Const(b)) in {Const(0), Const(1)}
  {
    if b != 0 {
      DivRemIdentity(a, b);
    }
  }

  /** `evaluate` is monotone: operands lower in the lattice give a result lower in the lattice. */
  lemma EvaluateMonotone(op: BinaryOp, a1: Value, b1: Value, a2: Value, b2: Value)
    requires a2 != Undef && b2 != Undef
    requires ValueLeq(a1, a2) && ValueLeq(b1, b2)
    ensures a1 != Undef && b1 != Undef
    ensures ValueLeq(Evaluate(op, a1, b1), Evaluate(op, a2, b2))
  {
    ValueLeqCases(a1, a2);
    ValueLeqCases(b1, b2);
    ValueLeqCases(Evaluate(op, a1, b1), Evaluate(op, a2, b2));
  }

  // ---------------------------------------------------------------- transfer

  /** The statement defines a variable that can hold an `int`: `transferNode` changes nothing
      else. */
  predicate DefinesInt(s: Stmt)
  {
    Def(s).Some? && CanHoldInt(Def(s).value)
  }

  /** The expression `transferNode` hands to `process`: the third use when there are three and
      it is not an invocation (`x = y op z`), the only use when there is one; otherwise none,
      and the defined variable becomes NAC. */
  function ProcessedExp(s: Stmt): Option<RValue>
  {
    var uses := Uses(s);
    if |uses| == 3 && !uses[2].IsInvoke() then Some(uses[2])
    else if |uses| == 1 then Some(uses[0])
    else None
  }

  /** The value `process` leaves for `x`, reading operands from the in fact `in`: `x` is removed
      before `process` runs, so `x = x` leaves it UNDEF, and it is put back for `x = x op y`,
      so an UNDEF operand there leaves `x` at its in value. */
  function ProcessedValue(x: Var, e: RValue, inFact: CPFact): Value
  {
    match e
    case VarExp(y) => if y == x then Undef else Get(inFact, y)
    case IntLiteral(n) => Const(n)
    case BinaryExp(op, a, b) =>
      if CanHoldInt(a) && CanHoldInt(b) && Get(inFact, a) != Undef && Get(inFact, b) != Undef then
        Evaluate(op, Get(inFact, a), Get(inFact, b))
      else if x == a || x == b then Get(inFact, x)
      else Undef
    case _ => NAC
  }

  /** The out fact `transferNode` computes from the in fact, with a zero divisor of `%` giving
      NAC (see `TransferAsWritten` for the code as written, which throws there). */
  function Transfer(s: Stmt, inFact: CPFact): CPFact
  {
    if !DefinesInt(s) then inFact
    else
      var x := Def(s).value;
      match ProcessedExp(s)
      case Some(e) => Update(inFact, x, ProcessedValue(x, e, inFact))
      case None => Update(inFact, x, NAC)
  }

  /** The value `process` leaves for `x` as written: `x = a % b` over constants with `b` zero
      reaches Java's `%` in `evaluate` and throws. */
  function ProcessedValueAsWritten(x: Var, e: RValue, inFact: CPFact): Result<Value>
  {
    match e
    case BinaryExp(op, a, b) =>
      if CanHoldInt(a) && CanHoldInt(b) && Get(inFact, a) != Undef && Get(inFact, b) != Undef then
        EvaluateAsWritten(op, Get(inFact, a), Get(inFact, b))
      else Success(ProcessedValue(x, e, inFact))
    case _ => Success(ProcessedValue(x, e, inFact))
  }

  /** `f` with `x` set to the value `v`, or the exception computing `v` raised. */
  function Assigned(f: CPFact, x: Var, v: Result<Value>): Result<CPFact>
  {
    match v
    case Success(value) => Success(Update(f, x, value))
    case Failure(err) => Failure(err)
  }

  /** The outcome of `transferNode` as written: the out fact, or the exception it raises. */
  function TransferAsWritten(s: Stmt, inFact: CPFact): Result<CPFact>
  {
    if !DefinesInt(s) then Success(inFact)
    else
      var x := Def(s).value;
      match ProcessedExp(s)
      case Some(e) => Assigned(inFact, x, ProcessedValueAsWritten(x, e, inFact))
      case None => Success(Update(inFact, x, NAC))
  }

  /** The statement is `x = a % b` for an `int` variable `x`, with `a` a constant and `b` the
      constant zero in the in fact. */
  predicate RemByZeroAt(s: Stmt, inFact: CPFact)
  {
    DefinesInt(s) &&
    match ProcessedExp(s)
    case Some(BinaryExp(op, a, b)) =>
      op == Arithmetic(REM) && CanHoldInt(a) && CanHoldInt(b) && Get(inFact, a).Const? && Get(inFact, b) == Const(0)
    case _ => false
  }

  /** The code's transfer throws exactly on a `%` by a constant zero, and otherwise gives the
      out fact of `Transfer`. */
  lemma TransferAsWrittenThrowsOnlyOnRem(s: Stmt, inFact: CPFact)
    ensures TransferAsWritten(s, inFact) ==
      if RemByZeroAt(s, inFact) then Failure(DivideByZero) else Success(Transfer(s, inFact))
  {
  }

  /** `x = a % b` with `a` = 1 and `b` = 0 makes `transferNode` throw. */
  lemma TransferNodeRemByZeroThrows()
    ensures var x, a, b := Var(0, Primitive(INT)), Var(1, Primitive(INT)), Var(2, Primitive(INT));
      var s := Stmt(0, 1, Assign(LVar(x), BinaryExp(Arithmetic(REM), a, b)));
      TransferAsWritten(s, map[a := Const(1), b := Const(0)]) == Failure(DivideByZero)
  {
    var x, a, b := Var(0, Primitive(INT)), Var(1, Primitive(INT)), Var(2, Primitive(INT));
    var s := Stmt(0, 1, Assign(LVar(x), BinaryExp(Arithmetic(REM), a, b)));
    assert ProcessedExp(s) == Some(BinaryExp(Arithmetic(REM), a, b));
  }

  /** The copy of `in` into `out` that starts `transferNode`. */
  method CopyFact(inFact: CPFact) returns (out: CPFact)
    ensures out == inFact
  {
    out := map[];
    var keys := inFact.Keys;
    while keys != {}
      invariant keys <= inFact.Keys
      invariant forall v :: Get(out, v) == (if v in keys then Undef else Get(inFact, v))
      decreases keys
    {
      var k :| k in keys;
      out := Update(out, k, inFact[k]);
      keys := keys - {k};
    }
    FactExtensionality(out, inFact);
  }

  /** `process`: `out` holds the in fact without `x`, whose in value is `pairX`; the result is
      that fact with `x` re-valued, or the exception `evaluate` raised. */
  method Process(x: Var, pairX: Value, flag: bool, e: RValue, out: CPFact) returns (r: Result<CPFact>)
    requires Get(out, x) == Undef
    requires flag <==> pairX != Undef
    ensures r == Assigned(out, x, ProcessedValueAsWritten(x, e, Update(out, x, pairX)))
  {
    ghost var inFact := Update(out, x, pairX);
    UpdateSame(out, x);
    var f := out;
    match e {
      case VarExp(y) =>
        if Get(f, y) == Undef {
          return Success(f);
        }
        f := Update(f, x, Get(f, y));
      case IntLiteral(n) =>
        f := Update(f, x, Const(n));
      case BinaryExp(op, a, b) =>
        if flag && (a == x || b == x) {
          f := Update(f, x, pairX);
        }
        assert forall v :: Get(f, v) == Get(inFact, v) || (v == x && x != a && x != b);
        if !CanHoldInt(a) || !CanHoldInt(b) {
          UpdateSame(inFact, x);
          return Success(f);
        }
        if Get(f, a) == Undef || Get(f, b) == Undef {
          UpdateSame(inFact, x);
          return Success(f);
        }
        var v := EvaluateAsWritten(op, Get(f, a), Get(f, b));
        if v.Failure? {
          return Failure(v.error);
        }
        f := Update(f, x, v.value);
        UpdateUpdate(out, x, pairX, Get(f, x));
      case _ =>
        f := Update(f, x, NAC);
    }
    r := Success(f);
  }

  /** `transferNode`: the new out fact is the in fact with only the defined `int` variable
      re-valued, or the exception a `%` by a constant zero raises; on success the flag says
      whether the out fact changed. */
  method TransferNode(s: Stmt, inFact: CPFact, out: CPFact) returns (newOut: Result<CPFact>, changed: bool)
    ensures newOut == TransferAsWritten(s, inFact)
    ensures newOut == if RemByZeroAt(s, inFact) then Failure(DivideByZero) else Success(Transfer(s, inFact))
    ensures newOut.Success? ==> (changed <==> newOut.value != out)
  {
    TransferAsWrittenThrowsOnlyOnRem(s, inFact);
    var tmp := out;
    var f := CopyFact(inFact);
    if !DefinesInt(s) {
      newOut, changed := Success(f), tmp != f;
      return;
    }
    var x := Def(s).value;
    var pairX := Get(f, x);
    var flag := false;
    if pairX != Undef {
      f := Update(f, x, Undef);
      flag := true;
    }
    UpdateSame(inFact, x);
    UpdateUpdate(inFact, x, Undef, pairX);
    var uses := Uses(s);
    if |uses| == 3 && !uses[2].IsInvoke() {
      newOut := Process(x, pairX, flag, uses[2], f);
    } else if |uses| == 1 {
      newOut := Process(x, pairX, flag, uses[0], f);
    } else {
      newOut := Success(Update(f, x, NAC));
    }
    if newOut.Success? {
      UpdateUpdate(inFact, x, Undef, Get(newOut.value, x));
      changed := tmp != newOut.value;
    } else {
      changed := false;
    }
  }

  /** The transfer only re-values the defined `int` variable; every other variable keeps its inFact
      value, and a statement defining no `int` variable passes the fact through. */
  lemma TransferOnlyChangesDef(s: Stmt, inFact: CPFact)
    ensures !DefinesInt(s) ==> Transfer(s, inFact) == inFact
    ensures forall v :: Some(v) != Def(s) ==> Get(Transfer(s, inFact), v) == Get(inFact, v)
  {
  }

  /** What the transfer gives the defined variable, by the statement's shape: a copy reads the
      source variable (UNDEF for a self copy), a literal gives its constant, `x = a op b` over
      defined `int` operands evaluates, and calls and every other right-hand side give NAC. The
      code as written agrees on every shape but `x = a op b`, where its `evaluate` may throw. */
  lemma TransferByShape(s: Stmt, inFact: CPFact)
    requires DefinesInt(s)
    ensures var x := Def(s).value; var r := Get(Transfer(s, inFact), x);
      match s.kind
      case Assign(_, VarExp(y)) => r == (if y == x then Undef else Get(inFact, y))
      case Assign(_, IntLiteral(n)) => r == Const(n)
      case Assign(_, BinaryExp(op, a, b)) =>
        CanHoldInt(a) && CanHoldInt(b) && Get(inFact, a) != Undef && Get(inFact, b) != Undef ==>
          r == Evaluate(op, Get(inFact, a), Get(inFact, b))
      case _ => r == NAC
    ensures var x := Def(s).value;
      match s.kind
      case Assign(_, BinaryExp(op, a, b)) =>
        CanHoldInt(a) && CanHoldInt(b) && Get(inFact, a) != Undef && Get(inFact, b) != Undef ==>
          TransferAsWritten(s, inFact) == Assigned(inFact, x, EvaluateAsWritten(op, Get(inFact, a), Get(inFact, b)))
      case _ => TransferAsWritten(s, inFact) == Success(Transfer(s, inFact))
  {
    var x := Def(s).value;
    match s.kind
    case Assign(l, rhs) =>
      assert l == LVar(x);
      assert Uses(s) == ExpUses(rhs) + [rhs];
    case Call(_, recv, args) =>
      assert Uses(s) == ExpUses(InvokeOf(recv, args)) + [InvokeOf(recv, args)];
  }

  /** The code as written is not monotone: with `x = x + z`, an in fact that knows less about `z`
      (`z` UNDEF) keeps `x` at 5, while one that knows more (`z` = 2) gives 7, and 5 is not below 7. */
  lemma RestoreIsNotMonotone()
    ensures var x, z := Var(0, Primitive(INT)), Var(1, Primitive(INT));
      var s := Stmt(0, 1, Assign(LVar(x), BinaryExp(Arithmetic(ADD), x, z)));
      var lower: CPFact := map[x := Const(5), z := Const(2)];
      var upper: CPFact := map[x := Const(5)];
      Lattice.Leq(MeetFacts, lower, upper) &&
      !Lattice.Leq(MeetFacts, Transfer(s, lower), Transfer(s, upper))
  {
    var x, z := Var(0, Primitive(INT)), Var(1, Primitive(INT));
    var s := Stmt(0, 1, Assign(LVar(x), BinaryExp(Arithmetic(ADD), x, z)));
    var lower: CPFact, upper: CPFact := map[x := Const(5), z := Const(2)], map[x := Const(5)];
    FactLeqPointwise(lower, upper);
    assert ProcessedExp(s) == Some(BinaryExp(Arithmetic(ADD), x, z));
    assert Get(Transfer(s, lower), x) == Const(7);
    assert Get(Transfer(s, upper), x) == Const(5);
    FactLeqPointwise(Transfer(s, lower), Transfer(s, upper));
  }

  /** The code as written forgets a value through a self copy: `x = x` with `x` NAC leaves `x`
      UNDEF. */
  lemma SelfCopyForgets()
    ensures var x := Var(0, Primitive(INT));
      var s := Stmt(0, 1, Assign(LVar(x), VarExp(x)));
      Get(Transfer(s, map[x := NAC]), x) == Undef
  {
    var x := Var(0, Primitive(INT));
    var s := Stmt(0, 1, Assign(LVar(x), VarExp(x)));
    assert ProcessedExp(s) == Some(VarExp(x));
  }

  /** The value the defined variable evidently should get: a copy reads its source, including a
      self copy, and `x = a op b` is UNDEF while an operand is. */
  function IntendedValue(x: Var, e: RValue, inFact: CPFact): Value
  {
    match e
    case VarExp(y) => Get(inFact, y)
    case IntLiteral(n) => Const(n)
    case BinaryExp(op, a, b) =>
      if CanHoldInt(a) && CanHoldInt(b) && Get(inFact, a) != Undef && Get(inFact, b) != Undef then
        Evaluate(op, Get(inFact, a), Get(inFact, b))
      else Undef
    case _ => NAC
  }

  /** The corrected transfer: the code's transfer with `IntendedValue` for the defined variable. */
  function IntendedTransfer(s: Stmt, inFact: CPFact): CPFact
  {
    if !DefinesInt(s) then inFact
    else
      var x := Def(s).value;
      match ProcessedExp(s)
      case Some(e) => Update(inFact, x, IntendedValue(x, e, inFact))
      case None => Update(inFact, x, NAC)
  }

  /** The corrected transfer agrees with the code except on self copies and on `x = x op y` with
      an UNDEF operand, and a copy `x = y` gives `x` the in value of `y` even when `y` is `x`. */
  lemma IntendedTransferCopies(s: Stmt, inFact: CPFact)
    requires DefinesInt(s)
    ensures var x := Def(s).value;
      match s.kind
      case Assign(_, VarExp(y)) => Get(IntendedTransfer(s, inFact), x) == Get(inFact, y)
      case Assign(_, BinaryExp(_, a, b)) => true
      case _ => IntendedTransfer(s, inFact) == Transfer(s, inFact)
  {
    var x := Def(s).value;
    match s.kind
    case Assign(l, rhs) =>
      assert Uses(s) == ExpUses(rhs) + [rhs];
    case Call(_, recv, args) =>
      assert Uses(s) == ExpUses(InvokeOf(recv, args)) + [InvokeOf(recv, args)];
    case _ =>
  }

  /** The corrected transfer is monotone in the in fact. */
  lemma IntendedTransferMonotone(s: Stmt, in1: CPFact, in2: CPFact)
    requires Lattice.Leq(MeetFacts, in1, in2)
    ensures Lattice.Leq(MeetFacts, IntendedTransfer(s, in1), IntendedTransfer(s, in2))
  {
    FactLeqPointwise(in1, in2);
    var out1, out2 := IntendedTransfer(s, in1), IntendedTransfer(s, in2);
    if DefinesInt(s) {
      var x := Def(s).value;
      assert ValueLeq(Get(out1, x), Get(out2, x)) by {
        match ProcessedExp(s)
        case Some(e) =>
          match e {
            case VarExp(y) =>
              assert ValueLeq(Get(in1, y), Get(in2, y));
            case BinaryExp(op, a, b) =>
              assert ValueLeq(Get(in1, a), Get(in2, a));
              assert ValueLeq(Get(in1, b), Get(in2, b));
              ValueLeqCases(Get(in1, a), Get(in2, a));
              ValueLeqCases(Get(in1, b), Get(in2, b));
              if CanHoldInt(a) && CanHoldInt(b) && Get(in2, a) != Undef && Get(in2, b) != Undef {
                EvaluateMonotone(op, Get(in1, a), Get(in1, b), Get(in2, a), Get(in2, b));
              } else {
                ValueLeqCases(Get(out1, x), Get(out2, x));
              }
            case _ =>
          }
        case None =>
      }
      forall v
        ensures ValueLeq(Get(out1, v), Get(out2, v))
      {
        if v != x {
          assert ValueLeq(Get(in1, v), Get(in2, v));
        }
      }
    }
    FactLeqPointwise(out1, out2);
  }
}
