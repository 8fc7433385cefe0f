/** The part of Tai-e's intermediate representation that the intraprocedural analyses read:
    typed variables, right-hand-side expressions and statements, with the `getDef` and
    `getUses` views of a statement that the analyses are written against. */
module IR {
  import opened Wrappers
  import opened JavaInt

  datatype PrimitiveType = BYTE | SHORT | INT | CHAR | BOOLEAN | LONG | FLOAT | DOUBLE

  datatype Type = Primitive(prim: PrimitiveType) | Reference

  /** A local variable (or parameter) of a method body, identified by its handle. */
  datatype Var = Var(id: nat, ty: Type)

  datatype ArithmeticOp = ADD | SUB | MUL | DIV | REM
  datatype ConditionOp = EQ | NE | LT | GT | LE | GE
  datatype ShiftOp = SHL | SHR | USHR
  datatype BitwiseOp = OR | AND | XOR

  /** The operator of a binary expression, tagged with the expression's class
      (`ArithmeticExp`, `ConditionExp`, `ShiftExp`, `BitwiseExp`, `ComparisonExp`). */
  datatype BinaryOp =
    | Arithmetic(aop: ArithmeticOp)
    | Condition(cop: ConditionOp)
    | Shift(sop: ShiftOp)
    | Bitwise(bop: BitwiseOp)
    | Comparison

  /** Right-hand-side expressions. Operands are variables, as in Tai-e's three-address form. */
  datatype RValue =
    | VarExp(v: Var)
    | IntLiteral(value: int32)
    | OtherLiteral
    | BinaryExp(op: BinaryOp, operand1: Var, operand2: Var)
    | UnaryExp(operand: Var)
    | ArrayLengthExp(base: Var)
    | ArrayAccess(base: Var, index: Var)
    | FieldAccess(fieldBase: Option<Var>)
    | NewExp
    | CastExp(castValue: Var)
    | InvokeInstanceExp(receiver: Var, args: seq<Var>)
    | InvokeStaticExp(staticArgs: seq<Var>)
  {
    predicate IsInvoke() { InvokeInstanceExp? || InvokeStaticExp? }
  }

  /** Left-hand sides of assignments: a variable, a field or an array element. */
  datatype LValue =
    | LVar(v: Var)
    | LField(fieldBase: Option<Var>)
    | LArray(base: Var, index: Var)

  datatype StmtKind =
    | Assign(lhs: LValue, rhs: RValue)
    | Call(result: Option<Var>, receiver: Option<Var>, args: seq<Var>)
    | If(cond: ConditionOp, operand1: Var, operand2: Var)
    | Switch(selector: Var)
    | Return(value: Option<Var>)
    | Nop

  /** The invocation expression of a call: an instance call when it has a receiver. */
  function InvokeOf(receiver: Option<Var>, args: seq<Var>): (e: RValue)
    ensures e.IsInvoke()
  {
    match receiver
    case Some(r) => InvokeInstanceExp(r, args)
    case None => InvokeStaticExp(args)
  }

  /** A statement with its index in the method body and its source line (negative for
      synthetic statements such as the CFG's entry and exit). */
  datatype Stmt = Stmt(index: nat, lineNumber: int, kind: StmtKind)

  /** The variables an expression reads, in Tai-e's `getUses` order, each wrapped as an expression. */
  function ExpUses(e: RValue): seq<RValue>
  {
    match e
    case BinaryExp(_, a, b) => [VarExp(a), VarExp(b)]
    case UnaryExp(a) => [VarExp(a)]
    case ArrayLengthExp(a) => [VarExp(a)]
    case ArrayAccess(a, i) => [VarExp(a), VarExp(i)]
    case FieldAccess(Some(a)) => [VarExp(a)]
    case CastExp(a) => [VarExp(a)]
    case InvokeInstanceExp(r, args) => [VarExp(r)] + VarExps(args)
    case InvokeStaticExp(args) => VarExps(args)
    case _ => []
  }

  function VarExps(vs: seq<Var>): (r: seq<RValue>)
    ensures |r| == |vs|
    ensures forall i :: 0 <= i < |vs| ==> r[i] == VarExp(vs[i])
  {
    if vs == [] then [] else [VarExp(vs[0])] + VarExps(vs[1..])
  }

  function LValueUses(l: LValue): seq<RValue>
  {
    match l
    case LVar(_) => []
    case LField(Some(a)) => [VarExp(a)]
    case LField(None) => []
    case LArray(a, i) => [VarExp(a), VarExp(i)]
  }

  /** `stmt.getUses()`: the left-hand side's uses, the right-hand side's uses, then the
      right-hand side itself; for an `if`, both operands and the condition. */
  function Uses(s: Stmt): seq<RValue>
  {
    match s.kind
    case Assign(l, r) => LValueUses(l) + ExpUses(r) + [r]
    case Call(_, recv, args) => ExpUses(InvokeOf(recv, args)) + [InvokeOf(recv, args)]
    case If(op, a, b) => [VarExp(a), VarExp(b), BinaryExp(Condition(op), a, b)]
    case Switch(v) => [VarExp(v)]
    case Return(Some(v)) => [VarExp(v)]
    case Return(None) => []
    case Nop => []
  }

  /** `stmt.getDef()` when the defined location is a variable. */
  function Def(s: Stmt): Option<Var>
  {
    match s.kind
    case Assign(LVar(x), _) => Some(x)
    case Call(Some(x), _, _) => Some(x)
    case _ => None
  }

  /** The variables a statement reads. */
  function UseVars(s: Stmt): set<Var>
  {
    set e | e in Uses(s) && e.VarExp? :: e.v
  }

  /** `canHoldInt`: the variable's type is one Java represents as an `int` in the analysis. */
  function CanHoldInt(v: Var): (r: bool)
    ensures r <==> v.ty.Primitive? && v.ty.prim !in {LONG, FLOAT, DOUBLE}
  {
    match v.ty
    case Primitive(BYTE) | Primitive(SHORT) | Primitive(INT) | Primitive(CHAR) | Primitive(BOOLEAN) => true
    case _ => false
  }

  /** The operands of an expression are plain variables. */
  lemma OperandsAreVars(e: RValue)
    ensures forall u :: u in ExpUses(e) ==> u.VarExp?
  {
    if e.InvokeInstanceExp? {
      assert forall u :: u in ExpUses(e) ==> u == VarExp(e.receiver) || u in VarExps(e.args);
    }
  }

  /** The uses of a statement are plain variables, except possibly the last one. */
  lemma UsesButLastAreVars(s: Stmt)
    ensures forall k :: 0 <= k < |Uses(s)| - 1 ==> Uses(s)[k].VarExp?
  {
    match s.kind
    case Assign(l, r) =>
      OperandsAreVars(r);
      var ops := LValueUses(l) + ExpUses(r);
      assert Uses(s) == ops + [r];
      forall k | 0 <= k < |Uses(s)| - 1 ensures Uses(s)[k].VarExp? {
        assert Uses(s)[k] == ops[k] && ops[k] in ops;
      }
    case Call(_, recv, args) =>
      OperandsAreVars(InvokeOf(recv, args));
      forall k | 0 <= k < |Uses(s)| - 1 ensures Uses(s)[k].VarExp? {
        assert Uses(s)[k] in ExpUses(InvokeOf(recv, args));
      }
    case _ =>
  }

  /** The operands of the last use of a statement are listed among its uses. */
  lemma LastUseOperandsListed(s: Stmt)
    requires Uses(s) != []
    ensures forall u :: u in ExpUses(Uses(s)[|Uses(s)| - 1]) ==> u in Uses(s)
  {
    var uses := Uses(s);
    match s.kind
    case Assign(l, r) =>
      assert uses == (LValueUses(l) + ExpUses(r)) + [r];
    case Call(_, recv, args) =>
      assert uses == ExpUses(InvokeOf(recv, args)) + [InvokeOf(recv, args)];
    case If(op, a, b) =>
      assert ExpUses(uses[2]) == [uses[0], uses[1]];
    case Switch(v) =>
      assert ExpUses(uses[0]) == [];
    case Return(_) =>
      assert ExpUses(uses[0]) == [];
    case Nop =>
  }

  /** Every variable an expression mentions is listed among the statement's uses. */
  lemma {:induction false} UsesListOperands(s: Stmt)
    ensures forall e :: e in Uses(s) ==> forall u :: u in ExpUses(e) ==> u in Uses(s)
  {
    var uses := Uses(s);
    forall e | e in uses
      ensures forall u :: u in ExpUses(e) ==> u in uses
    {
      var k :| 0 <= k < |uses| && uses[k] == e;
      if k < |uses| - 1 {
        UsesButLastAreVars(s);
        assert e.VarExp? && ExpUses(e) == [];
      } else {
        LastUseOperandsListed(s);
      }
    }
  }
}
