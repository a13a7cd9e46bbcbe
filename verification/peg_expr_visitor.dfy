/**
 * Translation of Java expressions into PEG nodes
 * (serializer/src/main/java/serializer/peg/PegExprVisitor.java).  A
 * visit takes the node table and a context and gives back the table and
 * an `ExprResult`, or an exception.  Literal operands are folded with
 * Java's 32-bit semantics, `||`, `&&` and `?:` become `phi` nodes over
 * merged contexts, division raises a guarded `DivideByZeroError`, field
 * reads raise a guarded `NullPointerException`, and assignments update
 * either a local variable or the heap.
 *
 * Expressions are the JavaParser node kinds the visitor overrides and
 * needs; method calls, object creation, casts and array accesses are not
 * part of this model.
 */
module PegExprVisitor {
  import opened Wrappers
  import opened Primitives
  import opened JavaLang
  import opened PegNodes
  import opened PegContexts
  import opened ExpressionResults
  import SerializerUtil
  import Text

  // ------------------------------------------------------------ syntax

  datatype BinaryOp =
    | Or | And | BinaryOr | BinaryAnd | Xor | Equals | NotEquals
    | Less | Greater | LessEquals | GreaterEquals
    | LeftShift | SignedRightShift | UnsignedRightShift
    | Plus | Minus | Multiply | Divide | Remainder

  datatype UnaryOp =
    | Positive | Negative | LogicalComplement | BitwiseComplement
    | PreIncrement | PreDecrement | PostIncrement | PostDecrement
  {
    predicate IsIncDec() { PreIncrement? || PreDecrement? || PostIncrement? || PostDecrement? }
    predicate IsPrefix() { PreIncrement? || PreDecrement? }
  }

  /** `=`, or `op=` carrying the binary operator `op`. */
  datatype AssignOp = Simple | Compound(op: BinaryOp)

  /** The expression kinds whose visit throws a `RuntimeException` naming them. */
  datatype Refusal = ClassExpr | MethodReferenceExpr | LambdaExpr | LongLiteralExpr | InstanceOfExpr

  datatype Expr =
    | IntegerLiteral(text: string)
    | BooleanLiteral(flag: bool)
    | StringLiteral(chars: string)
    | NullLiteral
    | Name(name: string)
    | This
    | Enclosed(inner: Expr)
    | Binary(bop: BinaryOp, left: Expr, right: Expr)
    | Unary(uop: UnaryOp, operand: Expr)
    | Conditional(cond: Expr, thn: Expr, els: Expr)
    | FieldAccess(scope: Expr, field: string)
    | Assign(target: Expr, aop: AssignOp, value: Expr)
    | VariableDeclaration(declarators: seq<Declarator>)
    | Refused(kind: Refusal)

  datatype Declarator = Declarator(varName: string, init: Option<Expr>)

  /**
   * Which translation a visit performs.  `AsWritten` is the visitor as the
   * code stands: `x op= v` assigns `v`, and a write to `o.a.b` goes through
   * the path `.bb`.  `Intended` reads `x op= v` as `x = x op v` (section
   * 15.26.2 of the Java Language Specification) and writes `o.a.b` through
   * the path `a.b`.  Everything else is the same under both.
   */
  datatype Reading = AsWritten | Intended

  /** The `PegOp` symbol of each binary operator. */
  function Symbol(op: BinaryOp): string {
    match op
    case Or => "||"
    case And => "&&"
    case BinaryOr => "|"
    case BinaryAnd => "&"
    case Xor => "^"
    case Equals => "=="
    case NotEquals => "!="
    case Less => "<"
    case Greater => ">"
    case LessEquals => "<="
    case GreaterEquals => ">="
    case LeftShift => "<<"
    case SignedRightShift => ">>"
    case UnsignedRightShift => ">>>"
    case Plus => "+"
    case Minus => "-"
    case Multiply => "*"
    case Divide => "/"
    case Remainder => "%"
  }

  function RefusalMessage(k: Refusal): string {
    match k
    case ClassExpr => "ClassExpr"
    case MethodReferenceExpr => "MethodReferenceExpr"
    case LambdaExpr => "LambdaExpr"
    case LongLiteralExpr => "LongLiteralExpr"
    case InstanceOfExpr => "InstanceOf"
  }

  // ------------------------------------------------------------ literal folding

  /** `asInteger()`: present only on `IntLit` nodes. */
  function AsInteger(n: Node): (r: Option<i32>)
    ensures r.Some? <==> n.shape.IntLit?
    ensures r.Some? ==> n.shape == IntLit(r.value)
  {
    if n.shape.IntLit? then Some(n.shape.value) else None
  }

  /** `asBoolean()`: present only on `BoolLit` nodes. */
  function AsBoolean(n: Node): (r: Option<bool>)
    ensures r.Some? <==> n.shape.BoolLit?
    ensures r.Some? ==> n.shape == BoolLit(r.value)
  {
    if n.shape.BoolLit? then Some(n.shape.flag) else None
  }

  /** The operators `handleBinExpr` folds over two `int` literals. */
  predicate IntFolded(op: BinaryOp) {
    op.BinaryOr? || op.BinaryAnd? || op.Xor? || op.Plus? || op.Minus? || op.Multiply? || op.Divide? || op.Remainder?
  }

  /**
   * Java's `int` operators: `+`, `-`, `*` wrap to 32 bits, `/` and `%`
   * truncate toward zero (`MIN / -1` wraps to `MIN`, `MIN % -1` is 0), and
   * `|`, `&`, `^` work on the two's complement bits.
   */
  function JavaIntOp(op: BinaryOp, a: i32, b: i32): (r: i32)
    requires IntFolded(op) && (op.Divide? || op.Remainder? ==> b != 0)
    ensures op.Plus? ==> r as int % TWO_32 == (a as int + b as int) % TWO_32
    ensures op.Minus? ==> r as int % TWO_32 == (a as int - b as int) % TWO_32
    ensures op.Multiply? ==> r as int % TWO_32 == (a as int * b as int) % TWO_32
    ensures op.Divide? ==> r as int % TWO_32 == TruncDiv(a as int, b as int) % TWO_32
    ensures op.Remainder? ==> a as int == b as int * TruncDiv(a as int, b as int) + r as int
  {
    match op
    case Plus => Wrap32(a as int + b as int)
    case Minus => Wrap32(a as int - b as int)
    case Multiply => Wrap32(a as int * b as int)
    case Divide => Wrap32(TruncDiv(a as int, b as int))
    case Remainder =>
      assert Abs(TruncRem(a as int, b as int)) < Abs(b as int);
      TruncRem(a as int, b as int) as i32
    case BinaryOr => Bitwise32(BitOp.Or, a, b)
    case BinaryAnd => Bitwise32(BitOp.And, a, b)
    case Xor => Bitwise32(BitOp.Xor, a, b)
  }

  function ArithOpOf(op: BinaryOp): ArithOp
    requires IntFolded(op)
  {
    match op
    case Plus => ArithOp.Add
    case Minus => ArithOp.Sub
    case Multiply => ArithOp.Mul
    case Divide => ArithOp.Div
    case Remainder => ArithOp.Rem
    case BinaryOr => ArithOp.BitOr
    case BinaryAnd => ArithOp.BitAnd
    case Xor => ArithOp.BitXor
  }

  /**
   * The folding agrees with the `int` arithmetic of the analyser's
   * evaluator wherever that is defined; the one case it leaves undefined,
   * `MIN % -1`, folds to 0 as in Java.
   */
  lemma JavaIntOpAgrees(op: BinaryOp, a: i32, b: i32)
    requires IntFolded(op) && (op.Divide? || op.Remainder? ==> b != 0)
    ensures IntIntDefined(ArithOpOf(op), JavaInt(a), JavaInt(b)) ==>
      JavaIntOp(op, a, b) == IntInt(ArithOpOf(op), JavaInt(a), JavaInt(b)).v
    ensures op.Remainder? && a as int == -TWO_31 && b == -1 ==> JavaIntOp(op, a, b) == 0
  {
    if op.Divide? {
      var x, y := a as int, b as int;
      if !(JavaInt(a) == INT_MIN && y == -1) {
        DivInRange(x, y, TWO_31);
      }
    }
  }

  /** `~v`: the bitwise complement, `-v - 1`, never overflows. */
  function Complement(v: i32): i32 {
    (-(v as int) - 1) as i32
  }

  /** Complementing twice gives the value back, and no value is its own complement. */
  lemma ComplementInvolutive(v: i32)
    ensures Complement(Complement(v)) == v
    ensures Complement(v) != v
    ensures (v < 0) != (Complement(v) < 0)
  {
  }

  // ------------------------------------------------------------ small steps

  /** The operator node `sym(lhs, rhs)` in the right operand's context. */
  function OpResult(t: Table, sym: string, lhs: ExprResult, rhs: ExprResult): (r: Step<ExprResult>)
    ensures r.out.Returns? ==> r.out.value.context == rhs.context
  {
    var (t1, n) :- OpNodeOf(t, sym, [lhs.peg.id, rhs.peg.id]);
    Step(t1, Returns(ExprResult(n, rhs.context)))
  }

  /** A literal node in the given context. */
  function LiteralResult(t: Table, shape: Shape, c: Context): (r: Step<ExprResult>)
    requires KeyOf(shape).Some?
    ensures r.out.Returns? ==> r.out.value.context == c
  {
    var (t1, n) :- LiteralOf(t, shape);
    Step(t1, Returns(ExprResult(n, c)))
  }

  /** The part of a context a translation never changes: the field names and the type map. */
  predicate SameScope(a: Context, b: Context) {
    a.fieldNames == b.fieldNames && a.typeMap == b.typeMap
  }

  /**
   * `||` and `&&`: two boolean literals fold; otherwise `phi(lhs, true, rhs)`
   * over `combine(lhs, rhs)` for `||`, and `phi(lhs, rhs, false)` over
   * `combine(rhs, lhs)` for `&&`, both guarded by the left operand.
   */
  function ShortCircuit(t: Table, op: BinaryOp, lhs: ExprResult, rhs: ExprResult): (r: Step<ExprResult>)
    requires op.Or? || op.And?
    requires IsHeap(lhs.context.heap) && IsHeap(rhs.context.heap)
    ensures r.out.Returns? ==> IsHeap(r.out.value.context.heap)
    ensures SameScope(lhs.context, rhs.context) && r.out.Returns? ==> SameScope(r.out.value.context, rhs.context)
  {
    var lb, rb := AsBoolean(lhs.peg), AsBoolean(rhs.peg);
    if lb.Some? && rb.Some? then
      LiteralResult(t, BoolLit(if op.Or? then lb.value || rb.value else lb.value && rb.value), rhs.context)
    else if op.Or? then
      var (t1, tru) :- BoolLitOf(t, true);
      var (t2, phi) :- PhiOf(t1, lhs.peg.id, tru.id, rhs.peg.id);
      var (t3, combined) :- Combine(t2, lhs.context, rhs.context, lhs.peg.id);
      Step(t3, Returns(ExprResult(phi, combined)))
    else
      var (t1, fls) :- BoolLitOf(t, false);
      var (t2, phi) :- PhiOf(t1, lhs.peg.id, rhs.peg.id, fls.id);
      var (t3, combined) :- Combine(t2, rhs.context, lhs.context, lhs.peg.id);
      Step(t3, Returns(ExprResult(phi, combined)))
  }

  /**
   * `/` and `%`: two literals fold when the divisor is not zero and give
   * `unit` when it is; otherwise `phi(rhs == 0, unit, lhs op rhs)`.
   */
  function Division(t: Table, op: BinaryOp, lhs: ExprResult, rhs: ExprResult): (r: Step<ExprResult>)
    requires op.Divide? || op.Remainder?
    ensures r.out.Returns? ==> r.out.value.context == rhs.context
  {
    var li, ri := AsInteger(lhs.peg), AsInteger(rhs.peg);
    if li.Some? && ri.Some? then
      if ri.value != 0 then LiteralResult(t, IntLit(JavaIntOp(op, li.value, ri.value)), rhs.context)
      else
        var (t1, unit) :- UnitOf(t);
        Step(t1, Returns(ExprResult(unit, rhs.context)))
    else
      var (t1, zero) :- IntLitOf(t, 0);
      var (t2, cond) :- OpNodeOf(t1, "==", [rhs.peg.id, zero.id]);
      var (t3, value) :- OpNodeOf(t2, Symbol(op), [lhs.peg.id, rhs.peg.id]);
      var (t4, unit) :- UnitOf(t3);
      var (t5, phi) :- PhiOf(t4, cond.id, unit.id, value.id);
      Step(t5, Returns(ExprResult(phi, rhs.context)))
  }

  /**
   * `handleBinExpr`: folds literal operands, turns `||` and `&&` into
   * `phi` nodes, guards `/` and `%`, and otherwise builds the operator
   * node.  `==` and `!=` would fold only when the two results are the same
   * object, which two visits never give, so they always build a node.
   */
  function HandleBinExpr(t: Table, op: BinaryOp, lhs: ExprResult, rhs: ExprResult): (r: Step<ExprResult>)
    requires IsHeap(lhs.context.heap) && IsHeap(rhs.context.heap)
    ensures r.out.Returns? ==> IsHeap(r.out.value.context.heap)
    ensures SameScope(lhs.context, rhs.context) && r.out.Returns? ==> SameScope(r.out.value.context, rhs.context)
    ensures !(op.Or? || op.And?) ==> r.out.Returns? ==> r.out.value.context == rhs.context
  {
    var li, ri := AsInteger(lhs.peg), AsInteger(rhs.peg);
    var lb, rb := AsBoolean(lhs.peg), AsBoolean(rhs.peg);
    if op.Or? || op.And? then ShortCircuit(t, op, lhs, rhs)
    else if op.Divide? || op.Remainder? then Division(t, op, lhs, rhs)
    else if IntFolded(op) && li.Some? && ri.Some? then
      LiteralResult(t, IntLit(JavaIntOp(op, li.value, ri.value)), rhs.context)
    else if op.Xor? && lb.Some? && rb.Some? then
      LiteralResult(t, BoolLit(lb.value != rb.value), rhs.context)
    else OpResult(t, Symbol(op), lhs, rhs)
  }

  /**
   * The division check of `visit(BinaryExpr)`: `rhs == 0`, conjoined with
   * `!exitConditions` when the right operand's context has any, raises
   * `java.lang.DivideByZeroError`; the peg stays.
   */
  function DivByZeroCheck(t: Table, rhs: ExprResult): (r: Step<ExprResult>)
    requires IsHeap(rhs.context.heap)
    ensures r.out.Returns? ==> r.out.value.peg == rhs.peg && IsHeap(r.out.value.context.heap)
    ensures r.out.Returns? ==> var c := r.out.value.context;
      c == rhs.context.(heap := c.heap, exitConditions := c.exitConditions)
      && (forall y :: Has(rhs.context.exitConditions, y) ==> Has(c.exitConditions, y))
  {
    var (t1, zero) :- IntLitOf(t, 0);
    var (t2, isZero) :- OpNodeOf(t1, "==", [rhs.peg.id, zero.id]);
    var (t3, throwCond) :-
      if rhs.context.exitConditions == [] then Step(t2, Returns(isZero))
      else
        var (t', exits) :- ExitConditionsOf(t2, rhs.context.exitConditions);
        var (t'', notExited) :- OpNodeOf(t', "!", [exits.id]);
        OpNodeOf(t'', "&&", [notExited.id, isZero.id]);
    var (t4, exc) :- ExceptionOf(t3, "java.lang.DivideByZeroError");
    WithExceptionConditionOf(t4, rhs, throwCond, exc)
  }

  /** The part of `visit(BinaryExpr)` after both operands: the division check, then `handleBinExpr`. */
  function BinaryOf(t: Table, op: BinaryOp, lhs: ExprResult, rhs: ExprResult): (r: Step<ExprResult>)
    requires IsHeap(lhs.context.heap) && IsHeap(rhs.context.heap)
    ensures r.out.Returns? ==> IsHeap(r.out.value.context.heap)
    ensures SameScope(lhs.context, rhs.context) && r.out.Returns? ==> SameScope(r.out.value.context, rhs.context)
  {
    if op.Divide? || op.Remainder? then
      var (t1, checked) :- DivByZeroCheck(t, rhs);
      HandleBinExpr(t1, op, lhs, checked)
    else HandleBinExpr(t, op, lhs, rhs)
  }

  /** `this`: `getLocalVar("this")` in the unchanged context. */
  function VisitThis(t: Table, c: Context): (r: Step<ExprResult>)
    ensures r.out.Returns? ==> r.out.value.context == c
  {
    var (t1, n) :- GetLocalVar(t, c, "this");
    Step(t1, Returns(ExprResult(n, c)))
  }

  /**
   * `Util.parseInt(text)` as a literal node, or IllegalStateException
   * naming `shown`: the literal's own text, which for a negated literal is
   * the text without its minus sign.
   */
  function IntegerLiteralOf(t: Table, text: string, shown: string, c: Context): (r: Step<ExprResult>)
    ensures SerializerUtil.ParseInt(Some(text)).None? ==> r == Step(t, Throws(Throw(IllegalState, "Invalid integer literal: " + shown)))
    ensures SerializerUtil.ParseInt(Some(text)).Some? ==> r == LiteralResult(t, IntLit(SerializerUtil.ParseInt(Some(text)).value), c)
  {
    match SerializerUtil.ParseInt(Some(text))
    case Some(v) => LiteralResult(t, IntLit(v), c)
    case None => Step(t, Throws(Throw(IllegalState, "Invalid integer literal: " + shown)))
  }

  // ------------------------------------------------------------ field paths

  /** The field names of a chain `base.f1.f2...fn`, outermost last. */
  function FieldChain(e: Expr): (r: seq<string>)
    ensures |r| == 0 <==> !e.FieldAccess?
  {
    if e.FieldAccess? then FieldChain(e.scope) + [e.field] else []
  }

  /** The innermost scope of a chain of field accesses. */
  function Base(e: Expr): (r: Expr)
    ensures !r.FieldAccess?
    ensures e.FieldAccess? ==> r < e
    ensures !e.FieldAccess? ==> r == e
  {
    if e.FieldAccess? then Base(e.scope) else e
  }

  /**
   * The loop of `getPathFromFieldAccessExpr` with the name it prepends
   * taken from the scope it steps into: `x.a.b` gives `a.b`.
   */
  function DerefLoop(fa: Expr, acc: string): string
    requires fa.FieldAccess?
  {
    if fa.scope.FieldAccess? then DerefLoop(fa.scope, fa.scope.field + "." + acc) else acc
  }

  /** The dereference string of `scope.field`. */
  function Derefs(scope: Expr, field: string): string {
    DerefLoop(FieldAccess(scope, field), field)
  }

  /**
   * The loop as written: it prepends `.` and the name of the access it is
   * on rather than of the scope it steps into, so `x.a.b` gives `.bb`.
   */
  function DerefLoopAsWritten(fa: Expr, acc: string): string
    requires fa.FieldAccess?
  {
    if fa.scope.FieldAccess? then DerefLoopAsWritten(fa.scope, "." + fa.field + acc) else acc
  }

  function DerefsAsWritten(scope: Expr, field: string): string {
    DerefLoopAsWritten(FieldAccess(scope, field), field)
  }

  lemma {:induction false} DerefLoopJoins(fa: Expr, ns: seq<string>)
    requires fa.FieldAccess? && ns != []
    ensures DerefLoop(fa, Text.Join(ns, '.')) == Text.Join(FieldChain(fa.scope) + ns, '.')
    decreases fa
  {
    if fa.scope.FieldAccess? {
      var g := fa.scope.field;
      assert Text.Join([g] + ns, '.') == g + "." + Text.Join(ns, '.') by {
        assert ([g] + ns)[1..] == ns;
      }
      DerefLoopJoins(fa.scope, [g] + ns);
      assert FieldChain(fa.scope.scope) + [g] + ns == FieldChain(fa.scope.scope) + ([g] + ns);
    } else {
      assert FieldChain(fa.scope) + ns == ns;
    }
  }

  /** The path of `base.f1...fn` names every field in order, separated by `.`. */
  lemma DerefsJoinFields(scope: Expr, field: string)
    ensures Derefs(scope, field) == Text.Join(FieldChain(FieldAccess(scope, field)), '.')
  {
    DerefLoopJoins(FieldAccess(scope, field), [field]);
  }

  /** As written, one field is right but two fields `x.a.b` give `.bb`: `a` is lost and `b` doubled. */
  lemma DerefsAsWrittenDoubles(base: Expr, a: string, b: string)
    requires !base.FieldAccess?
    ensures DerefsAsWritten(base, a) == a == Derefs(base, a)
    ensures DerefsAsWritten(FieldAccess(base, a), b) == "." + b + b
    ensures Derefs(FieldAccess(base, a), b) == a + "." + b
  {
    assert DerefLoopAsWritten(FieldAccess(FieldAccess(base, a), b), b) == DerefLoopAsWritten(FieldAccess(base, a), "." + b + b);
    assert DerefLoop(FieldAccess(FieldAccess(base, a), b), b) == DerefLoop(FieldAccess(base, a), a + "." + b);
  }

  /** `path(base, derefs)` in the context the path was asked for, not the base's. */
  function PathFrom(t: Table, base: ExprResult, derefs: string, c: Context): (r: Step<ExprResult>)
    ensures r.out.Returns? ==> r.out.value.context == c
  {
    var (t1, path) :- PathOf(t, base.peg.id, derefs);
    Step(t1, Returns(ExprResult(path, c)))
  }

  /** `performWrite` after the path: the heap becomes `wrHeap(path, value, heap)`; the peg is the path. */
  function WriteThrough(t: Table, path: ExprResult, value: Node): (r: Step<ExprResult>)
    requires IsHeap(path.context.heap)
    ensures r.out.Returns? ==> r.out.value.peg == path.peg && IsHeap(r.out.value.context.heap)
    ensures r.out.Returns? ==> r.out.value.context == WithHeap(path.context, r.out.value.context.heap)
  {
    var (t1, heap) :- WrHeapOf(t, path.peg.id, value.id, path.context.heap);
    Step(t1, Returns(WithHeapOf(path, heap)))
  }

  // ------------------------------------------------------------ the visitor

  /** The visit of an expression: its value's PEG and the context after it. */
  function Visit(t: Table, e: Expr, c: Context, rd: Reading): (r: Step<ExprResult>)
    requires IsHeap(c.heap)
    ensures r.out.Returns? ==> IsHeap(r.out.value.context.heap) && SameScope(r.out.value.context, c)
    decreases e, 3
  {
    match e
    case IntegerLiteral(text) => IntegerLiteralOf(t, text, text, c)
    case BooleanLiteral(b) => LiteralResult(t, BoolLit(b), c)
    case StringLiteral(s) => LiteralResult(t, StringLit(s), c)
    case NullLiteral =>
      var (t1, n) :- OpNodeOf(t, "null", []);
      Step(t1, Returns(ExprResult(n, c)))
    case Name(name) =>
      var (t1, n) :- GetLocalVar(t, c, name);
      Step(t1, Returns(ExprResult(n, c)))
    case This => VisitThis(t, c)
    case Enclosed(inner) => Visit(t, inner, c, rd)
    case Binary(_, _, _) => VisitBinary(t, e, c, rd)
    case Unary(_, _) => VisitUnary(t, e, c, rd)
    case Conditional(_, _, _) => VisitConditional(t, e, c, rd)
    case FieldAccess(_, _) => VisitFieldAccess(t, e, c, rd)
    case Assign(_, _, _) => VisitAssign(t, e, c, rd)
    case VariableDeclaration(_) =>
      var (t1, unit) :- UnitOf(t);
      VisitDeclarators(t1, e, 0, ExprResult(unit, c), rd)
    case Refused(k) => Step(t, Throws(Throw(Runtime, RefusalMessage(k))))
  }

  /** `visit(BinaryExpr)`: the right operand is visited in the context the left one left. */
  function VisitBinary(t: Table, e: Expr, c: Context, rd: Reading): (r: Step<ExprResult>)
    requires e.Binary? && IsHeap(c.heap)
    ensures r.out.Returns? ==> IsHeap(r.out.value.context.heap) && SameScope(r.out.value.context, c)
    decreases e, 2
  {
    var (t1, lhs) :- Visit(t, e.left, c, rd);
    var (t2, rhs) :- Visit(t1, e.right, lhs.context, rd);
    BinaryOf(t2, e.bop, lhs, rhs)
  }

  /**
   * `visit(UnaryExpr)`: a minus in front of an integer literal is read as
   * one negative literal; otherwise the operand is visited and `+` keeps
   * it, `-` builds `---`, `!` and `~` fold literals or build their node,
   * and increments and decrements assign.
   */
  function VisitUnary(t: Table, e: Expr, c: Context, rd: Reading): (r: Step<ExprResult>)
    requires e.Unary? && IsHeap(c.heap)
    ensures r.out.Returns? ==> IsHeap(r.out.value.context.heap) && SameScope(r.out.value.context, c)
    decreases e, 2
  {
    if e.uop.Negative? && e.operand.IntegerLiteral? then
      IntegerLiteralOf(t, "-" + e.operand.text, e.operand.text, c)
    else
      var (t1, er) :- Visit(t, e.operand, c, rd);
      if e.uop.IsIncDec() then PerformSideEffectingUnary(t1, e.operand, er, e.uop, rd)
      else UnaryOf(t1, e.uop, er)
  }

  /** The operators `+`, `-`, `!` and `~` over the visited operand, in the operand's context. */
  function UnaryOf(t: Table, op: UnaryOp, er: ExprResult): (r: Step<ExprResult>)
    requires !op.IsIncDec()
    ensures r.out.Returns? ==> r.out.value.context == er.context
  {
    match op
    case Negative =>
      var (t1, n) :- OpNodeOf(t, "---", [er.peg.id]);
      Step(t1, Returns(ExprResult(n, er.context)))
    case Positive => Step(t, Returns(er))
    case LogicalComplement =>
      if AsBoolean(er.peg).Some? then LiteralResult(t, BoolLit(!AsBoolean(er.peg).value), er.context)
      else
        var (t1, n) :- OpNodeOf(t, "!", [er.peg.id]);
        Step(t1, Returns(ExprResult(n, er.context)))
    case BitwiseComplement =>
      if AsInteger(er.peg).Some? then LiteralResult(t, IntLit(Complement(AsInteger(er.peg).value)), er.context)
      else
        var (t1, n) :- OpNodeOf(t, "~", [er.peg.id]);
        Step(t1, Returns(ExprResult(n, er.context)))
  }

  /**
   * `performSideEffectingUnary`: assigns `operand + 1` (or `- 1`) to the
   * operand; a prefix form yields what the assignment yields, a postfix
   * form the operand's old value.
   */
  function PerformSideEffectingUnary(t: Table, target: Expr, er: ExprResult, op: UnaryOp, rd: Reading): (r: Step<ExprResult>)
    requires op.IsIncDec() && IsHeap(er.context.heap)
    ensures r.out.Returns? ==> IsHeap(r.out.value.context.heap) && SameScope(r.out.value.context, er.context)
    ensures r.out.Returns? && !op.IsPrefix() ==> r.out.value.peg == er.peg
    decreases target, 6
  {
    var sym := if op.PreDecrement? || op.PostDecrement? then "-" else "+";
    var (t1, one) :- IntLitOf(t, 1);
    var (t2, value) :- OpNodeOf(t1, sym, [er.peg.id, one.id]);
    var (t3, res) :- PerformAssign(t2, target, value, er.context, rd);
    Step(t3, Returns(if op.IsPrefix() then res else WithPeg(res, er.peg)))
  }

  /**
   * `visit(ConditionalExpr)`: both branches are visited in the condition's
   * context; a literal condition picks one branch with its context,
   * otherwise the result is `phi(cond, thn, els)` over the merged contexts.
   */
  function VisitConditional(t: Table, e: Expr, c: Context, rd: Reading): (r: Step<ExprResult>)
    requires e.Conditional? && IsHeap(c.heap)
    ensures r.out.Returns? ==> IsHeap(r.out.value.context.heap) && SameScope(r.out.value.context, c)
    decreases e, 2
  {
    var (t1, condEr) :- Visit(t, e.cond, c, rd);
    var (t2, thnEr) :- Visit(t1, e.thn, condEr.context, rd);
    var (t3, elsEr) :- Visit(t2, e.els, condEr.context, rd);
    ConditionalOf(t3, condEr, thnEr, elsEr)
  }

  /** The part of `visit(ConditionalExpr)` after the three visits. */
  function ConditionalOf(t: Table, condEr: ExprResult, thnEr: ExprResult, elsEr: ExprResult): (r: Step<ExprResult>)
    requires IsHeap(thnEr.context.heap) && IsHeap(elsEr.context.heap)
    ensures r.out.Returns? ==> IsHeap(r.out.value.context.heap)
    ensures SameScope(thnEr.context, elsEr.context) && r.out.Returns? ==> SameScope(r.out.value.context, thnEr.context)
  {
    match AsBoolean(condEr.peg)
    case Some(b) => Step(t, Returns(if b then thnEr else elsEr))
    case None =>
      var (t1, combined) :- Combine(t, thnEr.context, elsEr.context, condEr.peg.id);
      var (t2, phi) :- OpNodeOf(t1, "phi", [condEr.peg.id, thnEr.peg.id, elsEr.peg.id]);
      Step(t2, Returns(ExprResult(phi, combined)))
  }

  /**
   * `visit(FieldAccessExpr)`: `rd(path(scope, field), heap)` in the
   * scope's heap, with `isnull?(scope)` raising a NullPointerException.
   */
  function VisitFieldAccess(t: Table, e: Expr, c: Context, rd: Reading): (r: Step<ExprResult>)
    requires e.FieldAccess? && IsHeap(c.heap)
    ensures r.out.Returns? ==> IsHeap(r.out.value.context.heap) && SameScope(r.out.value.context, c)
    decreases e, 2
  {
    var (t1, scope) :- Visit(t, e.scope, c, rd);
    FieldRead(t1, scope, e.field)
  }

  /** The part of `visit(FieldAccessExpr)` after the scope's visit. */
  function FieldRead(t: Table, scope: ExprResult, field: string): (r: Step<ExprResult>)
    requires IsHeap(scope.context.heap)
    ensures r.out.Returns? ==> IsHeap(r.out.value.context.heap) && SameScope(r.out.value.context, scope.context)
  {
    var (t1, path) :- PathOf(t, scope.peg.id, field);
    var (t2, isNull) :- IsNullOf(t1, scope.peg.id);
    var (t3, npe) :- ExceptionOf(t2, "java.lang.NullPointerException");
    var (t4, nullCheck) :- WithExceptionCondition(t3, scope.context, isNull, npe);
    var (t5, rdNode) :- RdOf(t4, path.id, scope.context.heap.id);
    Step(t5, Returns(ExprResult(rdNode, nullCheck)))
  }

  /**
   * `visit(AssignExpr)`: the value is visited and assigned to the target.
   * As written the operator is never looked at, so `x op= v` assigns `v`.
   * The intended reading of `x op= v` for a name or field target reads
   * `x`, visits `v` in the context that leaves, and assigns `x op v`.
   */
  function VisitAssign(t: Table, e: Expr, c: Context, rd: Reading): (r: Step<ExprResult>)
    requires e.Assign? && IsHeap(c.heap)
    ensures r.out.Returns? ==> IsHeap(r.out.value.context.heap) && SameScope(r.out.value.context, c)
    decreases e, 2
  {
    if rd.Intended? && e.aop.Compound? && (e.target.Name? || e.target.FieldAccess?) then
      var (t1, lhs) :- Visit(t, e.target, c, rd);
      var (t2, rhs) :- Visit(t1, e.value, lhs.context, rd);
      var (t3, bin) :- BinaryOf(t2, e.aop.op, lhs, rhs);
      PerformAssign(t3, e.target, bin.peg, bin.context, rd)
    else
      var (t1, v) :- Visit(t, e.value, c, rd);
      PerformAssign(t1, e.target, v.peg, v.context, rd)
  }

  /**
   * `performAssign`: a name that is an unshadowed field is written through
   * `this` and yields the path; another name becomes a local and yields
   * the value; a field access is written through its path and yields the
   * value; anything else throws `UnrecognizedAssignmentTarget`.
   */
  function PerformAssign(t: Table, target: Expr, value: Node, c: Context, rd: Reading): (r: Step<ExprResult>)
    requires IsHeap(c.heap)
    ensures r.out.Returns? ==> IsHeap(r.out.value.context.heap) && SameScope(r.out.value.context, c)
    ensures !target.Name? && !target.FieldAccess? ==> r == Step(t, Throws(Throw(Runtime, "UnrecognizedAssignmentTarget")))
    ensures target.FieldAccess? && r.out.Returns? ==> r.out.value.peg == value
    ensures target.FieldAccess? && VisitBase(t, target.scope, c, rd).out.Returns? ==>
      var b := VisitBase(t, target.scope, c, rd);
      r == AssignField(b.table, b.out.value, TargetDerefs(target, rd), value, c)
    decreases target, 5
  {
    match target
    case Name(n) => AssignName(t, n, value, c)
    case FieldAccess(scope, field) =>
      var (t1, base) :- VisitBase(t, scope, c, rd);
      AssignField(t1, base, TargetDerefs(target, rd), value, c)
    case _ => Step(t, Throws(Throw(Runtime, "UnrecognizedAssignmentTarget")))
  }

  /**
   * `performAssign` on a name: an unshadowed field is written through
   * `this` and yields the path; any other name becomes a local and yields
   * the value.
   */
  function AssignName(t: Table, n: string, value: Node, c: Context): (r: Step<ExprResult>)
    requires IsHeap(c.heap)
    ensures r.out.Returns? ==> IsHeap(r.out.value.context.heap) && SameScope(r.out.value.context, c)
  {
    if IsUnshadowedField(c, n) then
      var (t1, self) :- VisitThis(t, c);
      var (t2, path) :- PathFrom(t1, self, n, c);
      WriteThrough(t2, path, value)
    else
      var (t1, c1) :- PerformAssignLocalVar(t, c, n, value);
      Step(t1, Returns(ExprResult(value, c1)))
  }

  /** `performAssign` on a field access once its base is visited: a write through `path(base, derefs)` yielding the value. */
  function AssignField(t: Table, base: ExprResult, derefs: string, value: Node, c: Context): (r: Step<ExprResult>)
    requires IsHeap(c.heap)
    ensures r.out.Returns? ==> r.out.value.peg == value && IsHeap(r.out.value.context.heap) && SameScope(r.out.value.context, c)
  {
    var (t1, path) :- PathFrom(t, base, derefs, c);
    var (t2, written) :- WriteThrough(t1, path, value);
    Step(t2, Returns(WithPeg(written, value)))
  }

  /** The dereference string a field-access target is written through. */
  function TargetDerefs(target: Expr, rd: Reading): string
    requires target.FieldAccess?
  {
    if rd.AsWritten? then DerefsAsWritten(target.scope, target.field) else Derefs(target.scope, target.field)
  }

  /** The visit of the innermost scope of a field-access chain, which `getPathFromFieldAccessExpr` makes. */
  function VisitBase(t: Table, e: Expr, c: Context, rd: Reading): (r: Step<ExprResult>)
    requires IsHeap(c.heap)
    ensures r == Visit(t, Base(e), c, rd)
    decreases e, 4
  {
    if e.FieldAccess? then VisitBase(t, e.scope, c, rd) else Visit(t, e, c, rd)
  }

  /**
   * `visit(VariableDeclarationExpr)` from declarator `i` on: each declarator
   * is visited in the context the previous one left; the result is the
   * last one's, or `unit` in the original context when there is none.
   */
  function VisitDeclarators(t: Table, e: Expr, i: nat, er: ExprResult, rd: Reading): (r: Step<ExprResult>)
    requires e.VariableDeclaration? && i <= |e.declarators| && IsHeap(er.context.heap)
    ensures r.out.Returns? ==> IsHeap(r.out.value.context.heap) && SameScope(r.out.value.context, er.context)
    decreases e, 1, |e.declarators| - i
  {
    if i == |e.declarators| then Step(t, Returns(er))
    else
      var (t1, next) :- VisitDeclarator(t, e, i, er.context, rd);
      VisitDeclarators(t1, e, i + 1, next, rd)
  }

  /**
   * `visit(VariableDeclarator)`: the name is first bound to `unit`, then,
   * with an initializer, assigned its value; the result is `unit`.
   */
  function VisitDeclarator(t: Table, e: Expr, i: nat, c: Context, rd: Reading): (r: Step<ExprResult>)
    requires e.VariableDeclaration? && i < |e.declarators| && IsHeap(c.heap)
    ensures r.out.Returns? ==> IsHeap(r.out.value.context.heap) && SameScope(r.out.value.context, c)
    decreases e, 0
  {
    var d := e.declarators[i];
    var (t1, unit) :- UnitOf(t);
    var declared :- Step(t1, SetLocalVar(c, Some(d.varName), Some(unit)));
    var (t2, c1) := declared;
    var (t3, c2) :-
      match d.init
      case None => Step(t2, Returns(c1))
      case Some(init) =>
        assert init < d;
        var (t', er) :- Visit(t2, init, c1, rd);
        PerformAssignLocalVar(t', er.context, d.varName, er.peg);
    var (t4, unit') :- UnitOf(t3);
    Step(t4, Returns(ExprResult(unit', c2)))
  }
}
