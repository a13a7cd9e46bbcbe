/**
 * The PEG node language of cornelius/src/peg.rs (the `define_language!`
 * enum) and the predicates defined on a single node.
 *
 * A node is either a literal (`Num`, `Long`, `Bool`, `Symbol`) or an
 * operator applied to a list of child e-class ids.  The prototype languages
 * under src/ use a subset of the same operators, plus three of their own
 * (`Swap`, `EqDistr`, `NeqDistr`); they share this datatype.
 */
module PegTerm {
  import opened Wrappers
  import opened Primitives
  import Decimal

  /** The operators of the language; the comment after each gives its text form. */
  datatype Op =
    | Error | Unit | Null
    | IsNull | IsUnit
    | Add | Mul | Div | Rem | Sub | Neg
    | And | Or
    | BinAnd | BinOr | BinNeg
    | SRShift | URShift | LShift
    | Not | Xor
    | Lt | Lte | Gt | Gte | Equ | Neq
    | PostInc | PostDec | PreInc | PreDec
    | Phi | Var
    | AccessPath | Derefs | Heap | Wr | Rd | ReturnNode
    | Invoke | InvokeToHeapState | InvokeToExceptionStatus | InvokeToPeg | InvokeStatic
    | MethodName | Actuals | ExitCondition
    | CanCast | Cast | TypeName | New
    | Theta | Blank | Pass | Eval
    | MaxExpr | ContextNil | ContextCons
    | ArrayNil | ArrayCons | ArrayAccess
    | Nil | Cons
    | TypeAnnotation | InstanceOf
    // operators of the prototype languages only
    | Swap | EqDistr | NeqDistr

  /** A node: a literal, or an operator over child ids. */
  datatype Peg =
    | Num(n: JavaInt)
    | Long(l: JavaLong)
    | Bool(b: bool)
    | Symbol(name: string)
    | Node(op: Op, args: seq<nat>)

  /** How many children an operator takes. */
  datatype Shape = Fixed(count: nat) | Variadic

  /** The operator's name in cornelius/src/peg.rs. */
  function OpName(op: Op): string {
    match op
    case Error => "error"
    case Unit => "unit"
    case Null => "null"
    case IsNull => "isnull?"
    case IsUnit => "isunit?"
    case Add => "+"
    case Mul => "*"
    case Div => "/"
    case Rem => "%"
    case Sub => "-"
    case Neg => "---"
    case And => "&&"
    case Or => "||"
    case BinAnd => "&"
    case BinOr => "|"
    case BinNeg => "~"
    case SRShift => ">>"
    case URShift => ">>>"
    case LShift => "<<"
    case Not => "!"
    case Xor => "^"
    case Lt => "<"
    case Lte => "<="
    case Gt => ">"
    case Gte => ">="
    case Equ => "=="
    case Neq => "!="
    case PostInc => "_++"
    case PostDec => "_--"
    case PreInc => "++_"
    case PreDec => "--_"
    case Phi => "phi"
    case Var => "var"
    case AccessPath => "path"
    case Derefs => "derefs"
    case Heap => "heap"
    case Wr => "wr"
    case Rd => "rd"
    case ReturnNode => "return-node"
    case Invoke => "invoke"
    case InvokeToHeapState => "invoke->heap-state"
    case InvokeToExceptionStatus => "invoke->exception-status"
    case InvokeToPeg => "invoke->peg"
    case InvokeStatic => "invoke-static"
    case MethodName => "method"
    case Actuals => "actuals"
    case ExitCondition => "exit-conditions"
    case CanCast => "can-cast?"
    case Cast => "cast"
    case TypeName => "type-name"
    case New => "new"
    case Theta => "theta"
    case Blank => "blank"
    case Pass => "pass"
    case Eval => "eval"
    case MaxExpr => "max-expr"
    case ContextNil => "ctx-nil"
    case ContextCons => "ctx-cons"
    case ArrayNil => "array-nil"
    case ArrayCons => "array-cons"
    case ArrayAccess => "array-access"
    case Nil => "nil"
    case Cons => "cons"
    case TypeAnnotation => "type-annotation"
    case InstanceOf => "instanceof"
    case Swap => "swap"
    case EqDistr => "eq-distr"
    case NeqDistr => "neq-distr"
  }

  /** The operators that cornelius/src/peg.rs declares (the last three belong to the prototype). */
  predicate InCornelius(op: Op) {
    !(op.Swap? || op.EqDistr? || op.NeqDistr?)
  }

  /** The arity cornelius/src/peg.rs declares for each of its operators. */
  function Arity(op: Op): Shape
    requires InCornelius(op)
  {
    match op
    case Error => Fixed(0)
    case Unit => Fixed(0)
    case Null => Fixed(0)
    case ContextNil => Fixed(0)
    case ArrayNil => Fixed(0)
    case Nil => Fixed(0)
    case IsNull => Fixed(1)
    case IsUnit => Fixed(1)
    case Neg => Fixed(1)
    case BinNeg => Fixed(1)
    case Not => Fixed(1)
    case PostInc => Fixed(1)
    case PostDec => Fixed(1)
    case PreInc => Fixed(1)
    case PreDec => Fixed(1)
    case Derefs => Fixed(1)
    case InvokeToHeapState => Fixed(1)
    case InvokeToExceptionStatus => Fixed(1)
    case InvokeToPeg => Fixed(1)
    case MethodName => Fixed(1)
    case TypeName => Fixed(1)
    case Blank => Fixed(1)
    case Pass => Fixed(1)
    case Phi => Fixed(3)
    case Wr => Fixed(3)
    case InvokeStatic => Fixed(3)
    case New => Fixed(3)
    case ContextCons => Fixed(3)
    case TypeAnnotation => Fixed(3)
    case Invoke => Fixed(4)
    case MaxExpr => Fixed(4)
    case Actuals => Variadic
    case ExitCondition => Variadic
    case _ => Fixed(2)
  }

  /** A node of the cornelius language with the declared number of children. */
  predicate WellFormed(p: Peg) {
    p.Node? ==> InCornelius(p.op) && (Arity(p.op).Fixed? ==> |p.args| == Arity(p.op).count)
  }

  function Children(p: Peg): seq<nat> {
    if p.Node? then p.args else []
  }

  /** `Peg::is_const`: a number of either width or a boolean. */
  predicate IsConst(p: Peg) {
    p.Num? || p.Long? || p.Bool?
  }

  /** `Peg::is_var`. */
  predicate IsVar(p: Peg) {
    p.Node? && p.op == Var
  }

  /** A number of either width. */
  predicate IsNumber(p: Peg) {
    p.Num? || p.Long?
  }

  /** `Peg::is_num_binop`. */
  predicate IsNumBinop(p: Peg) {
    p.Node? && p.op in {Op.Add, Op.Mul, Op.Div, Op.Sub, Op.BinOr, Op.BinAnd, Op.LShift, Op.URShift, Op.SRShift}
  }

  /** `Peg::is_bool_binop`. */
  predicate IsBoolBinop(p: Peg) {
    p.Node? && p.op in {Op.And, Op.Or}
  }

  /** `Peg::is_binop`. */
  predicate IsBinop(p: Peg) {
    IsBoolBinop(p) || IsNumBinop(p)
  }

  /** `Peg::is_ground`: a symbol or a constant. */
  predicate IsGround(p: Peg) {
    p.Symbol? || IsConst(p)
  }

  /** `Peg::as_bool`. */
  function AsBool(p: Peg): (r: Option<bool>)
    ensures r.Some? <==> p.Bool?
    ensures r.Some? ==> p == Bool(r.value)
  {
    if p.Bool? then Some(p.b) else None
  }

  /** The text of a node without its children: the operator name, or the literal's `Display`. */
  function DisplayOp(p: Peg): string {
    match p
    case Num(n) => Decimal.IntToString(n.v as int)
    case Long(l) => Decimal.IntToString(l.v as int)
    case Bool(b) => if b then "true" else "false"
    case Symbol(s) => s
    case Node(op, _) => OpName(op)
  }

  /** `Display` of a `Long` has no `l` suffix, so its text is that of the `Num` with the same value. */
  lemma LongDisplaysAsNum(x: i32)
    ensures DisplayOp(Long(JavaLong(x as int as i64))) == DisplayOp(Num(JavaInt(x)))
    ensures DisplayOp(Long(JavaLong(5))) == "5"
  {
    assert Decimal.NatToString(5) == "5";
  }
}
