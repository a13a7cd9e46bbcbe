/**
 * The prototype's PEG language and e-class analysis (src/peg.rs).
 *
 * Numbers are plain `i32`: an overflowing `+`, `-`, `*`, `/` or unary `-`
 * panics in a debug build instead of wrapping.  The `Peg::plus` … `Peg::or`
 * folds, shared word for word with src/expr.rs, panic outside their operand
 * kinds; the model states their domain as the precondition `Defined`.  The
 * analysis `eval` is its own arithmetic over the child classes' constants,
 * and unlike the later cornelius/src/peg.rs it folds a division by a known
 * zero to `error` without looking at the dividend.
 */
module LegacyPeg {
  import opened Wrappers
  import opened Primitives
  import opened PegTerm
  import PegFold
  import PegAnalysis

  // ---------------------------------------------------------------------
  // The language
  // ---------------------------------------------------------------------

  /** The operators src/peg.rs declares (its `cond-distr` is the two-child `EqDistr`). */
  predicate InLanguage(op: Op) {
    op in {Op.Error, Op.Add, Op.Mul, Op.Div, Op.Sub, Op.Neg, Op.And, Op.Or, Op.BinAnd, Op.BinOr,
           Op.BinNeg, Op.SRShift, Op.URShift, Op.LShift, Op.Not, Op.Xor, Op.Lt, Op.Lte, Op.Gt,
           Op.Gte, Op.Equ, Op.Neq, Op.Phi, Op.Swap, Op.EqDistr, Op.Var, Op.AccessPath, Op.Derefs,
           Op.Heap, Op.Wr, Op.Rd}
  }

  function Arity(op: Op): nat
    requires InLanguage(op)
  {
    if op == Op.Error then 0
    else if op in {Op.Neg, Op.BinNeg, Op.Not, Op.Var, Op.Derefs, Op.Heap} then 1
    else if op in {Op.Phi, Op.Swap, Op.Wr} then 3
    else 2
  }

  /** A node of the prototype language: no `long` literals, and the declared number of children. */
  predicate WellFormed(p: Peg) {
    !p.Long? && (p.Node? ==> InLanguage(p.op) && |p.args| == Arity(p.op))
  }

  /** `Peg::is_const` of the prototype: an `i32` or a boolean. */
  predicate IsConst(p: Peg) {
    p.Num? || p.Bool?
  }

  /** `x(a)?.as_int()?`: the class's constant, if it is a number. */
  function AsInt(c: Option<Peg>): (r: Option<JavaInt>)
    ensures r.Some? <==> c.Some? && c.value.Num?
    ensures r.Some? ==> c.value == Num(r.value)
  {
    if c.Some? && c.value.Num? then Some(c.value.n) else None
  }

  // ---------------------------------------------------------------------
  // The folds `Peg::plus` … `Peg::or`
  // ---------------------------------------------------------------------

  /** The seventeen fold functions the constant-propagation rules apply. */
  datatype FoldFn =
    | Plus | Equal | Nequal | Lt | Le | Gt | Ge | Minus | Mult | Div
    | BinAnd | BinOr | SRShift | URShift | LShift | And | Or

  /** The folds that give a boolean. */
  predicate IsTest(f: FoldFn) {
    f in {FoldFn.Equal, FoldFn.Nequal, FoldFn.Lt, FoldFn.Le, FoldFn.Gt, FoldFn.Ge, FoldFn.And, FoldFn.Or}
  }

  /** The mathematical result of the four arithmetic folds. */
  function Exact(f: FoldFn, x: int, y: int): int
    requires f in {FoldFn.Plus, FoldFn.Minus, FoldFn.Mult, FoldFn.Div}
    requires f == FoldFn.Div ==> y != 0
  {
    match f
    case Plus => x + y
    case Minus => x - y
    case Mult => x * y
    case Div => TruncDiv(x, y)
  }

  /**
   * Where a fold returns instead of panicking: the operand kinds its one
   * `match` arm accepts, then the debug-build checks of the `i32`
   * operator (overflow, division by zero, a shift distance outside 0..32,
   * which for `srshift` is the distance read as a `u32`).
   */
  predicate Defined(f: FoldFn, a: Peg, b: Peg) {
    match f
    case Equal => (a.Num? && b.Num?) || (a.Bool? && b.Bool?)
    case Nequal => (a.Num? && b.Num?) || (a.Bool? && b.Bool?)
    case And => a.Bool? && b.Bool?
    case Or => a.Bool? && b.Bool?
    case _ => a.Num? && b.Num? && NumDefined(f, a.n.v as int, b.n.v as int)
  }

  predicate NumDefined(f: FoldFn, x: int, y: int) {
    match f
    case Plus => InI32(x + y)
    case Minus => InI32(x - y)
    case Mult => InI32(x * y)
    case Div => y != 0 && !(x == -TWO_31 && y == -1)
    case SRShift => 0 <= y < 32
    case URShift => 0 <= y < 32
    case LShift => 0 <= y < 32
    case _ => true
  }

  /**
   * A fold that returns: a boolean for the tests and a number otherwise;
   * the arithmetic folds give the exact result (it fits, or the fold would
   * have panicked); `srshift` shifts the 32-bit pattern with zeros, `urshift`
   * shifts the signed value, `lshift` drops the bits shifted out.
   */
  function Apply(f: FoldFn, a: Peg, b: Peg): (r: Peg)
    requires Defined(f, a, b)
    ensures r.Bool? <==> IsTest(f)
    ensures r.Num? <==> !IsTest(f)
    ensures f in {FoldFn.Plus, FoldFn.Minus, FoldFn.Mult, FoldFn.Div} ==>
      r.n.v as int == Exact(f, a.n.v as int, b.n.v as int)
    ensures f == FoldFn.SRShift ==> Unsigned(r.n.v as int, 32) == Unsigned(a.n.v as int, 32) / Pow2(b.n.v as int)
    ensures f == FoldFn.URShift ==> r.n.v as int == FloorShift(a.n.v as int, b.n.v as int)
    ensures f == FoldFn.LShift ==> r.n.v as int % TWO_32 == (a.n.v as int * Pow2(b.n.v as int)) % TWO_32
  {
    match f
    case Equal => Bool(a == b)
    case Nequal => Bool(a != b)
    case Lt => Bool(a.n.v < b.n.v)
    case Le => Bool(a.n.v <= b.n.v)
    case Gt => Bool(a.n.v > b.n.v)
    case Ge => Bool(a.n.v >= b.n.v)
    case And => Bool(a.b && b.b)
    case Or => Bool(a.b || b.b)
    case Plus => Num(JavaInt((a.n.v as int + b.n.v as int) as i32))
    case Minus => Num(JavaInt((a.n.v as int - b.n.v as int) as i32))
    case Mult => Num(JavaInt((a.n.v as int * b.n.v as int) as i32))
    case Div => Num(IntDiv(a.n, b.n))
    case BinAnd => Num(IntInt(ArithOp.BitAnd, a.n, b.n))
    case BinOr => Num(IntInt(ArithOp.BitOr, a.n, b.n))
    case SRShift => Num(UShr32(a.n, b.n.v as int))
    case URShift => Num(IntInt(ArithOp.Shr, a.n, b.n))
    case LShift => Num(IntInt(ArithOp.Shl, a.n, b.n))
  }

  /** The fold of cornelius/src/peg.rs with the same name. */
  function Successor(f: FoldFn, a: Peg, b: Peg): PegFold.Fold {
    match f
    case Plus => PegFold.Plus(a, b)
    case Equal => PegFold.Equal(a, b)
    case Nequal => PegFold.Nequal(a, b)
    case Lt => PegFold.Compare(PegFold.Less, a, b)
    case Le => PegFold.Compare(PegFold.LessEq, a, b)
    case Gt => PegFold.Compare(PegFold.Greater, a, b)
    case Ge => PegFold.Compare(PegFold.GreaterEq, a, b)
    case Minus => PegFold.Minus(a, b)
    case Mult => PegFold.Mult(a, b)
    case Div => PegFold.Div(a, b)
    case BinAnd => PegFold.BinAnd(a, b)
    case BinOr => PegFold.BinOr(a, b)
    case SRShift => PegFold.SRShift(a, b)
    case URShift => PegFold.URShift(a, b)
    case LShift => PegFold.LShift(a, b)
    case And => PegFold.And(a, b)
    case Or => PegFold.Or(a, b)
  }

  /**
   * Where a prototype fold returns, the cornelius fold of the same name
   * returns the same literal — except for the two right shifts: the
   * prototype's `urshift` is the cornelius `srshift` (an arithmetic shift),
   * its `srshift` is a logical shift, and the cornelius `urshift` never
   * folds.  Where the prototype panics on an overflow, division by zero or
   * a mixed pair, the cornelius folds wrap, give `error` or give no constant.
   */
  lemma {:induction false} FoldsAgreeWithCornelius(f: FoldFn, a: Peg, b: Peg)
    ensures Defined(f, a, b) && f != FoldFn.SRShift && f != FoldFn.URShift ==>
      Successor(f, a, b) == PegFold.Folded(Apply(f, a, b))
    ensures Defined(FoldFn.URShift, a, b) ==> PegFold.SRShift(a, b) == PegFold.Folded(Apply(FoldFn.URShift, a, b))
    ensures Defined(FoldFn.SRShift, a, b) ==> PegFold.URShift(a, b) == PegFold.NoFold
    ensures a.Num? && b.Num? && !Defined(FoldFn.Plus, a, b) ==> PegFold.Plus(a, b).Folded?
    ensures a.Num? && b == Num(JavaInt(0)) ==> !Defined(FoldFn.Div, a, b) && PegFold.Div(a, b) == PegFold.Folded(PegFold.ErrorNode)
    ensures a.Num? && b.Bool? ==> !Defined(FoldFn.Equal, a, b) && PegFold.Equal(a, b) == PegFold.NoFold
  {
    if Defined(f, a, b) && f != FoldFn.SRShift && f != FoldFn.URShift {
      if f == FoldFn.Plus || f == FoldFn.Minus || f == FoldFn.Mult {
        ArithmeticFoldsAgree(f, a, b);
      } else {
        OtherFoldsAgree(f, a, b);
      }
    }
    ShiftFoldsAgree(a, b);
    PanicsFoldInCornelius(a, b);
  }

  lemma ArithmeticFoldsAgree(f: FoldFn, a: Peg, b: Peg)
    requires Defined(f, a, b) && (f == FoldFn.Plus || f == FoldFn.Minus || f == FoldFn.Mult)
    ensures Successor(f, a, b) == PegFold.Folded(Apply(f, a, b))
  {
    match f
    case Plus => assert Wrap32(a.n.v as int + b.n.v as int) as int == a.n.v as int + b.n.v as int;
    case Minus => assert Wrap32(a.n.v as int - b.n.v as int) as int == a.n.v as int - b.n.v as int;
    case Mult => assert Wrap32(a.n.v as int * b.n.v as int) as int == a.n.v as int * b.n.v as int;
  }

  lemma OtherFoldsAgree(f: FoldFn, a: Peg, b: Peg)
    requires Defined(f, a, b) && f != FoldFn.SRShift && f != FoldFn.URShift
    requires f != FoldFn.Plus && f != FoldFn.Minus && f != FoldFn.Mult
    ensures Successor(f, a, b) == PegFold.Folded(Apply(f, a, b))
  {
  }

  lemma ShiftFoldsAgree(a: Peg, b: Peg)
    ensures Defined(FoldFn.URShift, a, b) ==> PegFold.SRShift(a, b) == PegFold.Folded(Apply(FoldFn.URShift, a, b))
    ensures Defined(FoldFn.SRShift, a, b) ==> PegFold.URShift(a, b) == PegFold.NoFold
  {
  }

  lemma PanicsFoldInCornelius(a: Peg, b: Peg)
    ensures a.Num? && b.Num? && !Defined(FoldFn.Plus, a, b) ==> PegFold.Plus(a, b).Folded?
    ensures a.Num? && b == Num(JavaInt(0)) ==> !Defined(FoldFn.Div, a, b) && PegFold.Div(a, b) == PegFold.Folded(PegFold.ErrorNode)
    ensures a.Num? && b.Bool? ==> !Defined(FoldFn.Equal, a, b) && PegFold.Equal(a, b) == PegFold.NoFold
  {
  }

  /**
   * The prototype's shift names are swapped relative to Java's: `srshift`
   * (Java's `>>`) shifts zeros in like `>>>`, and `urshift` (Java's `>>>`)
   * keeps the sign like `>>`.  The two agree on non-negative values and
   * differ on every negative one shifted by a positive distance.
   */
  lemma ShiftNamesSwapped(x: JavaInt, d: JavaInt)
    requires 0 <= d.v < 32
    ensures x.v >= 0 ==> Apply(FoldFn.SRShift, Num(x), Num(d)) == Apply(FoldFn.URShift, Num(x), Num(d))
    ensures x.v < 0 && d.v > 0 ==>
      Apply(FoldFn.SRShift, Num(x), Num(d)).n.v >= 0 && Apply(FoldFn.URShift, Num(x), Num(d)).n.v < 0
  {
  }

  /** `-8 >> 1` in the prototype is 2147483644. */
  lemma SRShiftExample()
    ensures Apply(FoldFn.SRShift, Num(JavaInt(-8)), Num(JavaInt(1))) == Num(JavaInt(0x7FFF_FFFC))
  {
    UShr32Example();
  }

  /** `-8 >>> 1` in the prototype is -4. */
  lemma URShiftExample()
    ensures Apply(FoldFn.URShift, Num(JavaInt(-8)), Num(JavaInt(1))) == Num(JavaInt(-4))
  {
    assert Pow2(1) == 2;
    assert FloorShift(-8, 1) == -4;
  }

  /** `nequal` negates `equal`; both need two numbers or two booleans, and compare them as values. */
  lemma NequalNegatesEqual(a: Peg, b: Peg)
    ensures Defined(FoldFn.Equal, a, b) <==> Defined(FoldFn.Nequal, a, b)
    ensures Defined(FoldFn.Equal, a, b) ==> Apply(FoldFn.Nequal, a, b) == Bool(!Apply(FoldFn.Equal, a, b).b)
    ensures a.Num? && b.Num? ==> Apply(FoldFn.Equal, a, b) == Bool(a.n.v == b.n.v)
    ensures Defined(FoldFn.Equal, a, b) ==> Apply(FoldFn.Equal, a, b) == Apply(FoldFn.Equal, b, a)
  {
  }

  // ---------------------------------------------------------------------
  // The analysis
  // ---------------------------------------------------------------------

  /** `i32` arithmetic that panics where the exact result does not fit. */
  function Checked(x: int): PegFold.Fold {
    if InI32(x) then PegFold.Folded(Num(JavaInt(x as i32))) else PegFold.Panics
  }

  /** The ordering an ordering operator tests. */
  function OrderingOf(op: Op): PegFold.Ordering
    requires op in {Op.Gte, Op.Gt, Op.Lte, Op.Lt}
  {
    match op
    case Gte => PegFold.GreaterEq
    case Gt => PegFold.Greater
    case Lte => PegFold.LessEq
    case Lt => PegFold.Less
  }

  /**
   * `eval`: the constant of an e-node.  Literals are their own constant.
   * `+`, `-`, `*` and unary `-` need numbers and panic on overflow.  `/`
   * reads the divisor first and gives `error` when it is 0, before the
   * dividend is read.  The orderings need numbers.  `==`/`!=` need two
   * constants of either kind and compare them as whole nodes.  Every other
   * node has none.
   */
  function Eval(g: PegAnalysis.ClassData, node: Peg): (r: PegFold.Fold)
    requires WellFormed(node) && PegAnalysis.ChildrenKnown(g, node)
    ensures IsConst(node) ==> r == PegFold.Folded(node)
    ensures r.Folded? ==> IsConst(r.value) || r.value == PegFold.ErrorNode
    ensures r.Panics? ==> node.Node? && node.op in {Op.Add, Op.Sub, Op.Mul, Op.Div, Op.Neg}
  {
    match node
    case Num(_) => PegFold.Folded(node)
    case Bool(_) => PegFold.Folded(node)
    case Long(_) => PegFold.NoFold
    case Symbol(_) => PegFold.NoFold
    case Node(op, args) =>
      if op in {Op.Add, Op.Sub, Op.Mul} then
        var a, b := AsInt(g[args[0]].constant), AsInt(g[args[1]].constant);
        if a.None? || b.None? then PegFold.NoFold
        else
          var x, y := a.value.v as int, b.value.v as int;
          Checked(if op == Op.Add then x + y else if op == Op.Sub then x - y else x * y)
      else if op == Op.Div then
        var d := AsInt(g[args[1]].constant);
        if d.None? then PegFold.NoFold
        else if d.value.v == 0 then PegFold.Folded(PegFold.ErrorNode)
        else
          var a := AsInt(g[args[0]].constant);
          if a.None? then PegFold.NoFold
          else if a.value == INT_MIN && d.value.v == -1 then PegFold.Panics
          else PegFold.Folded(Num(IntDiv(a.value, d.value)))
      else if op == Op.Neg then
        var a := AsInt(g[args[0]].constant);
        if a.None? then PegFold.NoFold else Checked(-(a.value.v as int))
      else if op in {Op.Gte, Op.Gt, Op.Lte, Op.Lt} then
        var a, b := AsInt(g[args[0]].constant), AsInt(g[args[1]].constant);
        if a.None? || b.None? then PegFold.NoFold
        else PegFold.Folded(Bool(PegFold.Holds(OrderingOf(op), a.value.v as int, b.value.v as int)))
      else if op == Op.Equ || op == Op.Neq then
        var a, b := g[args[0]].constant, g[args[1]].constant;
        if a.None? || b.None? then PegFold.NoFold
        else if IsConst(a.value) && IsConst(b.value) then PegFold.Folded(Bool((a.value == b.value) == (op == Op.Equ)))
        else PegFold.NoFold
      else PegFold.NoFold
  }

  /** The fold function that agrees with `eval` on an operator both handle. */
  function FoldOf(op: Op): FoldFn
    requires op in {Op.Add, Op.Sub, Op.Mul, Op.Div, Op.Gte, Op.Gt, Op.Lte, Op.Lt}
  {
    match op
    case Add => FoldFn.Plus
    case Sub => FoldFn.Minus
    case Mul => FoldFn.Mult
    case Div => FoldFn.Div
    case Gte => FoldFn.Ge
    case Gt => FoldFn.Gt
    case Lte => FoldFn.Le
    case Lt => FoldFn.Lt
  }

  /**
   * On two number constants with a nonzero divisor, `eval` folds exactly
   * where the fold function of the same operator returns, to the same
   * literal, and panics exactly where that fold would panic.
   */
  lemma EvalAgreesWithFolds(g: PegAnalysis.ClassData, node: Peg)
    requires WellFormed(node) && PegAnalysis.ChildrenKnown(g, node)
    requires node.Node? && node.op in {Op.Add, Op.Sub, Op.Mul, Op.Div, Op.Gte, Op.Gt, Op.Lte, Op.Lt}
    requires var a, b := g[node.args[0]].constant, g[node.args[1]].constant;
      a.Some? && a.value.Num? && b.Some? && b.value.Num? && b.value.n.v != 0
    ensures var a, b := g[node.args[0]].constant.value, g[node.args[1]].constant.value;
      if Defined(FoldOf(node.op), a, b) then Eval(g, node) == PegFold.Folded(Apply(FoldOf(node.op), a, b))
      else Eval(g, node) == PegFold.Panics
  {
  }

  /**
   * Division by a class whose constant is the number 0 is `error` even
   * when the dividend has no constant; the cornelius `eval` needs both
   * constants first and gives none there.
   */
  lemma DivisionByKnownZero(g: PegAnalysis.ClassData, node: Peg)
    requires WellFormed(node) && PegAnalysis.ChildrenKnown(g, node)
    requires node.Node? && node.op == Op.Div && g[node.args[1]].constant == Some(Num(JavaInt(0)))
    ensures Eval(g, node) == PegFold.Folded(PegFold.ErrorNode)
    ensures PegTerm.WellFormed(node)
    ensures g[node.args[0]].constant.None? ==> PegAnalysis.Eval(g, node) == PegFold.NoFold
  {
  }

  /**
   * The orderings fold exactly when both constants are numbers, `==`/`!=`
   * exactly when both are constants of either kind: a number never equals
   * a boolean, where the fold `Peg::equal` would panic.  `!=` negates `==`.
   */
  lemma ComparisonsFold(g: PegAnalysis.ClassData, node: Peg)
    requires WellFormed(node) && PegAnalysis.ChildrenKnown(g, node)
    requires node.Node? && node.op in {Op.Gte, Op.Gt, Op.Lte, Op.Lt, Op.Equ, Op.Neq}
    ensures var a, b := g[node.args[0]].constant, g[node.args[1]].constant;
      && (node.op in {Op.Gte, Op.Gt, Op.Lte, Op.Lt} ==>
           (Eval(g, node).Folded? <==> a.Some? && a.value.Num? && b.Some? && b.value.Num?))
      && (node.op in {Op.Equ, Op.Neq} ==>
           (Eval(g, node).Folded? <==> a.Some? && IsConst(a.value) && b.Some? && IsConst(b.value)))
      && (node.op in {Op.Equ, Op.Neq} && a.Some? && a.value.Num? && b.Some? && b.value.Bool? ==>
           Eval(g, node) == PegFold.Folded(Bool(node.op == Op.Neq)) && !Defined(FoldFn.Equal, a.value, b.value))
      && !Eval(g, node).Panics?
    ensures node.op in {Op.Equ, Op.Neq} && Eval(g, node).Folded? ==>
      Eval(g, node.(op := Op.Equ)) == PegFold.Folded(Bool(!Eval(g, node.(op := Op.Neq)).value.b))
  {
  }

  /**
   * Without overflow the prototype and cornelius agree on `+`, `-`, `*`
   * and the orderings over `int` constants; where the prototype panics on
   * an overflow, cornelius wraps and folds.
   */
  lemma EvalAgreesWithCornelius(g: PegAnalysis.ClassData, node: Peg)
    requires WellFormed(node) && PegAnalysis.ChildrenKnown(g, node)
    requires node.Node? && node.op in {Op.Add, Op.Sub, Op.Mul, Op.Gte, Op.Gt, Op.Lte, Op.Lt}
    requires var a, b := g[node.args[0]].constant, g[node.args[1]].constant;
      a.Some? && a.value.Num? && b.Some? && b.value.Num?
    ensures PegTerm.WellFormed(node)
    ensures Eval(g, node).Folded? ==> PegAnalysis.Eval(g, node) == Eval(g, node)
    ensures Eval(g, node).Panics? ==> PegAnalysis.Eval(g, node).Folded?
  {
    var x, y := g[node.args[0]].constant.value.n.v as int, g[node.args[1]].constant.value.n.v as int;
    assert InI32(x + y) ==> Wrap32(x + y) as int == x + y;
    assert InI32(x - y) ==> Wrap32(x - y) as int == x - y;
    assert InI32(x * y) ==> Wrap32(x * y) as int == x * y;
  }

  /** `make`: a `var` node records itself as the class's variable; any other node records its constant. */
  function Make(g: PegAnalysis.ClassData, node: Peg): (d: PegAnalysis.AnalysisData)
    requires WellFormed(node) && PegAnalysis.ChildrenKnown(g, node)
    requires !Eval(g, node).Panics?
    ensures IsVar(node) ==> d == PegAnalysis.AnalysisData(None, Some(node))
    ensures !IsVar(node) ==> d.variable.None? && (d.constant.Some? <==> Eval(g, node).Folded?)
    ensures d.constant.Some? ==> d.constant == Some(Eval(g, node).value)
  {
    if IsVar(node) then PegAnalysis.AnalysisData(None, Some(node))
    else
      var c := Eval(g, node);
      PegAnalysis.AnalysisData(if c.Folded? then Some(c.value) else None, None)
  }

  /** A constant, if any, is one of the prototype's literals or `error`. */
  predicate LiteralConstant(d: PegAnalysis.AnalysisData) {
    d.constant.Some? ==> IsConst(d.constant.value) || d.constant.value == PegFold.ErrorNode
  }

  /** `modify` over the prototype's `make`: the class's constant added and unioned in, the class's data kept. */
  function Modify(g: PegAnalysis.ClassData, cls: PegAnalysis.EClass): (r: PegAnalysis.EClass)
    requires LiteralConstant(cls.data)
    ensures cls.data.constant.None? ==> r == cls
    ensures cls.data.constant.Some? ==> r.nodes == cls.nodes + {cls.data.constant.value}
    ensures r.data == cls.data
  {
    match cls.data.constant
    case None => cls
    case Some(c) =>
      ModifyIsStable(g, cls.data);
      PegAnalysis.EClass(cls.nodes + {c}, PegAnalysis.Merge(cls.data, Make(g, c)).0)
  }

  /**
   * `modify` adds the class's constant and unions it with the class; the
   * literal it adds is a node of the language whose own data (`make`)
   * merges into the class without any change, so `modify` reaches a fixed
   * point after one step.  `merge` is the same first-non-empty combination
   * as in cornelius (`PegAnalysis.Merge`).
   */
  lemma ModifyIsStable(g: PegAnalysis.ClassData, d: PegAnalysis.AnalysisData)
    requires d.constant.Some? && (IsConst(d.constant.value) || d.constant.value == PegFold.ErrorNode)
    ensures var c := d.constant.value;
      WellFormed(c) && PegAnalysis.ChildrenKnown(g, c) && !Eval(g, c).Panics? &&
      PegAnalysis.Merge(d, Make(g, c)) == (d, false)
  {
  }

  /** What `make` records as a constant is always something `modify` can add: a literal or `error`. */
  lemma MadeConstantsAreLiterals(g: PegAnalysis.ClassData, node: Peg)
    requires WellFormed(node) && PegAnalysis.ChildrenKnown(g, node) && !Eval(g, node).Panics?
    ensures var d := Make(g, node);
      d.constant.Some? ==> ((IsConst(d.constant.value) || d.constant.value == PegFold.ErrorNode) &&
                            WellFormed(d.constant.value))
  {
  }
}
