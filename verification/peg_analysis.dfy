/**
 * The e-class analysis of cornelius/src/peg.rs: the data each e-class
 * carries (`PegAnalysisData`), the constant evaluation of one e-node
 * (`eval`), and the analysis hooks `make`, `merge` and `modify`.
 *
 * The e-graph is the `egg` crate's and is not modelled.  What `eval` and
 * `make` read of it — the analysis data of each child class — is a map
 * from class id to data; `modify` is modelled by the literal it adds to the
 * graph and unions with the class.
 */
module PegAnalysis {
  import opened Wrappers
  import opened Primitives
  import opened PegTerm
  import PegFold

  datatype AnalysisData = AnalysisData(constant: Option<Peg>, variable: Option<Peg>)

  /** `Option::or`: the first value if there is one, else the second. */
  function OrElse<T>(first: Option<T>, second: Option<T>): (r: Option<T>)
    ensures first.Some? ==> r == first
    ensures first.None? ==> r == second
  {
    if first.Some? then first else second
  }

  /** `PegAnalysisData::or`: field by field, an existing value wins. */
  function Combine(self: AnalysisData, other: AnalysisData): AnalysisData {
    AnalysisData(OrElse(self.constant, other.constant), OrElse(self.variable, other.variable))
  }

  /** The analysis data of every class of the e-graph, by class id. */
  type ClassData = map<nat, AnalysisData>

  /** Every child of the node names a class of the e-graph (egg panics on an unknown id). */
  predicate ChildrenKnown(g: ClassData, node: Peg) {
    node.Node? ==> forall i :: 0 <= i < |node.args| ==> node.args[i] in g
  }

  /** The operators that `eval` folds with a two-argument `Peg` fold. */
  predicate FoldsBinary(op: Op) {
    op in {Op.Add, Op.Sub, Op.Mul, Op.Div, Op.BinAnd, Op.BinOr, Op.Xor,
           Op.SRShift, Op.LShift, Op.Gte, Op.Gt, Op.Lte, Op.Lt, Op.Equ, Op.Neq}
  }

  /** The fold `eval` applies to two constants for each binary operator. */
  function BinaryFold(op: Op, a: Peg, b: Peg): PegFold.Fold
    requires FoldsBinary(op)
  {
    match op
    case Add => PegFold.Plus(a, b)
    case Sub => PegFold.Minus(a, b)
    case Mul => PegFold.Mult(a, b)
    case Div => PegFold.Div(a, b)
    case BinAnd => PegFold.BinAnd(a, b)
    case BinOr => PegFold.BinOr(a, b)
    case Xor => PegFold.Xor(a, b)
    case SRShift => PegFold.SRShift(a, b)
    case LShift => PegFold.LShift(a, b)
    case Gte => PegFold.Compare(PegFold.GreaterEq, a, b)
    case Gt => PegFold.Compare(PegFold.Greater, a, b)
    case Lte => PegFold.Compare(PegFold.LessEq, a, b)
    case Lt => PegFold.Compare(PegFold.Less, a, b)
    case Equ => WholeEqual(a, b, true)
    case Neq => WholeEqual(a, b, false)
  }

  /**
   * `eval`'s own `==`/`!=`: two constants compare as whole `Peg` values,
   * so a `Num` and a `Long` are never equal.
   */
  function WholeEqual(a: Peg, b: Peg, positive: bool): PegFold.Fold {
    if IsConst(a) && IsConst(b) then PegFold.Folded(Bool((a == b) == positive)) else PegFold.NoFold
  }

  /**
   * `eval`: the constant of an e-node, read from the constants of its child
   * classes.  Literals are their own constant; the folded operators need a
   * constant in every child class (`x(a)?`); everything else has none.
   */
  function Eval(g: ClassData, node: Peg): (r: PegFold.Fold)
    requires WellFormed(node) && ChildrenKnown(g, node)
    ensures IsConst(node) ==> r == PegFold.Folded(node)
    ensures r.Folded? ==> IsConst(r.value) || r.value == PegFold.ErrorNode
    ensures r.Folded? && node.Node? ==> forall i :: 0 <= i < |node.args| ==> g[node.args[i]].constant.Some?
  {
    match node
    case Num(_) => PegFold.Folded(node)
    case Long(_) => PegFold.Folded(node)
    case Bool(_) => PegFold.Folded(node)
    case Symbol(_) => PegFold.NoFold
    case Node(op, args) =>
      if FoldsBinary(op) then
        var a := g[args[0]].constant;
        var b := g[args[1]].constant;
        if a.None? || b.None? then PegFold.NoFold else BinaryFold(op, a.value, b.value)
      else if op == Op.Neg then
        var a := g[args[0]].constant;
        if a.None? then PegFold.NoFold else PegFold.Neg(a.value)
      else PegFold.NoFold
  }

  /** `make`: a `var` node records itself as the class's variable; any other node records its constant. */
  function Make(g: ClassData, node: Peg): (d: AnalysisData)
    requires WellFormed(node) && ChildrenKnown(g, node)
    requires !Eval(g, node).Panics?
    ensures IsVar(node) ==> d == AnalysisData(None, Some(node))
    ensures !IsVar(node) ==> d.variable.None?
    ensures !IsVar(node) ==> (d.constant.Some? <==> Eval(g, node).Folded?)
    ensures d.constant.Some? ==> d.constant == Some(Eval(g, node).value)
  {
    if IsVar(node) then AnalysisData(None, Some(node))
    else
      var c := Eval(g, node);
      AnalysisData(if c.Folded? then Some(c.value) else None, None)
  }

  /** `merge`: the combined data, and whether it differs from what the class had (`merge_if_different`). */
  function Merge(to: AnalysisData, from: AnalysisData): (r: (AnalysisData, bool))
    ensures r.1 <==> r.0 != to
  {
    var merged := Combine(to, from);
    (merged, merged != to)
  }

  /** An e-class as `modify` sees it: its nodes and its analysis data. */
  datatype EClass = EClass(nodes: set<Peg>, data: AnalysisData)

  /** A constant, if any, is a literal or the `error` sentinel: what `make` records (`MadeConstantsAreLiterals`). */
  predicate LiteralConstant(d: AnalysisData) {
    d.constant.Some? ==> IsConst(d.constant.value) || d.constant.value == PegFold.ErrorNode
  }

  /**
   * `modify`: a class with a constant gets the constant's literal added
   * and unioned in, which merges the literal's own data into the class's.
   * The union adds the literal and leaves the class's data as it was.
   * Only a fresh literal is modelled: when `egraph.add` finds the literal
   * already in another class, the union also brings in that class's nodes
   * and data, which this class-local view does not see.
   */
  function Modify(g: ClassData, cls: EClass): (r: EClass)
    requires LiteralConstant(cls.data)
    ensures cls.data.constant.None? ==> r == cls
    ensures cls.data.constant.Some? ==> r.nodes == cls.nodes + {cls.data.constant.value}
    ensures r.data == cls.data
  {
    match cls.data.constant
    case None => cls
    case Some(c) =>
      ModifyIsStable(g, cls.data);
      EClass(cls.nodes + {c}, Merge(cls.data, Make(g, c)).0)
  }

  // ---------------------------------------------------------------------
  // Properties
  // ---------------------------------------------------------------------

  /** `merge` keeps an existing constant and variable and adopts incoming ones only where the class had none. */
  lemma MergeKeepsExisting(to: AnalysisData, from: AnalysisData)
    ensures to.constant.Some? ==> Merge(to, from).0.constant == to.constant
    ensures to.variable.Some? ==> Merge(to, from).0.variable == to.variable
    ensures to.constant.None? ==> Merge(to, from).0.constant == from.constant
    ensures to.variable.None? ==> Merge(to, from).0.variable == from.variable
    ensures Merge(to, from).1 <==> (to.constant.None? && from.constant.Some?) || (to.variable.None? && from.variable.Some?)
  {
  }

  /** A conflicting incoming constant is dropped without a trace: the merge reports no change. */
  lemma MergeHidesConflicts(c1: Peg, c2: Peg)
    requires c1 != c2
    ensures var to := AnalysisData(Some(c1), None);
      Merge(to, AnalysisData(Some(c2), None)) == (to, false)
  {
  }

  /** `merge` is idempotent, never unsets a field, and the combination it performs is associative. */
  lemma MergeIsASemilatticeJoin(x: AnalysisData, y: AnalysisData, z: AnalysisData)
    ensures Merge(x, x) == (x, false)
    ensures Merge(Merge(x, y).0, y) == (Merge(x, y).0, false)
    ensures Combine(Combine(x, y), z) == Combine(x, Combine(y, z))
    ensures x.constant.Some? ==> Merge(x, y).0.constant.Some?
    ensures x.variable.Some? ==> Merge(x, y).0.variable.Some?
  {
  }

  /**
   * `modify` is consistent with `make`: the literal it adds has, as its own
   * analysis data, either the same constant (a number or boolean) or none
   * (the `error` sentinel), so the union leaves the class's data unchanged.
   */
  lemma ModifyIsStable(g: ClassData, d: AnalysisData)
    requires d.constant.Some? && (IsConst(d.constant.value) || d.constant.value == PegFold.ErrorNode)
    ensures var c := d.constant.value;
      WellFormed(c) && ChildrenKnown(g, c) && !Eval(g, c).Panics? &&
      Merge(d, Make(g, c)) == (d, false)
  {
  }

  /** `modify` reaches its fixed point in one step: a second call changes nothing. */
  lemma ModifyIdempotent(g: ClassData, cls: EClass)
    requires LiteralConstant(cls.data)
    ensures Modify(g, Modify(g, cls)) == Modify(g, cls)
  {
  }

  /** The constants `make` records are exactly what `modify` may add: literals or `error`. */
  lemma MadeConstantsAreLiterals(g: ClassData, node: Peg)
    requires WellFormed(node) && ChildrenKnown(g, node) && !Eval(g, node).Panics?
    ensures var d := Make(g, node);
      d.constant.Some? ==> IsConst(d.constant.value) || d.constant.value == PegFold.ErrorNode
  {
  }

  /** `not`, `phi`, `%`, `>>>`, `var` and the heap operators never get a constant. */
  lemma UnfoldedOperators(g: ClassData, node: Peg)
    requires WellFormed(node) && ChildrenKnown(g, node)
    requires node.Node? && node.op in {Op.Not, Op.Phi, Op.Rem, Op.URShift, Op.Var, Op.Rd, Op.Wr, Op.Heap, Op.Invoke}
    ensures Eval(g, node) == PegFold.NoFold
  {
  }

  /** A child class without a constant blocks every fold. */
  lemma MissingChildConstantBlocksFold(g: ClassData, node: Peg, i: nat)
    requires WellFormed(node) && ChildrenKnown(g, node)
    requires node.Node? && i < |node.args| && g[node.args[i]].constant.None?
    ensures Eval(g, node) == PegFold.NoFold
  {
  }

  // ---------------------------------------------------------------------
  // `==` between an `int` and a `long`
  // ---------------------------------------------------------------------

  /**
   * As written, `eval` folds `(== 0l 0)` to `false`: the two constants are
   * different `Peg` values although `Peg::equal` and the cross-width
   * `PartialEq` of primitives.rs call them equal.
   */
  lemma CrossWidthEqualityFoldsFalse()
    ensures var g: ClassData := map[0 := AnalysisData(Some(Long(JavaLong(0))), None),
                                     1 := AnalysisData(Some(Num(JavaInt(0))), None)];
      && Eval(g, Node(Equ, [0, 1])) == PegFold.Folded(Bool(false))
      && Eval(g, Node(Neq, [0, 1])) == PegFold.Folded(Bool(true))
      && PegFold.Equal(Long(JavaLong(0)), Num(JavaInt(0))) == PegFold.Folded(Bool(true))
  {
  }

  /** `==`/`!=` as evidently intended: constants compare by value through `Peg::equal`/`Peg::nequal`. */
  function ValueEqual(a: Peg, b: Peg, positive: bool): (r: PegFold.Fold)
    ensures IsNumber(a) && IsNumber(b) ==> r == PegFold.Folded(Bool((PegFold.Value(a) == PegFold.Value(b)) == positive))
    ensures a.Bool? && b.Bool? ==> r == PegFold.Folded(Bool((a.b == b.b) == positive))
    ensures r.Folded? ==> IsConst(a) && IsConst(b)
  {
    if IsConst(a) && IsConst(b) then (if positive then PegFold.Equal(a, b) else PegFold.Nequal(a, b)) else PegFold.NoFold
  }

  /** `eval` with the value comparison for `==`/`!=`; every other operator is unchanged. */
  function EvalByValue(g: ClassData, node: Peg): (r: PegFold.Fold)
    requires WellFormed(node) && ChildrenKnown(g, node)
    ensures node.Node? && (node.op == Op.Equ || node.op == Op.Neq) ==>
      var a := g[node.args[0]].constant;
      var b := g[node.args[1]].constant;
      r == (if a.None? || b.None? then PegFold.NoFold else ValueEqual(a.value, b.value, node.op == Op.Equ))
    ensures !(node.Node? && (node.op == Op.Equ || node.op == Op.Neq)) ==> r == Eval(g, node)
  {
    if node.Node? && (node.op == Op.Equ || node.op == Op.Neq) then
      var a := g[node.args[0]].constant;
      var b := g[node.args[1]].constant;
      if a.None? || b.None? then PegFold.NoFold else ValueEqual(a.value, b.value, node.op == Op.Equ)
    else Eval(g, node)
  }

  /** The value comparison folds `(== 0l 0)` to `true` and agrees with the whole-value comparison on constants of one kind. */
  lemma EvalByValueAgreesWithEqual(g: ClassData, node: Peg)
    requires WellFormed(node) && ChildrenKnown(g, node)
    requires node.Node? && node.op == Op.Equ
    requires g[node.args[0]].constant.Some? && g[node.args[1]].constant.Some?
    ensures var a, b := g[node.args[0]].constant.value, g[node.args[1]].constant.value;
      (IsNumber(a) && IsNumber(b) ==> EvalByValue(g, node) == PegFold.Folded(Bool(PegFold.Value(a) == PegFold.Value(b)))) &&
      ((a.Num? && b.Num?) || (a.Long? && b.Long?) || (a.Bool? && b.Bool?) ==> EvalByValue(g, node) == Eval(g, node))
  {
  }
}
