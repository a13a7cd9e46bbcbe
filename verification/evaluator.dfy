/**
 * The reference evaluator of cornelius/src/evaluator.rs: ground evaluation
 * of the last node of a `RecExpr<Peg>` under bindings of its variables.
 *
 * The evaluator's numbers are read with the operators of primitives.rs
 * (`+`, `-`, `*`, `/` wrap; shifts need a distance in `0..32`).  A node
 * kind the evaluator has no arm for reaches `panic!("todo")`, and
 * division by zero panics inside `Wrapping`'s `/`; both are the `Panic`
 * outcome.  `Err` stands for every `Err(String)` the source returns.
 */
module Evaluator {
  import opened Wrappers
  import opened Primitives
  import opened PegTerm
  import opened RecExpr

  datatype Outcome = Ok(value: Peg) | Err | Panic

  const NullNode: Peg := Node(Null, [])
  const UnitNode: Peg := Node(Unit, [])
  const ErrorValue: Peg := Node(Error, [])

  /** The operators with two strictly evaluated operands. */
  predicate IsStrictBinary(op: Op) {
    op in {Op.Add, Op.Mul, Op.Div, Op.Sub, Op.And, Op.Or, Op.BinAnd, Op.BinOr, Op.Xor,
           Op.SRShift, Op.URShift, Op.LShift, Op.Lt, Op.Lte, Op.Gt, Op.Gte, Op.Equ, Op.Neq}
  }

  /** The node kinds that evaluate to `Err` without looking at their children. */
  predicate IsHeapy(op: Op) {
    op in {Op.AccessPath, Op.Derefs, Op.Heap, Op.Wr, Op.Rd}
  }

  /** Each node has the children the evaluator's match arm reads. */
  predicate EvalShaped(p: Peg) {
    p.Node? ==>
      (IsStrictBinary(p.op) ==> |p.args| == 2) &&
      (p.op == Op.Not ==> |p.args| == 1) &&
      (p.op == Op.Phi ==> |p.args| == 3) &&
      (p.op == Op.Var ==> |p.args| >= 1)
  }

  /** The children of the node at index `j` are earlier entries. */
  predicate ArgsBelow(p: Peg, j: nat) {
    p.Node? ==> forall k :: 0 <= k < |p.args| ==> p.args[k] < j
  }

  /** An acyclic expression whose every node has the shape its match arm reads. */
  predicate Evaluable(e: Expr) {
    forall j :: 0 <= j < |e| ==> EvalShaped(e[j]) && ArgsBelow(e[j], j)
  }

  /** A literal or nullary node: the four self-evaluating kinds; anything else reaches `panic!("todo")`. */
  function Literal(p: Peg): (r: Outcome)
    ensures r.Ok? ==> r.value == p
  {
    if p.Num? || p.Bool? || p == ErrorValue || p == NullNode then Ok(p) else Panic
  }

  /** A shift distance Rust accepts for an `i32` operand. */
  predicate InShiftRange(y: JavaInt) {
    0 <= y.v < 32
  }

  /** A strict binary operator applied to the values of its operands. */
  function Binary(op: Op, l: Peg, r: Peg): (o: Outcome)
    requires IsStrictBinary(op)
    ensures o.Ok? ==> o.value.Num? || o.value.Bool?
  {
    var nums := l.Num? && r.Num?;
    var bools := l.Bool? && r.Bool?;
    match op
    case Add => if nums then Ok(Num(IntInt(ArithOp.Add, l.n, r.n))) else Err
    case Mul => if nums then Ok(Num(IntInt(ArithOp.Mul, l.n, r.n))) else Err
    case Sub => if nums then Ok(Num(IntInt(ArithOp.Sub, l.n, r.n))) else Err
    case Div =>
      if !nums then Err
      else if r.n.v == 0 then Panic
      else Ok(Num(IntDiv(l.n, r.n)))
    case And => if bools then Ok(Bool(l.b && r.b)) else Err
    case Or => if bools then Ok(Bool(l.b || r.b)) else Err
    case BinAnd => if nums then Ok(Num(JavaInt(Bitwise32(BitOp.And, l.n.v, r.n.v)))) else Err
    case BinOr => if nums then Ok(Num(JavaInt(Bitwise32(BitOp.Or, l.n.v, r.n.v)))) else Err
    case Xor =>
      if nums then Ok(Num(JavaInt(Bitwise32(BitOp.Xor, l.n.v, r.n.v))))
      else if bools then Ok(Bool(l.b != r.b))
      else Err
    case SRShift =>
      if !nums then Err
      else if InShiftRange(r.n) then Ok(Num(IntInt(ArithOp.Shr, l.n, r.n)))
      else Panic
    case URShift =>
      if !nums then Err
      else if InShiftRange(r.n) then Ok(Num(UShr32(l.n, r.n.v as nat)))
      else Panic
    case LShift =>
      if !nums then Err
      else if InShiftRange(r.n) then Ok(Num(IntInt(ArithOp.Shl, l.n, r.n)))
      else Panic
    case Lt => if nums then Ok(Bool(l.n.v < r.n.v)) else Err
    case Lte => if nums then Ok(Bool(l.n.v <= r.n.v)) else Err
    case Gt => if nums then Ok(Bool(l.n.v > r.n.v)) else Err
    case Gte => if nums then Ok(Bool(l.n.v >= r.n.v)) else Err
    case Equ =>
      if nums then Ok(Bool(l.n == r.n))
      else if bools then Ok(Bool(l.b == r.b))
      else Ok(Bool(false))
    case Neq =>
      if nums then Ok(Bool(l.n != r.n))
      else if bools then Ok(Bool(l.b != r.b))
      else Ok(Bool(true))
  }

  /** `!` on the value of its operand. */
  function Negate(v: Peg): (o: Outcome)
    ensures o.Ok? <==> v.Bool?
    ensures o.Ok? ==> o.value == Bool(!v.b)
  {
    if v.Bool? then Ok(Bool(!v.b)) else Err
  }

  /** Variable bindings, keyed by the index of the symbol a `var` node names. */
  type Bindings = map<nat, Peg>

  /** The values `eval` copies from the caller's environment. */
  predicate Bindable(v: Peg) {
    v.Num? || v.Bool? || v == NullNode || v == UnitNode
  }

  /** A strict binary node: the left operand's failure is the outcome, then the right operand's, else the operator's. */
  function Apply2(op: Op, l: Outcome, r: Outcome): Outcome
    requires IsStrictBinary(op)
  {
    if !l.Ok? then l else if !r.Ok? then r else Binary(op, l.value, r.value)
  }

  /** A `!` node. */
  function Apply1(v: Outcome): Outcome {
    if !v.Ok? then v else Negate(v.value)
  }

  /** A `phi` node: the guard's failure, else the selected branch, else an error for a non-boolean guard. */
  function Select(c: Outcome, t: Outcome, e: Outcome): Outcome {
    if !c.Ok? then c
    else if c.value == Bool(true) then t
    else if c.value == Bool(false) then e
    else Err
  }

  /**
   * `evaluate_expr_at`, without the memo table: the outcome of entry `i`.
   * Operands are evaluated left to right and the first one that does not
   * return a value decides the outcome; `phi` depends only on the branch its
   * guard selects.
   */
  function EvalAt(e: Expr, b: Bindings, i: nat): (o: Outcome)
    requires Evaluable(e) && i < |e|
    decreases i
  {
    match e[i]
    case Node(op, args) =>
      if IsStrictBinary(op) then Apply2(op, EvalAt(e, b, args[0]), EvalAt(e, b, args[1]))
      else if op == Op.Not then Apply1(EvalAt(e, b, args[0]))
      else if op == Op.Phi then Select(EvalAt(e, b, args[0]), EvalAt(e, b, args[1]), EvalAt(e, b, args[2]))
      else if op == Op.Var then
        if args[0] in b then Ok(b[args[0]]) else Err
      else if IsHeapy(op) then Err
      else Literal(e[i])
    case _ => Literal(e[i])
  }

  /** Every memoised entry holds the value its index evaluates to. */
  predicate MemoSound(e: Expr, b: Bindings, memo: map<nat, Peg>)
    requires Evaluable(e)
  {
    forall k :: k in memo ==> k < |e| && EvalAt(e, b, k) == Ok(memo[k])
  }

  /**
   * `Evaluator::evaluate_expr_at`: a memoised index returns its stored
   * value; otherwise the node is evaluated and, when it yields a value, the
   * value is stored.
   */
  method EvaluateAt(e: Expr, b: Bindings, i: nat, memo: map<nat, Peg>) returns (o: Outcome, memo': map<nat, Peg>)
    requires Evaluable(e) && i < |e| && MemoSound(e, b, memo)
    ensures o == EvalAt(e, b, i)
    ensures MemoSound(e, b, memo') && memo.Keys <= memo'.Keys
    ensures o.Ok? ==> i in memo'
    ensures i in memo' && i !in memo ==> o.Ok?
    decreases i
  {
    if i in memo {
      return Ok(memo[i]), memo;
    }
    memo' := memo;
    match e[i] {
      case Node(op, args) =>
        if IsStrictBinary(op) {
          var l, m1 := EvaluateAt(e, b, args[0], memo);
          if !l.Ok? {
            return l, m1;
          }
          var r, m2 := EvaluateAt(e, b, args[1], m1);
          if !r.Ok? {
            return r, m2;
          }
          o, memo' := Binary(op, l.value, r.value), m2;
        } else if op == Op.Not {
          var v, m1 := EvaluateAt(e, b, args[0], memo);
          if !v.Ok? {
            return v, m1;
          }
          o, memo' := Negate(v.value), m1;
        } else if op == Op.Phi {
          var c, m1 := EvaluateAt(e, b, args[0], memo);
          if !c.Ok? {
            return c, m1;
          }
          if c.value == Bool(true) {
            o, memo' := EvaluateAt(e, b, args[1], m1);
          } else if c.value == Bool(false) {
            o, memo' := EvaluateAt(e, b, args[2], m1);
          } else {
            o, memo' := Err, m1;
          }
        } else if op == Op.Var {
          o := if args[0] in b then Ok(b[args[0]]) else Err;
        } else if IsHeapy(op) {
          o := Err;
        } else {
          o := Literal(e[i]);
        }
      case _ =>
        o := Literal(e[i]);
    }
    if o.Ok? {
      memo' := memo'[i := o.value];
    }
  }

  /**
   * The bindings `eval` builds: visiting the entries in order, each `var`
   * node whose first child is a symbol named in the environment with a
   * number, boolean, `null` or `unit` value binds that symbol's index.
   */
  function BindAll(e: Expr, env: map<string, Peg>, k: nat): Bindings
    requires Evaluable(e) && k <= |e|
  {
    if k == 0 then map[]
    else
      var b := BindAll(e, env, k - 1);
      var p := e[k - 1];
      if p.Node? && p.op == Op.Var then
        var id := p.args[0];
        if id < |e| && e[id].Symbol? && e[id].name in env && Bindable(env[e[id].name]) then
          b[id := env[e[id].name]]
        else b
      else b
  }

  /** Some `var` node among the first `k` entries names index `id`. */
  predicate NamedByVar(e: Expr, id: nat, k: nat)
    requires Evaluable(e) && k <= |e|
  {
    exists j :: 0 <= j < k && e[j].Node? && e[j].op == Op.Var && e[j].args[0] == id
  }

  /**
   * The bindings do not depend on the visiting order: index `id` is bound
   * exactly when some `var` node names it, it holds a symbol, and the
   * environment gives that symbol a bindable value, which is the bound value.
   */
  lemma {:induction false} BindAllCharacterised(e: Expr, env: map<string, Peg>, k: nat, id: nat)
    requires Evaluable(e) && k <= |e|
    ensures id in BindAll(e, env, k) <==>
      NamedByVar(e, id, k) && id < |e| && e[id].Symbol? && e[id].name in env && Bindable(env[e[id].name])
    ensures id in BindAll(e, env, k) ==> BindAll(e, env, k)[id] == env[e[id].name]
  {
    if k > 0 {
      BindAllCharacterised(e, env, k - 1, id);
      var p := e[k - 1];
      if p.Node? && p.op == Op.Var && p.args[0] == id {
        assert NamedByVar(e, id, k);
      }
      if NamedByVar(e, id, k) && !NamedByVar(e, id, k - 1) {
        var j :| 0 <= j < k && e[j].Node? && e[j].op == Op.Var && e[j].args[0] == id;
        assert j == k - 1;
      }
      if NamedByVar(e, id, k - 1) {
        var j :| 0 <= j < k - 1 && e[j].Node? && e[j].op == Op.Var && e[j].args[0] == id;
        assert 0 <= j < k && e[j].Node? && e[j].op == Op.Var && e[j].args[0] == id;
      }
    }
  }

  /**
   * `eval`: bind the variables, then evaluate the last entry with an empty
   * memo table.  An empty expression underflows `len() - 1` and panics.
   */
  method Eval(e: Expr, env: map<string, Peg>) returns (o: Outcome)
    requires Evaluable(e)
    ensures |e| == 0 ==> o == Panic
    ensures |e| > 0 ==> o == EvalAt(e, BindAll(e, env, |e|), |e| - 1)
  {
    if |e| == 0 {
      return Panic;
    }
    var b := BindAll(e, env, |e|);
    var memo := map[];
    o, memo := EvaluateAt(e, b, |e| - 1, memo);
  }

  // ---------------------------------------------------------------------
  // Properties of the reference semantics
  // ---------------------------------------------------------------------

  /** `phi` takes the outcome of the branch its guard selects, whatever the other branch does; a non-boolean guard is an error. */
  lemma PhiSelectsOneBranch(e: Expr, b: Bindings, i: nat)
    requires Evaluable(e) && i < |e| && e[i].Node? && e[i].op == Op.Phi
    ensures var c := EvalAt(e, b, e[i].args[0]);
      (c == Ok(Bool(true)) ==> EvalAt(e, b, i) == EvalAt(e, b, e[i].args[1])) &&
      (c == Ok(Bool(false)) ==> EvalAt(e, b, i) == EvalAt(e, b, e[i].args[2])) &&
      (c.Ok? && !c.value.Bool? ==> EvalAt(e, b, i) == Err) &&
      (!c.Ok? ==> EvalAt(e, b, i) == c)
  {
  }

  /** A `var` node evaluates to its binding, and is an error when its symbol is unbound. */
  lemma VarReadsBinding(e: Expr, env: map<string, Peg>, i: nat)
    requires Evaluable(e) && i < |e| && e[i].Node? && e[i].op == Op.Var
    ensures var id := e[i].args[0];
      var o := EvalAt(e, BindAll(e, env, |e|), i);
      (id < |e| && e[id].Symbol? && e[id].name in env && Bindable(env[e[id].name]) ==> o == Ok(env[e[id].name])) &&
      (!(id < |e| && e[id].Symbol? && e[id].name in env && Bindable(env[e[id].name])) ==> o == Err)
  {
    var id := e[i].args[0];
    assert NamedByVar(e, id, |e|);
    BindAllCharacterised(e, env, |e|, id);
  }

  /** Arithmetic, shifts and orderings need two numbers, the connectives two booleans; other operand kinds are an error. */
  lemma OperandKindsChecked(op: Op, l: Peg, r: Peg)
    requires IsStrictBinary(op) && op != Op.Equ && op != Op.Neq
    ensures op != Op.Xor && op != Op.And && op != Op.Or && !(l.Num? && r.Num?) ==> Binary(op, l, r) == Err
    ensures (op == Op.And || op == Op.Or) && !(l.Bool? && r.Bool?) ==> Binary(op, l, r) == Err
    ensures op == Op.Xor ==> (Binary(op, l, r) == Err <==> !(l.Num? && r.Num?) && !(l.Bool? && r.Bool?))
  {
  }

  /** `==` and `!=` never fail: on operands of different kinds, or on `null`/`error`, they give `false` and `true`. */
  lemma EqualityNeverFails(l: Peg, r: Peg)
    ensures Binary(Op.Equ, l, r).Ok? && Binary(Op.Neq, l, r).Ok?
    ensures Binary(Op.Neq, l, r).value == Bool(!Binary(Op.Equ, l, r).value.b)
    ensures !(l.Num? && r.Num?) && !(l.Bool? && r.Bool?) ==> Binary(Op.Equ, l, r) == Ok(Bool(false))
    ensures Binary(Op.Equ, NullNode, NullNode) == Ok(Bool(false))
  {
  }

  /** Division has no zero check: a zero divisor panics. */
  lemma DivisionByZeroPanics(x: JavaInt)
    ensures Binary(Op.Div, Num(x), Num(JavaInt(0))) == Panic
  {
  }

  /** The heap operators are errors even when their children could not be evaluated. */
  lemma HeapNodesAreErrors(e: Expr, b: Bindings, i: nat)
    requires Evaluable(e) && i < |e| && e[i].Node? && IsHeapy(e[i].op)
    ensures EvalAt(e, b, i) == Err
  {
  }

  // ---------------------------------------------------------------------
  // The MIN, MAX and MIN_OF_3 examples
  // ---------------------------------------------------------------------

  function N(x: int): Peg
    requires InI32(x)
  {
    Num(JavaInt(x as i32))
  }

  /** `(phi (cmp (var a) (var b)) (var a) (var b))`, with shared sub-terms. */
  function Select2(cmp: Op): Expr {
    [Symbol("a"), Node(Op.Var, [0]), Symbol("b"), Node(Op.Var, [2]), Node(cmp, [1, 3]), Node(Op.Phi, [4, 1, 3])]
  }

  /** `MIN_OF_3`. */
  const MinOf3: Expr :=
    [Symbol("a"), Node(Op.Var, [0]), Symbol("b"), Node(Op.Var, [2]), Symbol("c"), Node(Op.Var, [4]),
     Node(Op.Lt, [1, 3]), Node(Op.Lt, [1, 5]), Node(Op.Phi, [7, 1, 5]),
     Node(Op.Lt, [3, 5]), Node(Op.Phi, [9, 3, 5]), Node(Op.Phi, [6, 8, 10])]

  function Env(a: int, b: int, c: int): map<string, Peg>
    requires InI32(a) && InI32(b) && InI32(c)
  {
    map["a" := N(a), "b" := N(b), "c" := N(c)]
  }

  /** `MIN` and `MAX` of two bound numbers. */
  lemma MinMax(x: int, y: int)
    requires InI32(x) && InI32(y)
    ensures Evaluable(Select2(Op.Lt)) && Evaluable(Select2(Op.Gt))
    ensures EvalAt(Select2(Op.Lt), BindAll(Select2(Op.Lt), Env(x, y, 0), 6), 5) == Ok(N(if x < y then x else y))
    ensures EvalAt(Select2(Op.Gt), BindAll(Select2(Op.Gt), Env(x, y, 0), 6), 5) == Ok(N(if x > y then x else y))
  {
    Select2Is(Op.Lt, x, y);
    Select2Is(Op.Gt, x, y);
  }

  /** `(phi (cmp a b) a b)` selects `a` exactly when the comparison holds. */
  lemma Select2Is(cmp: Op, x: int, y: int)
    requires InI32(x) && InI32(y) && (cmp == Op.Lt || cmp == Op.Gt)
    ensures Evaluable(Select2(cmp))
    ensures EvalAt(Select2(cmp), BindAll(Select2(cmp), Env(x, y, 0), 6), 5) ==
      Ok(N(if (if cmp == Op.Lt then x < y else x > y) then x else y))
  {
    var e := Select2(cmp);
    var b: Bindings := map[0 := N(x), 2 := N(y)];
    Select2Binds(cmp, x, y);
    VarAt(e, b, 1, 0);
    VarAt(e, b, 3, 2);
    CompareAt(e, b, 4, cmp, 1, 3, x, y);
    PhiAt(e, b, 5, 4, 1, 3, if cmp == Op.Lt then x < y else x > y);
  }

  lemma Select2Binds(cmp: Op, x: int, y: int)
    requires InI32(x) && InI32(y) && (cmp == Op.Lt || cmp == Op.Gt)
    ensures Evaluable(Select2(cmp))
    ensures BindAll(Select2(cmp), Env(x, y, 0), 6) == map[0 := N(x), 2 := N(y)]
  {
    var env := Env(x, y, 0);
    var e := Select2(cmp);
    SelectEvaluableWith(cmp);
    BindVarStep(e, env, 1, 0);
    BindVarStep(e, env, 3, 2);
    NoVarsKeepBindings(e, env, 0, 1);
    NoVarsKeepBindings(e, env, 2, 3);
    NoVarsKeepBindings(e, env, 4, 6);
  }

  /** The two selections are well formed, whatever their comparison. */
  lemma SelectEvaluableWith(cmp: Op)
    requires IsStrictBinary(cmp)
    ensures Evaluable(Select2(cmp))
  {
    var e := Select2(cmp);
    assert EvalShaped(e[1]) && ArgsBelow(e[1], 1);
    assert EvalShaped(e[3]) && ArgsBelow(e[3], 3);
    assert EvalShaped(e[4]) && ArgsBelow(e[4], 4);
    assert EvalShaped(e[5]) && ArgsBelow(e[5], 5);
  }

  lemma MinOf3Binds(x: int, y: int, z: int)
    requires InI32(x) && InI32(y) && InI32(z)
    ensures Evaluable(MinOf3)
    ensures BindAll(MinOf3, Env(x, y, z), 12) == MinOf3Bindings(x, y, z)
  {
    var env := Env(x, y, z);
    var e := MinOf3;
    MinOf3Evaluable();
    BindVarStep(e, env, 1, 0);
    BindVarStep(e, env, 3, 2);
    BindVarStep(e, env, 5, 4);
    NoVarsKeepBindings(e, env, 0, 1);
    NoVarsKeepBindings(e, env, 2, 3);
    NoVarsKeepBindings(e, env, 4, 5);
    NoVarsKeepBindings(e, env, 6, 12);
  }

  /** A `var` node naming a symbol the environment binds adds that binding. */
  lemma BindVarStep(e: Expr, env: map<string, Peg>, k: nat, id: nat)
    requires Evaluable(e) && k < |e| && e[k] == Node(Op.Var, [id])
    requires id < |e| && e[id].Symbol? && e[id].name in env && Bindable(env[e[id].name])
    ensures BindAll(e, env, k + 1) == BindAll(e, env, k)[id := env[e[id].name]]
  {
  }

  lemma MinOf3Evaluable()
    ensures Evaluable(MinOf3)
  {
    ShapedPrefixEvaluable(MinOf3, 12);
  }

  /** The first `k` entries are shaped and refer only to earlier entries. */
  predicate ShapedPrefix(e: Expr, k: nat)
    requires k <= |e|
  {
    k == 0 || (ShapedPrefix(e, k - 1) && EvalShaped(e[k - 1]) && ArgsBelow(e[k - 1], k - 1))
  }

  lemma {:induction false} ShapedPrefixEvaluable(e: Expr, k: nat)
    requires k <= |e| && ShapedPrefix(e, k)
    ensures forall j :: 0 <= j < k ==> EvalShaped(e[j]) && ArgsBelow(e[j], j)
  {
    if k > 0 {
      ShapedPrefixEvaluable(e, k - 1);
    }
  }

  /** Entries that are not `var` nodes add no bindings. */
  lemma {:induction false} NoVarsKeepBindings(e: Expr, env: map<string, Peg>, k: nat, n: nat)
    requires Evaluable(e) && k <= n <= |e|
    requires forall j :: k <= j < n ==> !(e[j].Node? && e[j].op == Op.Var)
    ensures BindAll(e, env, n) == BindAll(e, env, k)
    decreases n
  {
    if k < n {
      NoVarsKeepBindings(e, env, k, n - 1);
    }
  }

  /** The bindings `eval` builds for `MIN_OF_3` under `a = x, b = y, c = z`. */
  function MinOf3Bindings(x: int, y: int, z: int): Bindings
    requires InI32(x) && InI32(y) && InI32(z)
  {
    map[0 := N(x), 2 := N(y), 4 := N(z)]
  }

  /** A `var` node whose symbol is bound evaluates to the bound value. */
  lemma VarAt(e: Expr, b: Bindings, i: nat, id: nat)
    requires Evaluable(e) && i < |e| && e[i] == Node(Op.Var, [id]) && id in b
    ensures EvalAt(e, b, i) == Ok(b[id])
  {
  }

  /** A strict comparison of two numbers evaluates to the comparison of their values. */
  lemma CompareAt(e: Expr, b: Bindings, i: nat, cmp: Op, u: nat, v: nat, p: int, q: int)
    requires Evaluable(e) && i < |e| && (cmp == Op.Lt || cmp == Op.Gt) && e[i] == Node(cmp, [u, v])
    requires InI32(p) && InI32(q) && u < i && v < i && EvalAt(e, b, u) == Ok(N(p)) && EvalAt(e, b, v) == Ok(N(q))
    ensures EvalAt(e, b, i) == Ok(Bool(if cmp == Op.Lt then p < q else p > q))
  {
  }

  /** A `phi` whose guard is a boolean evaluates to the branch it selects. */
  lemma PhiAt(e: Expr, b: Bindings, i: nat, c: nat, t: nat, f: nat, g: bool)
    requires Evaluable(e) && i < |e| && e[i] == Node(Op.Phi, [c, t, f]) && c < i && EvalAt(e, b, c) == Ok(Bool(g))
    requires t < i && f < i
    ensures EvalAt(e, b, i) == EvalAt(e, b, if g then t else f)
  {
  }

  /** `MIN_OF_3` of three bound numbers. */
  lemma MinOf3Is(x: int, y: int, z: int)
    requires InI32(x) && InI32(y) && InI32(z)
    ensures Evaluable(MinOf3)
    ensures EvalAt(MinOf3, BindAll(MinOf3, Env(x, y, z), 12), 11) ==
      Ok(N(if x <= y && x <= z then x else if y <= z then y else z))
  {
    MinOf3Binds(x, y, z);
    var e, b := MinOf3, MinOf3Bindings(x, y, z);
    VarAt(e, b, 1, 0);
    VarAt(e, b, 3, 2);
    VarAt(e, b, 5, 4);
    CompareAt(e, b, 6, Op.Lt, 1, 3, x, y);
    CompareAt(e, b, 7, Op.Lt, 1, 5, x, z);
    CompareAt(e, b, 9, Op.Lt, 3, 5, y, z);
    PhiAt(e, b, 8, 7, 1, 5, x < z);
    PhiAt(e, b, 10, 9, 3, 5, y < z);
    PhiAt(e, b, 11, 6, 8, 10, x < y);
  }
}
