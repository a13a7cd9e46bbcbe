/**
 * What the expression translator of
 * serializer/src/main/java/serializer/peg/PegExprVisitor.java builds, stated
 * over every sound node table: the folding of literal operands, the `phi`
 * nodes of `||`, `&&`, `/`, `%` and `?:`, the exception conditions of
 * division and field reads, and where assignments put their values.
 */
module PegExprFacts {
  import opened Wrappers
  import opened Primitives
  import opened Decimal
  import opened JavaLang
  import opened PegNodes
  import opened PegContexts
  import opened ExpressionResults
  import opened PegExprVisitor
  import SerializerUtil

  /** Both operands' nodes and contexts exist in `t`. */
  ghost predicate Operands(t: Table, lhs: ExprResult, rhs: ExprResult) {
    Fits(t, lhs.context) && Fits(t, rhs.context) && lhs.peg.id < t.next && rhs.peg.id < t.next
  }

  /**
   * `m` is what `combine(c1, c2, guard)` makes in table `u`: the locals
   * both sides have, each bound to `phi(guard, c1[k], c2[k])`, and the heap
   * whose state and status are `phi`s of the two heaps' under the guard.
   */
  ghost predicate Merged(u: Table, m: Context, guard: int, c1: Context, c2: Context) {
    (forall k :: k in Keys(m.locals) <==> k in Keys(c1.locals) && k in Keys(c2.locals))
    && PhiEntries(m.locals, guard, c1, c2)
    && IsHeap(m.heap) && IsHeap(c1.heap) && IsHeap(c2.heap)
    && HeapState(m.heap) == CachedId(u, "phi", [guard, HeapState(c1.heap), HeapState(c2.heap)])
    && HeapStatus(m.heap) == CachedId(u, "phi", [guard, HeapStatus(c1.heap), HeapStatus(c2.heap)])
    && m.fieldNames == c1.fieldNames && m.typeMap == c1.typeMap
  }

  lemma CombineIsMerged(t: Table, c1: Context, c2: Context, guard: int)
    requires Sound(t) && Fits(t, c1) && Fits(t, c2) && guard < t.next
    requires c1.returnNode.None? || c2.returnNode.None?
    ensures var r := Combine(t, c1, c2, guard);
      r.out.Returns? && Grown(t, r.table) && Merged(r.table, r.out.value, guard, c1, c2)
  {
    CombineMerges(t, c1, c2, guard);
  }

  // ------------------------------------------------------------ || and &&

  /**
   * `a || b`: two boolean literals fold to their disjunction in the right
   * operand's context; otherwise the value is `phi(a, true, b)` and the
   * context merges the left operand's (taken when `a` holds) with the
   * right one's.
   */
  lemma OrTranslation(t: Table, lhs: ExprResult, rhs: ExprResult)
    requires Sound(t) && Operands(t, lhs, rhs)
    requires lhs.context.returnNode.None? || rhs.context.returnNode.None?
    ensures var r := ShortCircuit(t, BinaryOp.Or, lhs, rhs);
      var lb, rb := AsBoolean(lhs.peg), AsBoolean(rhs.peg);
      r.out.Returns? && Grown(t, r.table)
      && (lb.Some? && rb.Some? ==>
            r.out.value.peg.shape == BoolLit(lb.value || rb.value) && r.out.value.context == rhs.context)
      && (lb.None? || rb.None? ==>
            Built(r.out.value.peg, "phi", [lhs.peg.id, BoolLitOf(t, true).out.value.id, rhs.peg.id])
            && Merged(r.table, r.out.value.context, lhs.peg.id, lhs.context, rhs.context))
  {
    var lb, rb := AsBoolean(lhs.peg), AsBoolean(rhs.peg);
    if lb.Some? && rb.Some? {
      LiteralMade(t, BoolLit(lb.value || rb.value));
    } else {
      LiteralMade(t, BoolLit(true));
      var s1 := BoolLitOf(t, true);
      PhiThenCombine(t, s1, lhs, rhs, [lhs.peg.id, s1.out.value.id, rhs.peg.id], lhs.context, rhs.context);
    }
  }

  /**
   * `a && b`: two boolean literals fold to their conjunction; otherwise the
   * value is `phi(a, b, false)` and the context merges the right operand's
   * (taken when `a` holds) with the left one's.
   */
  lemma AndTranslation(t: Table, lhs: ExprResult, rhs: ExprResult)
    requires Sound(t) && Operands(t, lhs, rhs)
    requires lhs.context.returnNode.None? || rhs.context.returnNode.None?
    ensures var r := ShortCircuit(t, BinaryOp.And, lhs, rhs);
      var lb, rb := AsBoolean(lhs.peg), AsBoolean(rhs.peg);
      r.out.Returns? && Grown(t, r.table)
      && (lb.Some? && rb.Some? ==>
            r.out.value.peg.shape == BoolLit(lb.value && rb.value) && r.out.value.context == rhs.context)
      && (lb.None? || rb.None? ==>
            Built(r.out.value.peg, "phi", [lhs.peg.id, rhs.peg.id, BoolLitOf(t, false).out.value.id])
            && Merged(r.table, r.out.value.context, lhs.peg.id, rhs.context, lhs.context))
  {
    var lb, rb := AsBoolean(lhs.peg), AsBoolean(rhs.peg);
    if lb.Some? && rb.Some? {
      LiteralMade(t, BoolLit(lb.value && rb.value));
    } else {
      LiteralMade(t, BoolLit(false));
      var s1 := BoolLitOf(t, false);
      PhiThenCombine(t, s1, lhs, rhs, [lhs.peg.id, rhs.peg.id, s1.out.value.id], rhs.context, lhs.context);
    }
  }

  /** The shared tail of `||` and `&&`: a `phi` over existing ids, then `combine` guarded by the left operand. */
  lemma PhiThenCombine(t: Table, s1: Step<Node>, lhs: ExprResult, rhs: ExprResult, cs: seq<int>, c1: Context, c2: Context)
    requires Sound(t) && Operands(t, lhs, rhs) && Made(t, s1)
    requires |cs| == 3 && (forall i :: 0 <= i < 3 ==> cs[i] in {lhs.peg.id, rhs.peg.id, s1.out.value.id})
    requires (c1 == lhs.context && c2 == rhs.context) || (c1 == rhs.context && c2 == lhs.context)
    requires c1.returnNode.None? || c2.returnNode.None?
    ensures var p := OpNodeOf(s1.table, "phi", cs);
      Made(s1.table, p) && Built(p.out.value, "phi", cs)
      && var m := Combine(p.table, c1, c2, lhs.peg.id);
      m.out.Returns? && Grown(t, m.table) && Merged(m.table, m.out.value, lhs.peg.id, c1, c2)
  {
    var t1 := s1.table;
    assert Below(t1, cs);
    OpNodeMade(t1, "phi", cs);
    var p := OpNodeOf(t1, "phi", cs);
    FitsGrown(t, p.table, lhs.context);
    FitsGrown(t, p.table, rhs.context);
    CombineIsMerged(p.table, c1, c2, lhs.peg.id);
    GrownTrans(t, t1, p.table);
    GrownTrans(t, p.table, Combine(p.table, c1, c2, lhs.peg.id).table);
  }

  // ------------------------------------------------------------ / and %

  /**
   * `a / b` and `a % b`: two literals fold with Java's truncating division
   * when the divisor is not zero and give `unit` when it is; otherwise
   * the value is `phi(b == 0, unit, a op b)`.  The context is the right
   * operand's.
   */
  lemma DivisionTranslation(t: Table, op: BinaryOp, lhs: ExprResult, rhs: ExprResult)
    requires op.Divide? || op.Remainder?
    requires Sound(t) && lhs.peg.id < t.next && rhs.peg.id < t.next
    ensures var r := Division(t, op, lhs, rhs);
      var li, ri := AsInteger(lhs.peg), AsInteger(rhs.peg);
      r.out.Returns? && Grown(t, r.table) && r.out.value.context == rhs.context
      && (li.Some? && ri.Some? && ri.value != 0 ==> r.out.value.peg.shape == IntLit(JavaIntOp(op, li.value, ri.value)))
      && (li.Some? && ri.Some? && ri.value == 0 ==> Built(r.out.value.peg, "unit", []))
      && (li.None? || ri.None? ==>
            Built(r.out.value.peg, "phi", [
              CachedId(r.table, "==", [rhs.peg.id, IntLitOf(t, 0).out.value.id]),
              CachedId(r.table, "unit", []),
              CachedId(r.table, Symbol(op), [lhs.peg.id, rhs.peg.id])]))
  {
    var li, ri := AsInteger(lhs.peg), AsInteger(rhs.peg);
    if li.Some? && ri.Some? {
      if ri.value != 0 {
        LiteralMade(t, IntLit(JavaIntOp(op, li.value, ri.value)));
      } else {
        OpNodeMade(t, "unit", []);
      }
    } else {
      DivisionGuarded(t, op, lhs, rhs);
    }
  }

  /** Over a non-literal operand `Division` is the chain `GuardedQuotient` describes, after the literal 0. */
  lemma DivisionGuarded(t: Table, op: BinaryOp, lhs: ExprResult, rhs: ExprResult)
    requires op.Divide? || op.Remainder?
    requires Sound(t) && lhs.peg.id < t.next && rhs.peg.id < t.next
    requires AsInteger(lhs.peg).None? || AsInteger(rhs.peg).None?
    ensures var r := Division(t, op, lhs, rhs);
      r.out.Returns? && Grown(t, r.table) && r.out.value.context == rhs.context
      && Built(r.out.value.peg, "phi", [
           CachedId(r.table, "==", [rhs.peg.id, IntLitOf(t, 0).out.value.id]),
           CachedId(r.table, "unit", []),
           CachedId(r.table, Symbol(op), [lhs.peg.id, rhs.peg.id])])
  {
    LiteralMade(t, IntLit(0));
    var s1 := IntLitOf(t, 0);
    var z := s1.out.value.id;
    GuardedQuotient(s1.table, op, lhs.peg.id, rhs.peg.id, z);
    var s2 := OpNodeOf(s1.table, "==", [rhs.peg.id, z]);
    var s3 := OpNodeOf(s2.table, Symbol(op), [lhs.peg.id, rhs.peg.id]);
    var s4 := UnitOf(s3.table);
    var s5 := PhiOf(s4.table, s2.out.value.id, s4.out.value.id, s3.out.value.id);
    DivisionChain(t, op, lhs, rhs);
    GrownTrans(t, s1.table, s5.table);
  }

  /** The `==`, quotient, `unit` and `phi` nodes of a division over non-literal operands. */
  lemma GuardedQuotient(t: Table, op: BinaryOp, l: int, r: int, zero: int)
    requires Sound(t) && l < t.next && r < t.next && zero < t.next
    ensures var s2 := OpNodeOf(t, "==", [r, zero]);
      Made(t, s2)
      && var s3 := OpNodeOf(s2.table, Symbol(op), [l, r]);
      Made(s2.table, s3)
      && var s4 := UnitOf(s3.table);
      Made(s3.table, s4)
      && var s5 := PhiOf(s4.table, s2.out.value.id, s4.out.value.id, s3.out.value.id);
      Made(s4.table, s5) && Grown(t, s5.table)
      && Built(s5.out.value, "phi", [
           CachedId(s5.table, "==", [r, zero]), CachedId(s5.table, "unit", []), CachedId(s5.table, Symbol(op), [l, r])])
  {
    BelowTwo(t, r, zero);
    OpNodeMade(t, "==", [r, zero]);
    var s2 := OpNodeOf(t, "==", [r, zero]);
    BelowTwo(s2.table, l, r);
    OpNodeMade(s2.table, Symbol(op), [l, r]);
    var s3 := OpNodeOf(s2.table, Symbol(op), [l, r]);
    OpNodeMade(s3.table, "unit", []);
    var s4 := UnitOf(s3.table);
    BelowThree(s4.table, s2.out.value.id, s4.out.value.id, s3.out.value.id);
    OpNodeMade(s4.table, "phi", [s2.out.value.id, s4.out.value.id, s3.out.value.id]);
    var s5 := PhiOf(s4.table, s2.out.value.id, s4.out.value.id, s3.out.value.id);
    GrownTrans(t, s2.table, s3.table);
    GrownTrans(t, s3.table, s4.table);
    GrownTrans(t, s4.table, s5.table);
  }

  /**
   * The division check of `visit(BinaryExpr)` on a right operand whose
   * context has no exit conditions and no raised exception: `b == 0`
   * becomes the one exit condition and raises `DivideByZeroError`, so the
   * heap status becomes `phi(b == 0, DivideByZeroError, unit)`.
   */
  lemma DivByZeroRaises(t: Table, rhs: ExprResult)
    requires Sound(t) && Fits(t, rhs.context) && rhs.peg.id < t.next
    requires rhs.context.exitConditions == []
    requires Cached(t, "unit", [], HeapStatus(rhs.context.heap))
    ensures var r := DivByZeroCheck(t, rhs);
      var cond := CachedId(r.table, "==", [rhs.peg.id, IntLitOf(t, 0).out.value.id]);
      r.out.Returns? && Grown(t, r.table) && r.out.value.peg == rhs.peg
      && |r.out.value.context.exitConditions| == 1 && r.out.value.context.exitConditions[0].id == cond
      && HeapState(r.out.value.context.heap) == HeapState(rhs.context.heap)
      && HeapStatus(r.out.value.context.heap) == Raised(r.table, cond, CachedId(r.table, "java.lang.DivideByZeroError", []))
  {
    DivByZeroNodes(t, rhs.peg.id);
    var s1 := IntLitOf(t, 0);
    var s2 := OpNodeOf(s1.table, "==", [rhs.peg.id, s1.out.value.id]);
    var s4 := ExceptionOf(s2.table, "java.lang.DivideByZeroError");
    DivByZeroChain(t, rhs);
    RaisedUnder(t, s4.table, rhs, s2.out.value, s4.out.value);
    var r := DivByZeroCheck(t, rhs);
    CachedGrows(s4.table, r.table, "==", [rhs.peg.id, s1.out.value.id]);
    CachedGrows(s4.table, r.table, "java.lang.DivideByZeroError", []);
  }

  /** `withExceptionCondition` on a context without exit conditions whose status is the cached `unit`. */
  lemma RaisedUnder(t: Table, u: Table, rhs: ExprResult, cond: Node, exc: Node)
    requires Sound(t) && Grown(t, u) && Fits(t, rhs.context) && cond.id < u.next && exc.id < u.next
    requires rhs.context.exitConditions == []
    requires Cached(t, "unit", [], HeapStatus(rhs.context.heap))
    ensures var r := WithExceptionConditionOf(u, rhs, cond, exc);
      r.out.Returns? && Grown(u, r.table) && Grown(t, r.table) && r.out.value.peg == rhs.peg
      && r.out.value.context.exitConditions == [cond]
      && HeapState(r.out.value.context.heap) == HeapState(rhs.context.heap)
      && HeapStatus(r.out.value.context.heap) == Raised(r.table, cond.id, exc.id)
  {
    FitsGrown(t, u, rhs.context);
    CachedGrows(t, u, "unit", []);
    FirstRaised(u, rhs, cond, exc);
    GrownTrans(t, u, WithExceptionConditionOf(u, rhs, cond, exc).table);
  }

  /** The first exit condition raised from the `unit` status is the only one. */
  lemma FirstRaised(u: Table, rhs: ExprResult, cond: Node, exc: Node)
    requires Sound(u) && Fits(u, rhs.context) && cond.id < u.next && exc.id < u.next
    requires rhs.context.exitConditions == [] && HeapStatus(rhs.context.heap) == UnitOf(u).out.value.id
    ensures var r := WithExceptionConditionOf(u, rhs, cond, exc);
      r.out.Returns? && Grown(u, r.table) && r.out.value.peg == rhs.peg
      && r.out.value.context.exitConditions == [cond]
      && HeapState(r.out.value.context.heap) == HeapState(rhs.context.heap)
      && HeapStatus(r.out.value.context.heap) == Raised(r.table, cond.id, exc.id)
  {
    ExceptionConditionRaises(u, rhs, cond, exc);
    FirstExitCondition(rhs.context, cond);
  }

  /** The literal 0, the test `b == 0` and the exception node the division check makes. */
  lemma DivByZeroNodes(t: Table, b: int)
    requires Sound(t) && b < t.next
    ensures var s1 := IntLitOf(t, 0);
      s1.out.Returns? && var s2 := OpNodeOf(s1.table, "==", [b, s1.out.value.id]);
      s2.out.Returns? && var s4 := ExceptionOf(s2.table, "java.lang.DivideByZeroError");
      s4.out.Returns? && Grown(t, s4.table) && s2.out.value.id < s4.table.next && s4.out.value.id < s4.table.next
      && Cached(s4.table, "==", [b, s1.out.value.id], s2.out.value.id)
      && Cached(s4.table, "java.lang.DivideByZeroError", [], s4.out.value.id)
  {
    LiteralMade(t, IntLit(0));
    var s1 := IntLitOf(t, 0);
    var zero := s1.out.value.id;
    BelowTwo(s1.table, b, zero);
    OpNodeMade(s1.table, "==", [b, zero]);
    var s2 := OpNodeOf(s1.table, "==", [b, zero]);
    OpNodeMade(s2.table, "java.lang.DivideByZeroError", []);
    var s4 := ExceptionOf(s2.table, "java.lang.DivideByZeroError");
    GrownTrans(t, s1.table, s2.table);
    GrownTrans(t, s2.table, s4.table);
    CachedGrows(s2.table, s4.table, "==", [b, zero]);
  }

  /** A key the cache holds keeps its node as the table grows. */
  lemma CachedGrows(t: Table, u: Table, sym: string, children: seq<int>)
    requires Grown(t, u) && (sym, children) in t.symbols
    ensures CachedId(u, sym, children) == CachedId(t, sym, children)
    ensures u.symbols[(sym, children)] == t.symbols[(sym, children)]
  {
  }

  /** How the steps of the guarded quotient thread through `Division` when each of them returns. */
  lemma DivisionChain(t: Table, op: BinaryOp, lhs: ExprResult, rhs: ExprResult)
    requires op.Divide? || op.Remainder?
    requires AsInteger(lhs.peg).None? || AsInteger(rhs.peg).None?
    requires var s1 := IntLitOf(t, 0);
      s1.out.Returns? && var s2 := OpNodeOf(s1.table, "==", [rhs.peg.id, s1.out.value.id]);
      s2.out.Returns? && var s3 := OpNodeOf(s2.table, Symbol(op), [lhs.peg.id, rhs.peg.id]);
      s3.out.Returns? && var s4 := UnitOf(s3.table);
      s4.out.Returns? && PhiOf(s4.table, s2.out.value.id, s4.out.value.id, s3.out.value.id).out.Returns?
    ensures var s1 := IntLitOf(t, 0);
      var s2 := OpNodeOf(s1.table, "==", [rhs.peg.id, s1.out.value.id]);
      var s3 := OpNodeOf(s2.table, Symbol(op), [lhs.peg.id, rhs.peg.id]);
      var s4 := UnitOf(s3.table);
      var s5 := PhiOf(s4.table, s2.out.value.id, s4.out.value.id, s3.out.value.id);
      Division(t, op, lhs, rhs) == Step(s5.table, Returns(ExprResult(s5.out.value, rhs.context)))
  {
  }

  /** How the steps of the division check thread through `DivByZeroCheck` when there are no exit conditions. */
  lemma DivByZeroChain(t: Table, rhs: ExprResult)
    requires IsHeap(rhs.context.heap) && rhs.context.exitConditions == []
    requires var s1 := IntLitOf(t, 0);
      s1.out.Returns? && var s2 := OpNodeOf(s1.table, "==", [rhs.peg.id, s1.out.value.id]);
      s2.out.Returns? && ExceptionOf(s2.table, "java.lang.DivideByZeroError").out.Returns?
    ensures var s1 := IntLitOf(t, 0);
      var s2 := OpNodeOf(s1.table, "==", [rhs.peg.id, s1.out.value.id]);
      var s4 := ExceptionOf(s2.table, "java.lang.DivideByZeroError");
      DivByZeroCheck(t, rhs) == WithExceptionConditionOf(s4.table, rhs, s2.out.value, s4.out.value)
  {
  }

  // ------------------------------------------------------------ the other operators

  /**
   * Two `int` literals under `|`, `&`, `^`, `+`, `-` or `*` fold to Java's
   * 32-bit result in the right operand's context.
   */
  lemma IntFoldWraps(t: Table, op: BinaryOp, lhs: ExprResult, rhs: ExprResult)
    requires IntFolded(op) && !op.Divide? && !op.Remainder?
    requires Sound(t) && IsHeap(lhs.context.heap) && IsHeap(rhs.context.heap)
    requires lhs.peg.shape.IntLit? && rhs.peg.shape.IntLit?
    ensures var r := HandleBinExpr(t, op, lhs, rhs);
      r.out.Returns? && Grown(t, r.table) && r.out.value.context == rhs.context
      && r.out.value.peg.shape == IntLit(JavaIntOp(op, lhs.peg.shape.value, rhs.peg.shape.value))
  {
    LiteralMade(t, IntLit(JavaIntOp(op, lhs.peg.shape.value, rhs.peg.shape.value)));
  }

  /**
   * `==` and `!=`, and the comparisons and shifts, never fold: even over
   * two equal literals the value is the operator node over both operands.
   */
  lemma ComparisonsNeverFold(t: Table, op: BinaryOp, lhs: ExprResult, rhs: ExprResult)
    requires !IntFolded(op) && !op.Or? && !op.And?
    requires Sound(t) && IsHeap(lhs.context.heap) && IsHeap(rhs.context.heap)
    requires lhs.peg.id < t.next && rhs.peg.id < t.next
    ensures var r := HandleBinExpr(t, op, lhs, rhs);
      r.out.Returns? && Grown(t, r.table) && r.out.value.context == rhs.context
      && Built(r.out.value.peg, Symbol(op), [lhs.peg.id, rhs.peg.id])
  {
    BelowTwo(t, lhs.peg.id, rhs.peg.id);
    OpNodeMade(t, Symbol(op), [lhs.peg.id, rhs.peg.id]);
  }

  // ------------------------------------------------------------ paths and writes

  /** Table `u` caches `path(base, derefs(s))` as node `id`. */
  ghost predicate PathAt(u: Table, base: int, s: string, id: int) {
    (s, []) in u.symbols
    && var name := u.symbols[(s, [])].id;
    ("derefs", [name]) in u.symbols
    && var d := u.symbols[("derefs", [name])].id;
    Cached(u, "path", [base, d], id)
  }

  lemma PathAtGrows(u: Table, v: Table, base: int, s: string, id: int)
    requires Grown(u, v) && PathAt(u, base, s, id)
    ensures PathAt(v, base, s, id)
  {
    var name := u.symbols[(s, [])].id;
    CachedGrows(u, v, s, []);
    CachedGrows(u, v, "derefs", [name]);
  }

  /** `path(base, s)` is the node cached as `path(base, derefs(s))`. */
  lemma PathCached(t: Table, base: int, s: string)
    requires Sound(t) && base < t.next
    ensures var r := PathOf(t, base, s);
      Made(t, r) && Grown(t, r.table) && PathAt(r.table, base, s, r.out.value.id)
  {
    OpNodeMade(t, s, []);
    var s1 := OpNodeOf(t, s, []);
    OpNodeMade(s1.table, "derefs", [s1.out.value.id]);
    var s2 := OpNodeOf(s1.table, "derefs", [s1.out.value.id]);
    BelowTwo(s2.table, base, s2.out.value.id);
    OpNodeMade(s2.table, "path", [base, s2.out.value.id]);
    var s3 := OpNodeOf(s2.table, "path", [base, s2.out.value.id]);
    assert [s1.out.value.id] + [] == [s1.out.value.id];
    GrownTrans(t, s1.table, s2.table);
    GrownTrans(t, s2.table, s3.table);
    GrownTrans(s1.table, s2.table, s3.table);
    CachedGrows(s1.table, s3.table, s, []);
    CachedGrows(s2.table, s3.table, "derefs", [s1.out.value.id]);
  }

  /**
   * `performWrite` after the path: the heap's state becomes the cached
   * `wr(path, value, heap)`, its status stays, and the rest of the context
   * is unchanged.
   */
  lemma WriteThroughMade(t: Table, path: ExprResult, value: Node)
    requires Sound(t) && Fits(t, path.context) && path.peg.id < t.next && value.id < t.next
    ensures WriteThrough(t, path, value).out.Returns?
    ensures var r := WriteThrough(t, path, value);
      Grown(t, r.table) && r.out.value.peg == path.peg
      && Cached(r.table, "wr", [path.peg.id, value.id, path.context.heap.id], HeapState(r.out.value.context.heap))
      && HeapStatus(r.out.value.context.heap) == HeapStatus(path.context.heap)
      && r.out.value.context == WithHeap(path.context, r.out.value.context.heap)
  {
    WrHeapMade(t, path.peg.id, value.id, path.context.heap);
  }

  /** The id of `path(base, derefs(s))` in table `u`, or -1 when it is not cached. */
  ghost function PathId(u: Table, base: int, s: string): int {
    CachedId(u, "path", [base, CachedId(u, "derefs", [CachedId(u, s, [])])])
  }

  // ------------------------------------------------------------ assignments

  /**
   * `x = v` where `x` is not an unshadowed field, with no exit condition:
   * the value of the assignment is `v`, `x` is bound to `v`, so that a
   * later `getLocalVar(x)` gives `v`, and every other local is unchanged.
   */
  lemma LocalAssign(t: Table, x: string, value: Node, c: Context)
    requires IsHeap(c.heap) && !IsUnshadowedField(c, x) && c.exitConditions == []
    ensures var r := AssignName(t, x, value, c);
      r.out.Returns? && r.table == t && r.out.value.peg == value
      && GetLocalVar(t, r.out.value.context, x) == Step(t, Returns(value))
      && (forall k :: k != x ==> Lookup(r.out.value.context.locals, k) == Lookup(c.locals, k))
      && r.out.value.context == c.(locals := r.out.value.context.locals)
  {
    SetThenGet(t, c, x, value);
  }

  /**
   * `f = v` where `f` is a field no local hides: the heap's state becomes
   * `wr(path(this, derefs(f)), v, heap)` with the status kept, and the
   * value of the assignment is that path.
   */
  lemma ImplicitFieldAssign(t: Table, f: string, value: Node, c: Context)
    requires Sound(t) && Fits(t, c) && value.id < t.next && IsUnshadowedField(c, f)
    ensures var self := GetLocalVar(t, c, "this");
      var r := AssignName(t, f, value, c);
      self.out.Returns? && r.out.Returns? && Grown(t, r.table)
      && PathAt(r.table, self.out.value.id, f, r.out.value.peg.id)
      && Cached(r.table, "wr", [r.out.value.peg.id, value.id, c.heap.id], HeapState(r.out.value.context.heap))
      && HeapStatus(r.out.value.context.heap) == HeapStatus(c.heap)
      && r.out.value.context == WithHeap(c, r.out.value.context.heap)
  {
    GetLocalVarResolves(t, c, "this");
    var s1 := VisitThis(t, c);
    WritePath(s1.table, s1.out.value.peg, f, value, c);
  }

  /**
   * A write through `path(base, derefs(d))`: the heap's state becomes
   * `wr(path, v, heap)` with the status kept, and the value is that path.
   */
  lemma WritePath(t: Table, base: Node, d: string, value: Node, c: Context)
    requires Sound(t) && Fits(t, c) && value.id < t.next && base.id < t.next
    ensures var p := PathFrom(t, ExprResult(base, c), d, c);
      p.out.Returns? && Grown(t, p.table) && p.out.value == ExprResult(p.out.value.peg, c)
      && var r := WriteThrough(p.table, p.out.value, value);
      r.out.Returns? && Grown(t, r.table)
      && PathAt(r.table, base.id, d, r.out.value.peg.id)
      && Cached(r.table, "wr", [r.out.value.peg.id, value.id, c.heap.id], HeapState(r.out.value.context.heap))
      && HeapStatus(r.out.value.context.heap) == HeapStatus(c.heap)
      && r.out.value.context == WithHeap(c, r.out.value.context.heap)
  {
    PathCached(t, base.id, d);
    var p := PathFrom(t, ExprResult(base, c), d, c);
    FitsGrown(t, p.table, c);
    WriteThroughMade(p.table, p.out.value, value);
    var r := WriteThrough(p.table, p.out.value, value);
    PathAtGrows(p.table, r.table, base.id, d, p.out.value.peg.id);
    GrownTrans(t, p.table, r.table);
  }

  /**
   * `scope.field = v` once the base is visited: the heap's state becomes
   * `wr(path(base, derefs(d)), v, heap)` and the value of the assignment
   * is `v`.
   */
  lemma FieldAssign(t: Table, base: ExprResult, d: string, value: Node, c: Context)
    requires Sound(t) && Fits(t, c) && value.id < t.next && base.peg.id < t.next
    ensures var r := AssignField(t, base, d, value, c);
      r.out.Returns? && Grown(t, r.table) && r.out.value.peg == value
      && PathAt(r.table, base.peg.id, d, PathId(r.table, base.peg.id, d))
      && Cached(r.table, "wr", [PathId(r.table, base.peg.id, d), value.id, c.heap.id], HeapState(r.out.value.context.heap))
      && HeapStatus(r.out.value.context.heap) == HeapStatus(c.heap)
      && r.out.value.context == WithHeap(c, r.out.value.context.heap)
  {
    WritePath(t, base.peg, d, value, c);
    assert PathFrom(t, base, d, c) == PathFrom(t, ExprResult(base.peg, c), d, c);
  }

  /**
   * `performAssign` on `scope.field` writes through the dereference string
   * of the chain: as written the one the loop of
   * `getPathFromFieldAccessExpr` builds, intended the field names joined
   * by `.`.
   */
  lemma FieldTarget(t: Table, scope: Expr, field: string, value: Node, c: Context, rd: Reading)
    requires IsHeap(c.heap) && VisitBase(t, scope, c, rd).out.Returns?
    ensures var b := VisitBase(t, scope, c, rd);
      var d := if rd.AsWritten? then DerefsAsWritten(scope, field) else Text.Join(FieldChain(FieldAccess(scope, field)), '.');
      PerformAssign(t, FieldAccess(scope, field), value, c, rd) == AssignField(b.table, b.out.value, d, value, c)
  {
    FieldTargetSteps(t, scope, field, value, c, rd);
    DerefsJoinFields(scope, field);
  }

  /** A field-access target visits its base and is assigned by `AssignField`. */
  lemma FieldTargetSteps(t: Table, scope: Expr, field: string, value: Node, c: Context, rd: Reading)
    requires IsHeap(c.heap) && VisitBase(t, scope, c, rd).out.Returns?
    ensures var b := VisitBase(t, scope, c, rd);
      var d := if rd.AsWritten? then DerefsAsWritten(scope, field) else Derefs(scope, field);
      PerformAssign(t, FieldAccess(scope, field), value, c, rd) == AssignField(b.table, b.out.value, d, value, c)
  {
    var target := FieldAccess(scope, field);
    assert target.scope == scope && target.field == field;
  }

  /**
   * `this.a.b = v`: as written the write goes to the path `.bb`, intended
   * is `a.b`, and the two differ for every field name `a`.
   */
  lemma TwoFieldWrite(a: string, b: string)
    requires a != [] && '.' !in a
    ensures DerefsAsWritten(FieldAccess(This, a), b) == "." + b + b
    ensures Text.Join(FieldChain(FieldAccess(FieldAccess(This, a), b)), '.') == a + "." + b
    ensures "." + b + b != a + "." + b
  {
    DerefsAsWrittenDoubles(This, a, b);
    DerefsJoinFields(FieldAccess(This, a), b);
    assert ("." + b + b)[0] == '.' && (a + "." + b)[0] == a[0];
  }

  // ------------------------------------------------------------ compound assignment

  /** A local name visits to the node it holds, in the same table and context. */
  lemma VisitLocal(t: Table, x: string, c: Context, rd: Reading)
    requires IsHeap(c.heap) && Lookup(c.locals, x).Some?
    ensures Visit(t, Name(x), c, rd) == Step(t, Returns(ExprResult(Lookup(c.locals, x).value, c)))
  {
  }

  /** The decimal text of a non-negative `int` visits to that literal. */
  lemma VisitIntLiteral(t: Table, n: i32, c: Context, rd: Reading)
    requires IsHeap(c.heap) && n >= 0
    ensures Visit(t, IntegerLiteral(IntToString(n as int)), c, rd) == LiteralResult(t, IntLit(n), c)
  {
    SerializerUtil.ParseIntShow(n);
  }

  /** An assignment visits through `VisitAssign`. */
  lemma VisitIsAssign(t: Table, e: Expr, c: Context, rd: Reading)
    requires IsHeap(c.heap) && e.Assign?
    ensures Visit(t, e, c, rd) == VisitAssign(t, e, c, rd)
  {
  }

  /** A name target is assigned by `AssignName`. */
  lemma NameTarget(t: Table, x: string, value: Node, c: Context, rd: Reading)
    requires IsHeap(c.heap)
    ensures PerformAssign(t, Name(x), value, c, rd) == AssignName(t, x, value, c)
  {
  }

  /** As written an assignment visits its value and assigns it, whatever the operator. */
  lemma AssignAsWrittenSteps(t: Table, e: Expr, c: Context)
    requires IsHeap(c.heap) && e.Assign? && Visit(t, e.value, c, AsWritten).out.Returns?
    ensures var s := Visit(t, e.value, c, AsWritten);
      VisitAssign(t, e, c, AsWritten) == PerformAssign(s.table, e.target, s.out.value.peg, s.out.value.context, AsWritten)
  {
  }

  /** Intended, `x op= v` visits `x`, then `v` in the context that leaves, then assigns `x op v`. */
  lemma AssignIntendedSteps(t: Table, e: Expr, c: Context)
    requires IsHeap(c.heap) && e.Assign? && e.aop.Compound? && e.target.Name?
    requires var s1 := Visit(t, e.target, c, Intended);
      s1.out.Returns? && var s2 := Visit(s1.table, e.value, s1.out.value.context, Intended);
      s2.out.Returns? && BinaryOf(s2.table, e.aop.op, s1.out.value, s2.out.value).out.Returns?
    ensures var s1 := Visit(t, e.target, c, Intended);
      var s2 := Visit(s1.table, e.value, s1.out.value.context, Intended);
      var s3 := BinaryOf(s2.table, e.aop.op, s1.out.value, s2.out.value);
      VisitAssign(t, e, c, Intended) == PerformAssign(s3.table, e.target, s3.out.value.peg, s3.out.value.context, Intended)
  {
  }

  /** As written `x op= v` visits `v` and assigns it to `x`, whatever `op` is. */
  lemma CompoundAsWrittenSteps(t: Table, x: string, op: BinaryOp, v: Expr, c: Context)
    requires IsHeap(c.heap) && Visit(t, v, c, AsWritten).out.Returns?
    ensures var s := Visit(t, v, c, AsWritten);
      Visit(t, Assign(Name(x), Compound(op), v), c, AsWritten)
      == AssignName(s.table, x, s.out.value.peg, s.out.value.context)
  {
    var e := Assign(Name(x), Compound(op), v);
    var s := Visit(t, v, c, AsWritten);
    VisitIsAssign(t, e, c, AsWritten);
    AssignAsWrittenSteps(t, e, c);
    NameTarget(s.table, x, s.out.value.peg, s.out.value.context, AsWritten);
  }

  /** Intended, `x op= v` visits `x`, then `v`, then assigns `x op v` to `x`. */
  lemma CompoundIntendedSteps(t: Table, x: string, op: BinaryOp, v: Expr, c: Context)
    requires IsHeap(c.heap)
    requires var s1 := Visit(t, Name(x), c, Intended);
      s1.out.Returns? && var s2 := Visit(s1.table, v, s1.out.value.context, Intended);
      s2.out.Returns? && BinaryOf(s2.table, op, s1.out.value, s2.out.value).out.Returns?
    ensures var s1 := Visit(t, Name(x), c, Intended);
      var s2 := Visit(s1.table, v, s1.out.value.context, Intended);
      var s3 := BinaryOf(s2.table, op, s1.out.value, s2.out.value);
      Visit(t, Assign(Name(x), Compound(op), v), c, Intended)
      == AssignName(s3.table, x, s3.out.value.peg, s3.out.value.context)
  {
    var e := Assign(Name(x), Compound(op), v);
    var s1 := Visit(t, Name(x), c, Intended);
    var s2 := Visit(s1.table, v, s1.out.value.context, Intended);
    var s3 := BinaryOf(s2.table, op, s1.out.value, s2.out.value);
    VisitIsAssign(t, e, c, Intended);
    AssignIntendedSteps(t, e, c);
    NameTarget(s3.table, x, s3.out.value.peg, s3.out.value.context, Intended);
  }

  /**
   * `x op= n` on a local `x` holding the literal `a`, with `n` a
   * non-negative literal: as written `x` ends up holding `n`, the
   * right-hand side alone, whatever `op` is.
   */
  lemma CompoundAssignAsWritten(t: Table, op: BinaryOp, x: string, n: i32, c: Context)
    requires Sound(t) && Fits(t, c) && c.exitConditions == [] && n >= 0
    requires Lookup(c.locals, x).Some? && Lookup(c.locals, x).value.shape.IntLit?
    ensures var r := Visit(t, Assign(Name(x), Compound(op), IntegerLiteral(IntToString(n as int))), c, AsWritten);
      r.out.Returns? && Lookup(r.out.value.context.locals, x).Some?
      && Lookup(r.out.value.context.locals, x).value.shape == IntLit(n)
  {
    VisitIntLiteral(t, n, c, AsWritten);
    LiteralMade(t, IntLit(n));
    var s := LiteralResult(t, IntLit(n), c);
    CompoundAsWrittenSteps(t, x, op, IntegerLiteral(IntToString(n as int)), c);
    LocalAssign(s.table, x, s.out.value.peg, c);
  }

  /**
   * The same `x op= n` under the intended reading, for an operator that
   * folds: `x` ends up holding the literal `a op n` in Java's `int`
   * arithmetic.
   */
  lemma CompoundAssignIntended(t: Table, op: BinaryOp, x: string, n: i32, c: Context)
    requires IntFolded(op) && !op.Divide? && !op.Remainder?
    requires Sound(t) && Fits(t, c) && c.exitConditions == [] && n >= 0
    requires Lookup(c.locals, x).Some? && Lookup(c.locals, x).value.shape.IntLit?
    ensures var r := Visit(t, Assign(Name(x), Compound(op), IntegerLiteral(IntToString(n as int))), c, Intended);
      r.out.Returns? && Lookup(r.out.value.context.locals, x).Some?
      && Lookup(r.out.value.context.locals, x).value.shape == IntLit(JavaIntOp(op, Lookup(c.locals, x).value.shape.value, n))
  {
    var lhs := ExprResult(Lookup(c.locals, x).value, c);
    VisitLocal(t, x, c, Intended);
    VisitIntLiteral(t, n, c, Intended);
    LiteralMade(t, IntLit(n));
    var s2 := LiteralResult(t, IntLit(n), c);
    IntFoldWraps(s2.table, op, lhs, s2.out.value);
    var s3 := BinaryOf(s2.table, op, lhs, s2.out.value);
    CompoundIntendedSteps(t, x, op, IntegerLiteral(IntToString(n as int)), c);
    LocalAssign(s3.table, x, s3.out.value.peg, c);
  }

  /** `x += 1` on a local holding `a`: as written `x` becomes 1, intended `a + 1`; the two differ unless `a` is 0. */
  lemma PlusOneDiffers(t: Table, x: string, c: Context)
    requires Sound(t) && Fits(t, c) && c.exitConditions == []
    requires Lookup(c.locals, x).Some? && Lookup(c.locals, x).value.shape.IntLit?
    ensures var a := Lookup(c.locals, x).value.shape.value;
      var e := Assign(Name(x), Compound(Plus), IntegerLiteral(IntToString(1)));
      var w := Visit(t, e, c, AsWritten);
      var i := Visit(t, e, c, Intended);
      w.out.Returns? && i.out.Returns?
      && Lookup(w.out.value.context.locals, x).Some? && Lookup(i.out.value.context.locals, x).Some?
      && (a != 0 <==> Lookup(w.out.value.context.locals, x).value.shape != Lookup(i.out.value.context.locals, x).value.shape)
  {
    var a := Lookup(c.locals, x).value.shape.value;
    CompoundAssignAsWritten(t, Plus, x, 1, c);
    CompoundAssignIntended(t, Plus, x, 1, c);
    PlusOneWraps(a);
  }

  /** In 32-bit arithmetic `a + 1` is 1 only for `a` = 0. */
  lemma PlusOneWraps(a: i32)
    ensures JavaIntOp(Plus, a, 1) == 1 <==> a == 0
  {
    var r := JavaIntOp(Plus, a, 1);
    assert r as int % TWO_32 == (a as int + 1) % TWO_32;
    if r == 1 {
      assert (a as int + 1) % TWO_32 == 1;
    }
  }

  // ------------------------------------------------------------ literals and unary operators

  /** `Util.parseInt` over unsigned decimal digits, with and without a minus sign. */
  lemma ParseDecimal(n: nat)
    ensures var d := NatToString(n);
      (SerializerUtil.ParseInt(Some(d)).Some? <==> n < TWO_31)
      && (n < TWO_31 ==> SerializerUtil.ParseInt(Some(d)).value as int == n)
      && (SerializerUtil.ParseInt(Some("-" + d)).Some? <==> n <= TWO_31)
      && (n <= TWO_31 ==> SerializerUtil.ParseInt(Some("-" + d)).value as int == -(n as int))
  {
    ParsePositive(n);
    ParseNegative(n);
  }

  lemma ParsePositive(n: nat)
    ensures var d := NatToString(n);
      (SerializerUtil.ParseInt(Some(d)).Some? <==> n < TWO_31)
      && (n < TWO_31 ==> SerializerUtil.ParseInt(Some(d)).value as int == n)
  {
    var d := NatToString(n);
    assert forall i :: 0 <= i < |d| ==> IsDigit(d[i]);
    SerializerUtil.LowerKeeps(d);
    DecodeDecimalRange(n);
  }

  lemma ParseNegative(n: nat)
    ensures var d := NatToString(n);
      (SerializerUtil.ParseInt(Some("-" + d)).Some? <==> n <= TWO_31)
      && (n <= TWO_31 ==> SerializerUtil.ParseInt(Some("-" + d)).value as int == -(n as int))
  {
    var d := NatToString(n);
    assert forall i :: 0 <= i < |d| ==> IsDigit(d[i]);
    assert forall i :: 1 <= i < |"-" + d| ==> ("-" + d)[i] == d[i - 1];
    SerializerUtil.LowerKeeps("-" + d);
    DecodeDecimalRange(n);
  }

  /**
   * An integer literal's digits give its value when it is below 2^31 and
   * the error "Invalid integer literal" otherwise; behind a minus sign the
   * digits of 2^31 give `Integer.MIN_VALUE`, and a larger value gives the
   * same error, naming the digits without the minus.
   */
  lemma IntegerLiterals(t: Table, n: nat, c: Context, rd: Reading)
    requires IsHeap(c.heap)
    ensures var d := NatToString(n);
      var plain := Visit(t, IntegerLiteral(d), c, rd);
      var negated := Visit(t, Unary(Negative, IntegerLiteral(d)), c, rd);
      (n < TWO_31 ==> plain == LiteralResult(t, IntLit(n as i32), c))
      && (n >= TWO_31 ==> plain == Step(t, Throws(Throw(IllegalState, "Invalid integer literal: " + d))))
      && (n <= TWO_31 ==> negated == LiteralResult(t, IntLit((-(n as int)) as i32), c))
      && (n > TWO_31 ==> negated == Step(t, Throws(Throw(IllegalState, "Invalid integer literal: " + d))))
  {
    PlainLiteral(t, n, c, rd);
    NegatedLiteral(t, n, c, rd);
  }

  /** An unsigned integer literal: its value when it fits an `int`, else the error. */
  lemma PlainLiteral(t: Table, n: nat, c: Context, rd: Reading)
    requires IsHeap(c.heap)
    ensures var d := NatToString(n);
      var plain := Visit(t, IntegerLiteral(d), c, rd);
      (n < TWO_31 ==> plain == LiteralResult(t, IntLit(n as i32), c))
      && (n >= TWO_31 ==> plain == Step(t, Throws(Throw(IllegalState, "Invalid integer literal: " + d))))
  {
    ParsePositive(n);
  }

  /** A negated integer literal: its negative when that fits an `int`, else the error. */
  lemma NegatedLiteral(t: Table, n: nat, c: Context, rd: Reading)
    requires IsHeap(c.heap)
    ensures var d := NatToString(n);
      var negated := Visit(t, Unary(Negative, IntegerLiteral(d)), c, rd);
      (n <= TWO_31 ==> negated == LiteralResult(t, IntLit((-(n as int)) as i32), c))
      && (n > TWO_31 ==> negated == Step(t, Throws(Throw(IllegalState, "Invalid integer literal: " + d))))
  {
    NegatedLiteralOf(t, NatToString(n), c, rd);
    ParseNegative(n);
  }

  /** A minus in front of an integer literal is read as one literal with the minus. */
  lemma NegatedLiteralOf(t: Table, d: string, c: Context, rd: Reading)
    requires IsHeap(c.heap)
    ensures Visit(t, Unary(Negative, IntegerLiteral(d)), c, rd) == IntegerLiteralOf(t, "-" + d, d, c)
  {
  }

  /** `!` over a boolean literal folds to its negation and `~` over an `int` literal to its complement. */
  lemma UnaryFolds(t: Table, op: UnaryOp, er: ExprResult)
    requires Sound(t) && (op.LogicalComplement? || op.BitwiseComplement?)
    requires op.LogicalComplement? ==> er.peg.shape.BoolLit?
    requires op.BitwiseComplement? ==> er.peg.shape.IntLit?
    ensures var r := UnaryOf(t, op, er);
      r.out.Returns? && Grown(t, r.table) && r.out.value.context == er.context
      && r.out.value.peg.shape
         == (if op.LogicalComplement? then BoolLit(!er.peg.shape.flag) else IntLit(Complement(er.peg.shape.value)))
  {
    if op.LogicalComplement? {
      LiteralMade(t, BoolLit(!er.peg.shape.flag));
    } else {
      LiteralMade(t, IntLit(Complement(er.peg.shape.value)));
    }
  }

  /**
   * Over an operand they do not fold, `-` builds `---`, `!` builds `!` and
   * `~` builds `~` over it; `+` gives the operand back unchanged.
   */
  lemma UnaryBuilds(t: Table, op: UnaryOp, er: ExprResult)
    requires Sound(t) && er.peg.id < t.next && !op.IsIncDec()
    requires op.LogicalComplement? ==> !er.peg.shape.BoolLit?
    requires op.BitwiseComplement? ==> !er.peg.shape.IntLit?
    ensures var r := UnaryOf(t, op, er);
      r.out.Returns? && Grown(t, r.table) && r.out.value.context == er.context
      && (op.Positive? ==> r == Step(t, Returns(er)))
      && (op.Negative? ==> Built(r.out.value.peg, "---", [er.peg.id]))
      && (op.LogicalComplement? ==> Built(r.out.value.peg, "!", [er.peg.id]))
      && (op.BitwiseComplement? ==> Built(r.out.value.peg, "~", [er.peg.id]))
  {
    if !op.Positive? {
      var sym := if op.Negative? then "---" else if op.LogicalComplement? then "!" else "~";
      assert Below(t, [er.peg.id]);
      OpNodeMade(t, sym, [er.peg.id]);
    }
  }

  /** Outside a negated literal and the increments, a unary expression visits its operand and applies `UnaryOf`. */
  lemma VisitUnarySteps(t: Table, op: UnaryOp, e: Expr, c: Context, rd: Reading)
    requires IsHeap(c.heap) && !op.IsIncDec() && !(op.Negative? && e.IntegerLiteral?)
    requires Visit(t, e, c, rd).out.Returns?
    ensures var s := Visit(t, e, c, rd);
      Visit(t, Unary(op, e), c, rd) == UnaryOf(s.table, op, s.out.value)
  {
    VisitIsUnary(t, Unary(op, e), c, rd);
    VisitUnaryOperand(t, op, e, c, rd);
  }

  lemma VisitIsUnary(t: Table, u: Expr, c: Context, rd: Reading)
    requires IsHeap(c.heap) && u.Unary?
    ensures Visit(t, u, c, rd) == VisitUnary(t, u, c, rd)
  {
  }

  lemma VisitUnaryOperand(t: Table, op: UnaryOp, e: Expr, c: Context, rd: Reading)
    requires IsHeap(c.heap) && !op.IsIncDec() && !(op.Negative? && e.IntegerLiteral?)
    requires Visit(t, e, c, rd).out.Returns?
    ensures var s := Visit(t, e, c, rd);
      VisitUnary(t, Unary(op, e), c, rd) == UnaryOf(s.table, op, s.out.value)
  {
  }

  /** An increment or decrement assigns `operand + 1` or `operand - 1` to its target. */
  lemma IncDecSteps(t: Table, target: Expr, er: ExprResult, op: UnaryOp, rd: Reading)
    requires op.IsIncDec() && IsHeap(er.context.heap)
    requires var s1 := IntLitOf(t, 1);
      s1.out.Returns? && OpNodeOf(s1.table, if op.PreDecrement? || op.PostDecrement? then "-" else "+", [er.peg.id, s1.out.value.id]).out.Returns?
    ensures var s1 := IntLitOf(t, 1);
      var s2 := OpNodeOf(s1.table, if op.PreDecrement? || op.PostDecrement? then "-" else "+", [er.peg.id, s1.out.value.id]);
      var a := PerformAssign(s2.table, target, s2.out.value, er.context, rd);
      PerformSideEffectingUnary(t, target, er, op, rd)
      == if a.out.Throws? then Step(a.table, Throws(a.out.exc))
         else Step(a.table, Returns(if op.IsPrefix() then a.out.value else WithPeg(a.out.value, er.peg)))
  {
  }

  /**
   * `++x`, `x++`, `--x` and `x--` on a local with no exit condition: `x`
   * is bound to `x + 1` (or `x - 1`) over the literal 1; the prefix forms
   * yield the new value and the postfix forms the old one.
   */
  lemma IncDecLocal(t: Table, x: string, er: ExprResult, op: UnaryOp, rd: Reading)
    requires op.IsIncDec() && Sound(t) && IsHeap(er.context.heap) && er.peg.id < t.next
    requires !IsUnshadowedField(er.context, x) && er.context.exitConditions == []
    ensures IntLitOf(t, 1).out.Returns? && IntLitOf(t, 1).out.value.shape == IntLit(1)
    ensures var r := PerformSideEffectingUnary(t, Name(x), er, op, rd);
      r.out.Returns? && Grown(t, r.table) && Lookup(r.out.value.context.locals, x).Some?
    ensures var r := PerformSideEffectingUnary(t, Name(x), er, op, rd);
      var v := Lookup(r.out.value.context.locals, x).value;
      Built(v, if op.PreDecrement? || op.PostDecrement? then "-" else "+", [er.peg.id, IntLitOf(t, 1).out.value.id])
      && r.out.value.peg == (if op.IsPrefix() then v else er.peg)
      && (forall k :: k != x ==> Lookup(r.out.value.context.locals, k) == Lookup(er.context.locals, k))
  {
    var sym := if op.PreDecrement? || op.PostDecrement? then "-" else "+";
    LiteralMade(t, IntLit(1));
    var s1 := IntLitOf(t, 1);
    BelowTwo(s1.table, er.peg.id, s1.out.value.id);
    OpNodeMade(s1.table, sym, [er.peg.id, s1.out.value.id]);
    var s2 := OpNodeOf(s1.table, sym, [er.peg.id, s1.out.value.id]);
    GrownTrans(t, s1.table, s2.table);
    IncDecSteps(t, Name(x), er, op, rd);
    NameTarget(s2.table, x, s2.out.value, er.context, rd);
    LocalAssign(s2.table, x, s2.out.value, er.context);
  }

  // ------------------------------------------------------------ conditional expressions

  /** A literal condition selects its branch, with the branch's own context. */
  lemma ConditionalSelects(t: Table, condEr: ExprResult, thnEr: ExprResult, elsEr: ExprResult)
    requires IsHeap(thnEr.context.heap) && IsHeap(elsEr.context.heap) && condEr.peg.shape.BoolLit?
    ensures ConditionalOf(t, condEr, thnEr, elsEr) == Step(t, Returns(if condEr.peg.shape.flag then thnEr else elsEr))
  {
  }

  /**
   * Any other condition gives `phi(cond, thn, els)` over the contexts the
   * two branches leave, merged under the condition.
   */
  lemma ConditionalMerges(t: Table, condEr: ExprResult, thnEr: ExprResult, elsEr: ExprResult)
    requires Sound(t) && Fits(t, thnEr.context) && Fits(t, elsEr.context)
    requires condEr.peg.id < t.next && thnEr.peg.id < t.next && elsEr.peg.id < t.next
    requires !condEr.peg.shape.BoolLit?
    requires thnEr.context.returnNode.None? || elsEr.context.returnNode.None?
    ensures var m := Combine(t, thnEr.context, elsEr.context, condEr.peg.id);
      var r := ConditionalOf(t, condEr, thnEr, elsEr);
      m.out.Returns? && r.out.Returns? && Grown(t, r.table)
      && Built(r.out.value.peg, "phi", [condEr.peg.id, thnEr.peg.id, elsEr.peg.id])
      && Merged(m.table, r.out.value.context, condEr.peg.id, thnEr.context, elsEr.context)
  {
    CombineIsMerged(t, thnEr.context, elsEr.context, condEr.peg.id);
    var m := Combine(t, thnEr.context, elsEr.context, condEr.peg.id);
    var cs := [condEr.peg.id, thnEr.peg.id, elsEr.peg.id];
    BelowThree(m.table, cs[0], cs[1], cs[2]);
    OpNodeMade(m.table, "phi", cs);
    GrownTrans(t, m.table, OpNodeOf(m.table, "phi", cs).table);
  }

  // ------------------------------------------------------------ field reads

  /** The nodes a field read makes before its exception condition: the path, `isnull?` and the exception. */
  lemma FieldReadNodes(t: Table, b: int, field: string)
    requires Sound(t) && b < t.next
    ensures var s1 := PathOf(t, b, field);
      s1.out.Returns? && var s2 := IsNullOf(s1.table, b);
      s2.out.Returns? && var s3 := ExceptionOf(s2.table, "java.lang.NullPointerException");
      s3.out.Returns? && Sound(s3.table) && Grown(t, s3.table)
      && s1.out.value.id < s3.table.next && s2.out.value.id < s3.table.next && s3.out.value.id < s3.table.next
      && PathAt(s3.table, b, field, s1.out.value.id)
      && Cached(s3.table, "isnull?", [b], s2.out.value.id)
      && Cached(s3.table, "java.lang.NullPointerException", [], s3.out.value.id)
  {
    PathCached(t, b, field);
    var s1 := PathOf(t, b, field);
    assert Below(s1.table, [b]);
    OpNodeMade(s1.table, "isnull?", [b]);
    var s2 := IsNullOf(s1.table, b);
    OpNodeMade(s2.table, "java.lang.NullPointerException", []);
    var s3 := ExceptionOf(s2.table, "java.lang.NullPointerException");
    GrownTrans(t, s1.table, s2.table);
    GrownTrans(t, s2.table, s3.table);
    PathAtGrows(s1.table, s2.table, b, field, s1.out.value.id);
    PathAtGrows(s2.table, s3.table, b, field, s1.out.value.id);
    CachedGrows(s2.table, s3.table, "isnull?", [b]);
  }

  /** How the steps of `FieldRead` thread when each of them returns. */
  lemma FieldReadChain(t: Table, scope: ExprResult, field: string)
    requires IsHeap(scope.context.heap)
    requires var s1 := PathOf(t, scope.peg.id, field);
      s1.out.Returns? && var s2 := IsNullOf(s1.table, scope.peg.id);
      s2.out.Returns? && var s3 := ExceptionOf(s2.table, "java.lang.NullPointerException");
      s3.out.Returns? && var w := WithExceptionConditionOf(s3.table, scope, s2.out.value, s3.out.value);
      w.out.Returns? && RdOf(w.table, s1.out.value.id, scope.context.heap.id).out.Returns?
    ensures var s1 := PathOf(t, scope.peg.id, field);
      var s2 := IsNullOf(s1.table, scope.peg.id);
      var s3 := ExceptionOf(s2.table, "java.lang.NullPointerException");
      var w := WithExceptionConditionOf(s3.table, scope, s2.out.value, s3.out.value);
      var s5 := RdOf(w.table, s1.out.value.id, scope.context.heap.id);
      FieldRead(t, scope, field) == Step(s5.table, Returns(ExprResult(s5.out.value, w.out.value.context)))
  {
  }

  /**
   * `o.f` with no exit condition pending: the value is `rd(path(o,
   * derefs(f)), heap)` over the heap before the read.
   */
  lemma FieldReadValue(t: Table, scope: ExprResult, field: string)
    requires Sound(t) && Fits(t, scope.context) && scope.peg.id < t.next
    requires scope.context.exitConditions == []
    requires Cached(t, "unit", [], HeapStatus(scope.context.heap))
    ensures var r := FieldRead(t, scope, field);
      var b := scope.peg.id;
      r.out.Returns? && Grown(t, r.table)
      && PathAt(r.table, b, field, PathId(r.table, b, field))
      && Built(r.out.value.peg, "rd", [PathId(r.table, b, field), scope.context.heap.id])
  {
    var b := scope.peg.id;
    FieldReadNodes(t, b, field);
    var s1 := PathOf(t, b, field);
    var s2 := IsNullOf(s1.table, b);
    var s3 := ExceptionOf(s2.table, "java.lang.NullPointerException");
    RaisedUnder(t, s3.table, scope, s2.out.value, s3.out.value);
    var w := WithExceptionConditionOf(s3.table, scope, s2.out.value, s3.out.value);
    BelowTwo(w.table, s1.out.value.id, scope.context.heap.id);
    OpNodeMade(w.table, "rd", [s1.out.value.id, scope.context.heap.id]);
    var s5 := RdOf(w.table, s1.out.value.id, scope.context.heap.id);
    FieldReadChain(t, scope, field);
    GrownTrans(t, w.table, s5.table);
    GrownTrans(s3.table, w.table, s5.table);
    PathAtGrows(s3.table, s5.table, b, field, s1.out.value.id);
  }

  /**
   * `o.f` with no exit condition pending: `isnull?(o)` becomes the one
   * exit condition, the heap state stays, and the heap status raises a
   * NullPointerException under `isnull?(o)`.
   */
  lemma FieldReadRaises(t: Table, scope: ExprResult, field: string)
    requires Sound(t) && Fits(t, scope.context) && scope.peg.id < t.next
    requires scope.context.exitConditions == []
    requires Cached(t, "unit", [], HeapStatus(scope.context.heap))
    ensures var r := FieldRead(t, scope, field);
      var cond := CachedId(r.table, "isnull?", [scope.peg.id]);
      r.out.Returns?
      && |r.out.value.context.exitConditions| == 1 && r.out.value.context.exitConditions[0].id == cond
      && HeapState(r.out.value.context.heap) == HeapState(scope.context.heap)
      && HeapStatus(r.out.value.context.heap) == Raised(r.table, cond, CachedId(r.table, "java.lang.NullPointerException", []))
  {
    var b := scope.peg.id;
    FieldReadNodes(t, b, field);
    var s1 := PathOf(t, b, field);
    var s2 := IsNullOf(s1.table, b);
    var s3 := ExceptionOf(s2.table, "java.lang.NullPointerException");
    RaisedUnder(t, s3.table, scope, s2.out.value, s3.out.value);
    var w := WithExceptionConditionOf(s3.table, scope, s2.out.value, s3.out.value);
    BelowTwo(w.table, s1.out.value.id, scope.context.heap.id);
    OpNodeMade(w.table, "rd", [s1.out.value.id, scope.context.heap.id]);
    var s5 := RdOf(w.table, s1.out.value.id, scope.context.heap.id);
    FieldReadChain(t, scope, field);
    GrownTrans(s3.table, w.table, s5.table);
    CachedGrows(s3.table, s5.table, "isnull?", [b]);
    CachedGrows(s3.table, s5.table, "java.lang.NullPointerException", []);
    RdKeepsRaised(w.table, s1.out.value.id, scope.context.heap.id, s2.out.value.id, s3.out.value.id);
  }

  /** Making an `rd` node leaves the status an exception condition raised where it was. */
  lemma RdKeepsRaised(w: Table, p: int, h: int, cond: int, exc: int)
    requires Sound(w) && p < w.next && h < w.next
    ensures Raised(RdOf(w, p, h).table, cond, exc) == Raised(w, cond, exc)
  {
    var u := RdOf(w, p, h).table;
    BelowTwo(w, p, h);
    OpNodeMade(w, "rd", [p, h]);
    assert CachedId(u, "unit", []) == CachedId(w, "unit", []);
    var k := ("phi", [cond, exc, CachedId(w, "unit", [])]);
    assert CachedId(u, k.0, k.1) == CachedId(w, k.0, k.1);
  }
}
