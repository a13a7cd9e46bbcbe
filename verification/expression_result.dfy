/**
 * The result of translating one expression
 * (serializer/src/main/java/serializer/peg/ExpressionResult.java): the
 * PEG of its value and the context after its side effects.  The Java
 * class does not override `equals`, so two results are equal only when
 * they are the same object; every visit ends by allocating a new result,
 * so the results of two different visits are never equal.  This model
 * keeps no object identity and leaves that fact to the visitor.
 */
module ExpressionResults {
  import opened JavaLang
  import opened PegNodes
  import opened PegContexts

  datatype ExprResult = ExprResult(peg: Node, context: Context)

  /** `withHeap(heap)`: only the context's heap changes. */
  function WithHeapOf(er: ExprResult, heap: Node): (r: ExprResult)
    ensures r.peg == er.peg && r.context.heap == heap
    ensures r.context.locals == er.context.locals && r.context.exitConditions == er.context.exitConditions
    ensures r.context.returnNode == er.context.returnNode
    ensures r.context.fieldNames == er.context.fieldNames && r.context.typeMap == er.context.typeMap
  {
    ExprResult(er.peg, WithHeap(er.context, heap))
  }

  /** `withContext(context)`: the peg is kept. */
  function WithContext(er: ExprResult, context: Context): (r: ExprResult)
    ensures r.peg == er.peg && r.context == context
  {
    ExprResult(er.peg, context)
  }

  /** `withPeg(peg)`: the context is kept. */
  function WithPeg(er: ExprResult, peg: Node): (r: ExprResult)
    ensures r.peg == peg && r.context == er.context
  {
    ExprResult(peg, er.context)
  }

  /** `withExitCondition(cond)`: the condition joins the context's exit conditions; the peg and the rest stay. */
  function WithExitConditionOf(er: ExprResult, cond: Node): (r: ExprResult)
    ensures r.peg == er.peg && Has(r.context.exitConditions, cond)
    ensures forall y :: Has(er.context.exitConditions, y) ==> Has(r.context.exitConditions, y)
    ensures r.context == er.context.(exitConditions := r.context.exitConditions)
  {
    WithContext(er, WithExitCondition(er.context, cond))
  }

  /** `withExceptionCondition(cond, exc)`: the peg stays; the context raises `exc` under `cond`. */
  function WithExceptionConditionOf(t: Table, er: ExprResult, cond: Node, exc: Node): (r: Step<ExprResult>)
    requires IsHeap(er.context.heap)
    ensures r.out.Returns? ==> r.out.value.peg == er.peg && IsHeap(r.out.value.context.heap)
    ensures r.table == WithExceptionCondition(t, er.context, cond, exc).table
    ensures r.out.Returns? <==> WithExceptionCondition(t, er.context, cond, exc).out.Returns?
  {
    var (t1, c) :- WithExceptionCondition(t, er.context, cond, exc);
    Step(t1, Returns(WithContext(er, c)))
  }

  /**
   * The copy-updates obey the laws of fields: a second update of the
   * same part wins, updates of the peg and of the context commute, and
   * putting back what is there changes nothing.
   */
  lemma WithersLaws(er: ExprResult, p: Node, q: Node, c: Context, h: Node)
    ensures WithPeg(WithPeg(er, p), q) == WithPeg(er, q)
    ensures WithContext(WithContext(er, c), er.context) == er
    ensures WithPeg(WithContext(er, c), p) == WithContext(WithPeg(er, p), c)
    ensures WithPeg(WithHeapOf(er, h), p) == WithHeapOf(WithPeg(er, p), h)
    ensures WithHeapOf(er, er.context.heap) == er
    ensures WithPeg(er, er.peg) == er
  {
  }

  /** `withExceptionCondition` over a context whose status is still `unit` raises `phi(cond, exc, unit)` and keeps the peg. */
  lemma ExceptionConditionRaises(t: Table, er: ExprResult, cond: Node, exc: Node)
    requires Sound(t) && Fits(t, er.context) && cond.id < t.next && exc.id < t.next
    requires HeapStatus(er.context.heap) == UnitOf(t).out.value.id
    ensures var r := WithExceptionConditionOf(t, er, cond, exc);
      r.out.Returns? && Grown(t, r.table) && r.out.value.peg == er.peg
      && HeapStatus(r.out.value.context.heap) == Raised(r.table, cond.id, exc.id)
      && r.out.value.context == WithHeap(WithExitCondition(er.context, cond), r.out.value.context.heap)
  {
    ExceptionUnitStatus(t, er.context, cond, exc);
  }
}
