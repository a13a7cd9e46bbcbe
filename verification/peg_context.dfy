/**
 * The immutable translation context (serializer/src/main/java/serializer/peg/PegContext.java):
 * the local variables in their `ImmutableMap` iteration order, the field
 * names, the heap, the exit conditions in their `ImmutableSet` order, the
 * return node and the type map.  Every operation that builds nodes takes
 * and returns the node table.
 */
module PegContexts {
  import opened Wrappers
  import opened JavaLang
  import opened PegNodes
  import JavaCollections

  /** An `ImmutableMap<String, PegNode>` as its entries in iteration order. */
  type Locals = seq<(string, Node)>

  datatype Context = Context(
    locals: Locals,
    fieldNames: set<string>,
    heap: Node,
    exitConditions: seq<Node>,
    returnNode: Option<Node>,
    typeMap: map<string, Node>)

  /** The keys in iteration order. */
  function Keys(ls: Locals): (r: seq<string>)
    ensures |r| == |ls| && forall i :: 0 <= i < |ls| ==> r[i] == ls[i].0
  {
    if ls == [] then [] else [ls[0].0] + Keys(ls[1..])
  }

  /** No key occurs twice, as in every `ImmutableMap`. */
  predicate UniqueKeys(ls: Locals) {
    ls == [] || (ls[0].0 !in Keys(ls[1..]) && UniqueKeys(ls[1..]))
  }

  /** `get(key)`, or `null` (None) when the key is absent. */
  function Lookup(ls: Locals, key: string): (r: Option<Node>)
    ensures r.Some? <==> key in Keys(ls)
    ensures r.Some? ==> (key, r.value) in ls
  {
    if ls == [] then None
    else if ls[0].0 == key then Some(ls[0].1)
    else Lookup(ls[1..], key)
  }

  /** An entry put in front of a list. */
  lemma Cons(e: (string, Node), rest: Locals)
    ensures ([e] + rest)[0] == e && ([e] + rest)[1..] == rest
  {
  }

  /** The entries of every key but `key`, in order. */
  function Without(ls: Locals, key: string): (r: Locals)
    ensures key !in Keys(r)
    ensures forall k :: k in Keys(r) ==> k in Keys(ls)
    ensures forall k :: k != key ==> Lookup(r, k) == Lookup(ls, k)
    ensures UniqueKeys(ls) ==> UniqueKeys(r)
  {
    if ls == [] then []
    else
      var rest := Without(ls[1..], key);
      if ls[0].0 == key then rest
      else
        Cons(ls[0], rest);
        [ls[0]] + rest
  }

  /**
   * `setLocalVar(key, val)`: a `null` key or value throws
   * IllegalArgumentException; otherwise the map starts with (key, val)
   * followed by the other entries in their old order.
   */
  function SetLocalVar(c: Context, key: Option<string>, val: Option<Node>): (r: Outcome<Context>)
    ensures key.None? ==> r == Throws(Throw(IllegalArgument, "Cannot add null key to serializer.peg.PegContext"))
    ensures key.Some? && val.None? ==> r == Throws(Throw(IllegalArgument, "Cannot add null val to serializer.peg.PegContext"))
    ensures key.Some? && val.Some? ==>
      r.Returns?
      && Lookup(r.value.locals, key.value) == Some(val.value)
      && (forall k :: k != key.value ==> Lookup(r.value.locals, k) == Lookup(c.locals, k))
      && (UniqueKeys(c.locals) ==> UniqueKeys(r.value.locals))
      && r.value == c.(locals := r.value.locals)
  {
    if key.None? then Throws(Throw(IllegalArgument, "Cannot add null key to serializer.peg.PegContext"))
    else if val.None? then Throws(Throw(IllegalArgument, "Cannot add null val to serializer.peg.PegContext"))
    else
      var k, v := key.value, val.value;
      var rest := if k in Keys(c.locals) then Without(c.locals, k) else c.locals;
      Cons((k, v), rest);
      Returns(c.(locals := [(k, v)] + rest))
  }

  /** `isUnshadowedField(key)`: a field name that no local variable hides. */
  predicate IsUnshadowedField(c: Context, key: string) {
    key in c.fieldNames && Lookup(c.locals, key).None?
  }

  /**
   * `getLocalVar(key)`: the local when there is one; else for `this` the
   * node `var("this", nil())`; else for an unshadowed field a read of the
   * field's path off `this` in the current heap; else `unit`.
   */
  function GetLocalVar(t: Table, c: Context, key: string): (r: Step<Node>)
    ensures Lookup(c.locals, key).Some? ==> r == Step(t, Returns(Lookup(c.locals, key).value))
    ensures Lookup(c.locals, key).None? && key != "this" && key !in c.fieldNames ==> r == UnitOf(t)
    decreases if key == "this" then 0 else 1
  {
    match Lookup(c.locals, key)
    case Some(v) => Step(t, Returns(v))
    case None =>
      if key == "this" then
        var n := NilOf(t);
        match n.out
        case Throws(e) => Step(n.table, Throws(e))
        case Returns(nil) => VarOf(n.table, "this", nil.id)
      else if IsUnshadowedField(c, key) then
        var th := GetLocalVar(t, c, "this");
        match th.out
        case Throws(e) => Step(th.table, Throws(e))
        case Returns(self) =>
          var p := PathOf(th.table, self.id, key);
          match p.out
          case Throws(e) => Step(p.table, Throws(e))
          case Returns(path) => RdOf(p.table, path.id, c.heap.id)
      else UnitOf(t)
  }

  /** All the nodes a context refers to are older than the counter, and its heap is a `Heap`. */
  ghost predicate Fits(t: Table, c: Context) {
    IsHeap(c.heap) && c.heap.id < t.next && HeapState(c.heap) < t.next && HeapStatus(c.heap) < t.next
    && (forall i :: 0 <= i < |c.locals| ==> c.locals[i].1.id < t.next)
    && (forall i :: 0 <= i < |c.exitConditions| ==> c.exitConditions[i].id < t.next)
    && (c.returnNode.Some? ==> c.returnNode.value.id < t.next)
  }

  lemma FitsGrown(t: Table, u: Table, c: Context)
    requires Fits(t, c) && t.next <= u.next
    ensures Fits(u, c)
  {
  }

  lemma LookupBelow(t: Table, c: Context, key: string)
    requires Fits(t, c) && Lookup(c.locals, key).Some?
    ensures Lookup(c.locals, key).value.id < t.next
  {
    var i :| 0 <= i < |c.locals| && c.locals[i] == (key, Lookup(c.locals, key).value);
  }

  /** `this` with no local of that name: `var("this", nil())`. */
  lemma ThisResolves(t: Table, c: Context)
    requires Sound(t) && Lookup(c.locals, "this").None?
    ensures var r := GetLocalVar(t, c, "this");
      Made(t, r) && r.out.value.shape.OpNode? && r.out.value.shape.op == "var" && |r.out.value.shape.children| == 2
  {
    OpNodeMade(t, "nil", []);
    var n := NilOf(t);
    OverSymbolMade(n.table, "var", "this", [n.out.value.id]);
  }

  /** An unshadowed field: `rd(path(this, field), heap)`. */
  lemma FieldResolves(t: Table, c: Context, key: string)
    requires Sound(t) && Fits(t, c) && key != "this" && IsUnshadowedField(c, key)
    ensures var r := GetLocalVar(t, c, key);
      Made(t, r) && Built(r.out.value, "rd", [r.out.value.shape.children[0], c.heap.id])
  {
    var th := GetLocalVar(t, c, "this");
    if Lookup(c.locals, "this").Some? {
      LookupBelow(t, c, "this");
    } else {
      ThisResolves(t, c);
    }
    PathMade(th.table, th.out.value.id, key);
    var p := PathOf(th.table, th.out.value.id, key);
    BelowTwo(p.table, p.out.value.id, c.heap.id);
    OpNodeMade(p.table, "rd", [p.out.value.id, c.heap.id]);
  }

  /**
   * The resolution order of `getLocalVar`: a local wins and costs nothing;
   * `this` becomes a `var` node; an unshadowed field becomes a `rd` of a
   * path off `this` in the context's heap; anything else is `unit`.
   */
  lemma GetLocalVarResolves(t: Table, c: Context, key: string)
    requires Sound(t) && Fits(t, c)
    ensures var r := GetLocalVar(t, c, key);
      Made(t, r)
      && (Lookup(c.locals, key).Some? ==> r == Step(t, Returns(Lookup(c.locals, key).value)))
      && (Lookup(c.locals, key).None? && key == "this" ==>
            r.out.value.shape.OpNode? && r.out.value.shape.op == "var" && |r.out.value.shape.children| == 2)
      && (Lookup(c.locals, key).None? && key != "this" && key in c.fieldNames ==>
            Built(r.out.value, "rd", [r.out.value.shape.children[0], c.heap.id]))
      && (Lookup(c.locals, key).None? && key != "this" && key !in c.fieldNames ==> Built(r.out.value, "unit", []))
  {
    if Lookup(c.locals, key).Some? {
      LookupBelow(t, c, key);
    } else if key == "this" {
      ThisResolves(t, c);
    } else if key in c.fieldNames {
      FieldResolves(t, c, key);
    } else {
      OpNodeMade(t, "unit", []);
    }
  }

  /** A local hides a field of the same name: after `setLocalVar(k, v)`, `getLocalVar(k)` is `v`. */
  lemma SetThenGet(t: Table, c: Context, key: string, val: Node)
    ensures var r := SetLocalVar(c, Some(key), Some(val));
      r.Returns? && !IsUnshadowedField(r.value, key) && GetLocalVar(t, r.value, key) == Step(t, Returns(val))
  {
  }

  // ------------------------------------------------------------ exit conditions

  /** `ImmutableSet` membership: an element `equals` to `x`. */
  predicate Has(s: seq<Node>, x: Node) {
    exists i :: 0 <= i < |s| && NodeEquals(s[i], x)
  }

  /** `ImmutableSet.Builder.add`: kept once, at its first position. */
  function AddNode(s: seq<Node>, x: Node): (r: seq<Node>)
    ensures forall y :: y in r ==> y in s || y == x
    ensures Has(r, x)
    ensures forall y :: Has(s, y) ==> Has(r, y)
    ensures s <= r
  {
    if Has(s, x) then s
    else
      NodeEqualsReflexive(x);
      var r := s + [x];
      assert r[|s|] == x;
      assert forall i :: 0 <= i < |s| ==> r[i] == s[i];
      r
  }

  /** The first exit condition of a context is the whole list. */
  lemma FirstExitCondition(c: Context, cond: Node)
    requires c.exitConditions == []
    ensures WithExitCondition(c, cond).exitConditions == [cond]
  {
    assert !Has([], cond);
  }

  /** `addAll`: each element added in order. */
  function AddAll(s: seq<Node>, xs: seq<Node>): (r: seq<Node>)
    ensures forall y :: y in r ==> y in s || y in xs
    ensures forall y :: Has(s, y) ==> Has(r, y)
    ensures forall i :: 0 <= i < |xs| ==> Has(r, xs[i])
    decreases |xs|
  {
    if xs == [] then s
    else
      var s' := AddNode(s, xs[0]);
      var r := AddAll(s', xs[1..]);
      assert forall i :: 1 <= i < |xs| ==> xs[i] == xs[1..][i - 1];
      r
  }

  lemma NodeEqualsReflexive(x: Node)
    ensures NodeEquals(x, x)
  {
  }

  /** `withExitCondition(cond)`: the condition joins the set; nothing else changes. */
  function WithExitCondition(c: Context, cond: Node): (r: Context)
    ensures Has(r.exitConditions, cond)
    ensures forall y :: Has(c.exitConditions, y) ==> Has(r.exitConditions, y)
    ensures forall y :: y in r.exitConditions ==> y in c.exitConditions || y == cond
    ensures r == c.(exitConditions := r.exitConditions)
  {
    c.(exitConditions := AddNode(c.exitConditions, cond))
  }

  /** `withHeap(heap)`. */
  function WithHeap(c: Context, heap: Node): (r: Context)
    ensures r.heap == heap && r == c.(heap := r.heap)
  {
    c.(heap := heap)
  }

  /** `withReturnNode(rn)`. */
  function WithReturnNode(c: Context, rn: Option<Node>): (r: Context)
    ensures r.returnNode == rn && r == c.(returnNode := r.returnNode)
  {
    c.(returnNode := rn)
  }

  /** `withTypeMap(typeMap)`. */
  function WithTypeMap(c: Context, typeMap: map<string, Node>): (r: Context)
    ensures r.typeMap == typeMap && r == c.(typeMap := r.typeMap)
  {
    c.(typeMap := typeMap)
  }

  /** The copy-updates commute when they change different fields. */
  lemma WithersCommute(c: Context, heap: Node, cond: Node, rn: Option<Node>)
    ensures WithHeap(WithExitCondition(c, cond), heap) == WithExitCondition(WithHeap(c, heap), cond)
    ensures WithReturnNode(WithHeap(c, heap), rn) == WithHeap(WithReturnNode(c, rn), heap)
  {
  }

  /** `phi(condition.id, exception.id, unit().id)`: the status an exception condition raises. */
  function RaisePhi(t: Table, cond: Node, exc: Node): Step<Node> {
    var u := UnitOf(t);
    match u.out
    case Throws(e) => Step(u.table, Throws(e))
    case Returns(unit) => PhiOf(u.table, cond.id, exc.id, unit.id)
  }

  /**
   * `withExceptionCondition(condition, exception)`: when the heap status
   * is `unit` it becomes `phi(condition, exception, unit)`; otherwise
   * `phi(isunit?(status), phi(condition, exception, unit), status)`, so an
   * exception already raised is kept.  The condition joins the exit
   * conditions.
   */
  function WithExceptionCondition(t: Table, c: Context, cond: Node, exc: Node): (r: Step<Context>)
    requires IsHeap(c.heap)
    ensures r.out.Returns? ==> IsHeap(r.out.value.heap)
    ensures r.out.Returns? ==> r.out.value == WithHeap(WithExitCondition(c, cond), r.out.value.heap)
  {
    var u := UnitOf(t);
    match u.out
    case Throws(e) => Step(u.table, Throws(e))
    case Returns(unit) =>
      var status := HeapStatus(c.heap);
      var s :=
        if status == unit.id then RaisePhi(u.table, cond, exc)
        else
          var iu := IsUnitOf(u.table, status);
          match iu.out
          case Throws(e) => Step(iu.table, Throws(e))
          case Returns(isUnit) =>
            var inner := RaisePhi(iu.table, cond, exc);
            match inner.out
            case Throws(e) => Step(inner.table, Throws(e))
            case Returns(innerPhi) => PhiOf(inner.table, isUnit.id, innerPhi.id, status);
      match s.out
      case Throws(e) => Step(s.table, Throws(e))
      case Returns(newStatus) =>
        var h := WithStatus(s.table, c.heap, newStatus.id);
        match h.out
        case Throws(e) => Step(h.table, Throws(e))
        case Returns(heap) => Step(h.table, Returns(WithHeap(WithExitCondition(c, cond), heap)))
  }

  /** The id `opNode(sym, children)` is cached under; total for keys not yet cached. */
  ghost function CachedId(t: Table, sym: string, children: seq<int>): int {
    if (sym, children) in t.symbols then t.symbols[(sym, children)].id else -1
  }

  /** The status a fresh exception condition gives: `phi(cond, exc, unit)`. */
  ghost function Raised(t: Table, cond: int, exc: int): int {
    CachedId(t, "phi", [cond, exc, CachedId(t, "unit", [])])
  }

  lemma RaisePhiMade(t: Table, cond: Node, exc: Node)
    requires Sound(t) && cond.id < t.next && exc.id < t.next
    ensures var r := RaisePhi(t, cond, exc);
      Made(t, r) && r.out.value.id == Raised(r.table, cond.id, exc.id)
      && (forall u :: Grown(r.table, u) ==> Raised(u, cond.id, exc.id) == r.out.value.id)
  {
    OpNodeMade(t, "unit", []);
    var u := UnitOf(t);
    BelowThree(u.table, cond.id, exc.id, u.out.value.id);
    OpNodeMade(u.table, "phi", [cond.id, exc.id, u.out.value.id]);
  }

  /** The heap `withStatus` gives keeps the state and makes its status `status`. */
  lemma WithStatusMade(t: Table, h: Node, status: int)
    requires Sound(t) && IsHeap(h) && HeapState(h) < t.next && status < t.next
    ensures var r := WithStatus(t, h, status);
      Made(t, r) && IsHeap(r.out.value) && HeapState(r.out.value) == HeapState(h) && HeapStatus(r.out.value) == status
  {
    HeapMade(t, HeapState(h), status);
  }

  /** With no exception raised yet the status becomes `phi(cond, exc, unit)`. */
  lemma ExceptionUnitStatus(t: Table, c: Context, cond: Node, exc: Node)
    requires Sound(t) && Fits(t, c) && cond.id < t.next && exc.id < t.next
    requires HeapStatus(c.heap) == UnitOf(t).out.value.id
    ensures var r := WithExceptionCondition(t, c, cond, exc);
      r.out.Returns? && Grown(t, r.table) && IsHeap(r.out.value.heap)
      && HeapState(r.out.value.heap) == HeapState(c.heap)
      && HeapStatus(r.out.value.heap) == Raised(r.table, cond.id, exc.id)
      && r.out.value == WithHeap(WithExitCondition(c, cond), r.out.value.heap)
  {
    OpNodeMade(t, "unit", []);
    var u := UnitOf(t);
    RaisePhiMade(u.table, cond, exc);
    var s := RaisePhi(u.table, cond, exc);
    WithStatusMade(s.table, c.heap, s.out.value.id);
  }

  /** `isunit?(status)` then the raised status then their `phi` with the old status. */
  lemma PendingPhiMade(t: Table, status: int, cond: Node, exc: Node)
    requires Sound(t) && status < t.next && cond.id < t.next && exc.id < t.next
    ensures var iu := IsUnitOf(t, status);
      Made(t, iu) && iu.out.value.id == CachedId(iu.table, "isunit?", [status])
      && var inner := RaisePhi(iu.table, cond, exc);
      Made(iu.table, inner)
      && var outer := PhiOf(inner.table, iu.out.value.id, inner.out.value.id, status);
      Made(inner.table, outer)
      && outer.out.value.id
         == CachedId(outer.table, "phi", [CachedId(outer.table, "isunit?", [status]), Raised(outer.table, cond.id, exc.id), status])
      && (forall u :: Grown(outer.table, u) ==>
            CachedId(u, "phi", [CachedId(u, "isunit?", [status]), Raised(u, cond.id, exc.id), status]) == outer.out.value.id)
  {
    OpNodeMade(t, "isunit?", [status]);
    var iu := IsUnitOf(t, status);
    RaisePhiMade(iu.table, cond, exc);
    var inner := RaisePhi(iu.table, cond, exc);
    BelowThree(inner.table, iu.out.value.id, inner.out.value.id, status);
    OpNodeMade(inner.table, "phi", [iu.out.value.id, inner.out.value.id, status]);
  }

  /** With an exception possibly raised already, the old status wins whenever it is not `unit`. */
  lemma ExceptionPendingStatus(t: Table, c: Context, cond: Node, exc: Node)
    requires Sound(t) && Fits(t, c) && cond.id < t.next && exc.id < t.next
    requires HeapStatus(c.heap) != UnitOf(t).out.value.id
    ensures var r := WithExceptionCondition(t, c, cond, exc);
      var status := HeapStatus(c.heap);
      r.out.Returns? && Grown(t, r.table) && IsHeap(r.out.value.heap)
      && HeapState(r.out.value.heap) == HeapState(c.heap)
      && HeapStatus(r.out.value.heap)
         == CachedId(r.table, "phi", [CachedId(r.table, "isunit?", [status]), Raised(r.table, cond.id, exc.id), status])
      && r.out.value == WithHeap(WithExitCondition(c, cond), r.out.value.heap)
  {
    var status := HeapStatus(c.heap);
    OpNodeMade(t, "unit", []);
    var u := UnitOf(t);
    PendingPhiMade(u.table, status, cond, exc);
    var iu := IsUnitOf(u.table, status);
    var inner := RaisePhi(iu.table, cond, exc);
    var outer := PhiOf(inner.table, iu.out.value.id, inner.out.value.id, status);
    WithStatusMade(outer.table, c.heap, outer.out.value.id);
  }

  // ------------------------------------------------------------ combine

  /** The keys of `ls1` that `ls2` also has, in `ls1`'s order. */
  function SharedKeys(ls1: Locals, ls2: Locals): (r: seq<string>)
    ensures forall k :: k in r <==> k in Keys(ls1) && k in Keys(ls2)
  {
    if ls1 == [] then []
    else
      assert Keys(ls1) == [ls1[0].0] + Keys(ls1[1..]);
      var rest := SharedKeys(ls1[1..], ls2);
      if ls1[0].0 in Keys(ls2) then [ls1[0].0] + rest else rest
  }

  /** `initMap` over the shared keys with `p -> phi(guard, c1.getLocalVar(p), c2.getLocalVar(p))`. */
  function PhiLocals(t: Table, guard: int, keys: seq<string>, c1: Context, c2: Context): Step<Locals>
    decreases |keys|
  {
    if keys == [] then Step(t, Returns([]))
    else
      var a := GetLocalVar(t, c1, keys[0]);
      match a.out
      case Throws(e) => Step(a.table, Throws(e))
      case Returns(v1) =>
        var b := GetLocalVar(a.table, c2, keys[0]);
        match b.out
        case Throws(e) => Step(b.table, Throws(e))
        case Returns(v2) =>
          var p := PhiOf(b.table, guard, v1.id, v2.id);
          match p.out
          case Throws(e) => Step(p.table, Throws(e))
          case Returns(phi) =>
            var rest := PhiLocals(p.table, guard, keys[1..], c1, c2);
            match rest.out
            case Throws(e) => Step(rest.table, Throws(e))
            case Returns(ls) => Step(rest.table, Returns([(keys[0], phi)] + ls))
  }

  /**
   * `combine(c1, c2, guard)`: the heap's state and status are each
   * `phi`'d under the guard, the exit conditions are united, two return
   * nodes throw `InvalidReturn` and otherwise the one present is kept,
   * and the locals both sides have become `phi(guard, c1[k], c2[k])`.
   * The keys are visited in `c1`'s order where Java uses a `HashSet`.
   */
  function Combine(t: Table, c1: Context, c2: Context, guard: int): (r: Step<Context>)
    requires IsHeap(c1.heap) && IsHeap(c2.heap)
    ensures r.out.Returns? ==> IsHeap(r.out.value.heap)
    ensures r.out.Returns? ==> r.out.value.fieldNames == c1.fieldNames && r.out.value.typeMap == c1.typeMap
  {
    var domain := SharedKeys(c1.locals, c2.locals);
    var h := CombinedHeap(t, c1.heap, c2.heap, guard);
    match h.out
    case Throws(e) => Step(h.table, Throws(e))
    case Returns(heap) =>
      var exits := AddAll(AddAll([], c1.exitConditions), c2.exitConditions);
      if c1.returnNode.Some? && c2.returnNode.Some? then Step(h.table, Throws(Throw(Runtime, "InvalidReturn")))
      else
        var rn := if c1.returnNode.Some? then c1.returnNode else c2.returnNode;
        var ls := PhiLocals(h.table, guard, domain, c1, c2);
        match ls.out
        case Throws(e) => Step(ls.table, Throws(e))
        case Returns(locals) => Step(ls.table, Returns(Context(locals, c1.fieldNames, heap, exits, rn, c1.typeMap)))
  }

  /** The first lines of `combine`: `heap(phi(guard, state1, state2), phi(guard, status1, status2))`. */
  function CombinedHeap(t: Table, h1: Node, h2: Node, guard: int): (r: Step<Node>)
    requires IsHeap(h1) && IsHeap(h2)
    ensures r.out.Returns? ==> IsHeap(r.out.value)
  {
    var ps := PhiOf(t, guard, HeapState(h1), HeapState(h2));
    match ps.out
    case Throws(e) => Step(ps.table, Throws(e))
    case Returns(state) =>
      var pt := PhiOf(ps.table, guard, HeapStatus(h1), HeapStatus(h2));
      match pt.out
      case Throws(e) => Step(pt.table, Throws(e))
      case Returns(status) => HeapOf(pt.table, Some(state.id), Some(status.id))
  }

  /** The combined heap's state and status are the guarded `phi`s of the two sides', and stay so as the table grows. */
  lemma CombinedHeapMade(t: Table, c1: Context, c2: Context, guard: int)
    requires Sound(t) && Fits(t, c1) && Fits(t, c2) && guard < t.next
    ensures var h := CombinedHeap(t, c1.heap, c2.heap, guard);
      Made(t, h) && IsHeap(h.out.value) && Fits(h.table, c1) && Fits(h.table, c2)
      && (forall u :: Grown(h.table, u) ==>
            HeapState(h.out.value) == CachedId(u, "phi", [guard, HeapState(c1.heap), HeapState(c2.heap)])
            && HeapStatus(h.out.value) == CachedId(u, "phi", [guard, HeapStatus(c1.heap), HeapStatus(c2.heap)]))
  {
    var s1 := [guard, HeapState(c1.heap), HeapState(c2.heap)];
    var s2 := [guard, HeapStatus(c1.heap), HeapStatus(c2.heap)];
    BelowThree(t, guard, HeapState(c1.heap), HeapState(c2.heap));
    OpNodeMade(t, "phi", s1);
    var ps := PhiOf(t, guard, HeapState(c1.heap), HeapState(c2.heap));
    BelowThree(ps.table, guard, HeapStatus(c1.heap), HeapStatus(c2.heap));
    OpNodeMade(ps.table, "phi", s2);
    var pt := PhiOf(ps.table, guard, HeapStatus(c1.heap), HeapStatus(c2.heap));
    HeapMade(pt.table, ps.out.value.id, pt.out.value.id);
    var h := HeapOf(pt.table, Some(ps.out.value.id), Some(pt.out.value.id));
    FitsGrown(t, h.table, c1);
    FitsGrown(t, h.table, c2);
  }

  /** One key of `initMap`: both sides' locals are looked up and joined under the guard. */
  lemma PhiStep(t: Table, guard: int, k: string, c1: Context, c2: Context)
    requires Sound(t) && Fits(t, c1) && Fits(t, c2) && guard < t.next
    requires k in Keys(c1.locals) && k in Keys(c2.locals)
    ensures var a := GetLocalVar(t, c1, k);
      var b := GetLocalVar(a.table, c2, k);
      a == Step(t, Returns(Lookup(c1.locals, k).value)) && b == Step(t, Returns(Lookup(c2.locals, k).value))
      && var p := PhiOf(t, guard, Lookup(c1.locals, k).value.id, Lookup(c2.locals, k).value.id);
      Made(t, p) && Built(p.out.value, "phi", [guard, Lookup(c1.locals, k).value.id, Lookup(c2.locals, k).value.id])
      && Fits(p.table, c1) && Fits(p.table, c2)
  {
    LookupBelow(t, c1, k);
    LookupBelow(t, c2, k);
    var v1 := Lookup(c1.locals, k).value;
    var v2 := Lookup(c2.locals, k).value;
    BelowThree(t, guard, v1.id, v2.id);
    OpNodeMade(t, "phi", [guard, v1.id, v2.id]);
    var p := PhiOf(t, guard, v1.id, v2.id);
    FitsGrown(t, p.table, c1);
    FitsGrown(t, p.table, c2);
  }

  /** Each entry's value is `phi(guard, c1[k], c2[k])` for its key `k`, which both sides have. */
  predicate PhiEntry(e: (string, Node), guard: int, c1: Context, c2: Context) {
    Lookup(c1.locals, e.0).Some? && Lookup(c2.locals, e.0).Some?
    && Built(e.1, "phi", [guard, Lookup(c1.locals, e.0).value.id, Lookup(c2.locals, e.0).value.id])
  }

  predicate PhiEntries(ls: Locals, guard: int, c1: Context, c2: Context) {
    forall i :: 0 <= i < |ls| ==> PhiEntry(ls[i], guard, c1, c2)
  }

  lemma PhiEntriesCons(e: (string, Node), rest: Locals, guard: int, c1: Context, c2: Context)
    requires PhiEntry(e, guard, c1, c2) && PhiEntries(rest, guard, c1, c2)
    ensures PhiEntries([e] + rest, guard, c1, c2)
  {
    var ls := [e] + rest;
    forall i | 0 <= i < |ls| ensures PhiEntry(ls[i], guard, c1, c2) {
      if i > 0 {
        assert ls[i] == rest[i - 1];
      }
    }
  }

  lemma HeadTail<T>(s: seq<T>)
    requires s != []
    ensures s == [s[0]] + s[1..] && forall x :: x in s[1..] ==> x in s
  {
  }

  /** Each shared key maps to `phi(guard, c1[k], c2[k])`, and only shared keys appear, in the order given. */
  lemma {:induction false} PhiLocalsMerge(t: Table, guard: int, keys: seq<string>, c1: Context, c2: Context)
    requires Sound(t) && Fits(t, c1) && Fits(t, c2) && guard < t.next
    requires forall k :: k in keys ==> k in Keys(c1.locals) && k in Keys(c2.locals)
    ensures var r := PhiLocals(t, guard, keys, c1, c2);
      r.out.Returns? && Grown(t, r.table) && Keys(r.out.value) == keys && PhiEntries(r.out.value, guard, c1, c2)
    decreases |keys|
  {
    if keys != [] {
      var k := keys[0];
      PhiStep(t, guard, k, c1, c2);
      var p := PhiOf(t, guard, Lookup(c1.locals, k).value.id, Lookup(c2.locals, k).value.id);
      HeadTail(keys);
      PhiLocalsMerge(p.table, guard, keys[1..], c1, c2);
      var rest := PhiLocals(p.table, guard, keys[1..], c1, c2);
      GrownTrans(t, p.table, rest.table);
      Cons((k, p.out.value), rest.out.value);
      PhiEntriesCons((k, p.out.value), rest.out.value, guard, c1, c2);
    }
  }

  /** The union of exit conditions: everything in it came from one side, and both sides are in it. */
  lemma UnionExits(s1: seq<Node>, s2: seq<Node>)
    ensures var u := AddAll(AddAll([], s1), s2);
      (forall y :: y in u ==> y in s1 || y in s2)
      && (forall i :: 0 <= i < |s1| ==> Has(u, s1[i]))
      && (forall i :: 0 <= i < |s2| ==> Has(u, s2[i]))
  {
  }

  /**
   * `combine` over contexts whose nodes are in the table: the result maps
   * exactly the shared keys, each to `phi(guard, c1[k], c2[k])`; its heap
   * is the `Heap` of `phi(guard, state1, state2)` and
   * `phi(guard, status1, status2)`; it keeps c1's fields and type map.
   */
  lemma CombineMerges(t: Table, c1: Context, c2: Context, guard: int)
    requires Sound(t) && Fits(t, c1) && Fits(t, c2) && guard < t.next
    requires c1.returnNode.None? || c2.returnNode.None?
    ensures var r := Combine(t, c1, c2, guard);
      r.out.Returns? && Grown(t, r.table)
      && (forall k :: k in Keys(r.out.value.locals) <==> k in Keys(c1.locals) && k in Keys(c2.locals))
      && PhiEntries(r.out.value.locals, guard, c1, c2)
      && IsHeap(r.out.value.heap)
      && HeapState(r.out.value.heap) == CachedId(r.table, "phi", [guard, HeapState(c1.heap), HeapState(c2.heap)])
      && HeapStatus(r.out.value.heap) == CachedId(r.table, "phi", [guard, HeapStatus(c1.heap), HeapStatus(c2.heap)])
      && (forall y :: y in r.out.value.exitConditions ==> y in c1.exitConditions || y in c2.exitConditions)
      && (forall i :: 0 <= i < |c1.exitConditions| ==> Has(r.out.value.exitConditions, c1.exitConditions[i]))
      && (forall i :: 0 <= i < |c2.exitConditions| ==> Has(r.out.value.exitConditions, c2.exitConditions[i]))
      && r.out.value.returnNode == (if c1.returnNode.Some? then c1.returnNode else c2.returnNode)
      && r.out.value.fieldNames == c1.fieldNames && r.out.value.typeMap == c1.typeMap
  {
    CombinedHeapMade(t, c1, c2, guard);
    var h := CombinedHeap(t, c1.heap, c2.heap, guard);
    var domain := SharedKeys(c1.locals, c2.locals);
    PhiLocalsMerge(h.table, guard, domain, c1, c2);
    GrownTrans(t, h.table, PhiLocals(h.table, guard, domain, c1, c2).table);
    UnionExits(c1.exitConditions, c2.exitConditions);
  }

  /** Two return nodes cannot be merged: `combine` throws `InvalidReturn`. */
  lemma CombineInvalidReturn(t: Table, c1: Context, c2: Context, guard: int)
    requires Sound(t) && Fits(t, c1) && Fits(t, c2) && guard < t.next
    requires c1.returnNode.Some? && c2.returnNode.Some?
    ensures Combine(t, c1, c2, guard).out == Throws(Throw(Runtime, "InvalidReturn"))
  {
    CombinedHeapMade(t, c1, c2, guard);
  }

  // ------------------------------------------------------------ assignment and results

  /**
   * `performAssignLocalVar(key, val)`: a plain `setLocalVar` without exit
   * conditions; otherwise the stored value is
   * `phi(exitConditions(...), getLocalVar(key), val)`, so the variable keeps
   * its old value on paths that have already left the method.
   */
  function PerformAssignLocalVar(t: Table, c: Context, key: string, val: Node): (r: Step<Context>)
    ensures c.exitConditions == [] ==> r == Step(t, SetLocalVar(c, Some(key), Some(val)))
    ensures r.out.Returns? ==> r.out.value == c.(locals := r.out.value.locals)
  {
    if c.exitConditions == [] then Step(t, SetLocalVar(c, Some(key), Some(val)))
    else
      var e := ExitConditionsOf(t, c.exitConditions);
      match e.out
      case Throws(x) => Step(e.table, Throws(x))
      case Returns(exits) =>
        var prior := GetLocalVar(e.table, c, key);
        match prior.out
        case Throws(x) => Step(prior.table, Throws(x))
        case Returns(oldVal) =>
          var p := PhiOf(prior.table, exits.id, oldVal.id, val.id);
          match p.out
          case Throws(x) => Step(p.table, Throws(x))
          case Returns(phi) => Step(p.table, SetLocalVar(c, Some(key), Some(phi)))
  }

  /** With exit conditions the stored value is a `phi` choosing the old value over `val`; other keys keep theirs. */
  lemma AssignUnderExits(t: Table, c: Context, key: string, val: Node)
    requires Sound(t) && Fits(t, c) && val.id < t.next && c.exitConditions != []
    ensures var r := PerformAssignLocalVar(t, c, key, val);
      r.out.Returns? ==>
        var v := Lookup(r.out.value.locals, key);
        v.Some? && v.value.shape.OpNode? && v.value.shape.op == "phi"
        && |v.value.shape.children| == 3 && v.value.shape.children[2] == val.id
        && (forall k :: k != key ==> Lookup(r.out.value.locals, k) == Lookup(c.locals, k))
  {
    var e := ExitConditionsOf(t, c.exitConditions);
    if e.out.Returns? {
      ExitConditionsGrown(t, c.exitConditions);
      FitsGrown(t, e.table, c);
      GetLocalVarResolves(e.table, c, key);
      var prior := GetLocalVar(e.table, c, key);
      if prior.out.Returns? {
        OpNodeBuilt(prior.table, "phi", [e.out.value.id, prior.out.value.id, val.id]);
      }
    }
  }

  /** The type annotation of a parameter: its entry in the type map, or `nil()`. */
  function TypeAnnotation(t: Table, typeMap: map<string, Node>, param: string): Step<Node> {
    if param in typeMap then Step(t, Returns(typeMap[param])) else NilOf(t)
  }

  /** The builder entries of `initWithParams`: `(p, var(p, annotation(p)))` for each parameter in order. */
  function ParamVars(t: Table, params: seq<string>, typeMap: map<string, Node>): Step<Locals>
    decreases |params|
  {
    if params == [] then Step(t, Returns([]))
    else
      var tp := TypeAnnotation(t, typeMap, params[0]);
      match tp.out
      case Throws(e) => Step(tp.table, Throws(e))
      case Returns(annot) =>
        var v := VarOf(tp.table, params[0], annot.id);
        match v.out
        case Throws(e) => Step(v.table, Throws(e))
        case Returns(n) =>
          var rest := ParamVars(v.table, params[1..], typeMap);
          match rest.out
          case Throws(e) => Step(rest.table, Throws(e))
          case Returns(ls) => Step(rest.table, Returns([(params[0], n)] + ls))
  }

  /**
   * `initWithParams(fieldNames, params, typeMap)`: each parameter bound to
   * `var(p, type)`, the initial heap, no exit conditions and no return
   * node.  A parameter named twice makes `ImmutableMap.Builder.build`
   * throw, before the heap is built.
   */
  function InitWithParams(t: Table, fieldNames: set<string>, params: seq<string>, typeMap: map<string, Node>): Step<Context> {
    var vs := ParamVars(t, params, typeMap);
    match vs.out
    case Throws(e) => Step(vs.table, Throws(e))
    case Returns(ls) =>
      if !UniqueKeys(ls) then Step(vs.table, Throws(Exception(IllegalArgument, None)))
      else
        var h := InitialHeapOf(vs.table);
        match h.out
        case Throws(e) => Step(h.table, Throws(e))
        case Returns(heap) => Step(h.table, Returns(Context(ls, fieldNames, heap, [], None, typeMap)))
  }

  /** A parameter's value: `(var p type)`, with the type map's node as its type when there is one. */
  predicate ParamVar(e: (string, Node), typeMap: map<string, Node>) {
    e.1.shape.OpNode? && e.1.shape.op == "var" && |e.1.shape.children| == 2
    && (e.0 in typeMap ==> e.1.shape.children[1] == typeMap[e.0].id)
  }

  predicate TypesBelow(t: Table, typeMap: map<string, Node>) {
    forall k :: k in typeMap ==> typeMap[k].id < t.next
  }

  lemma TypeAnnotationMade(t: Table, typeMap: map<string, Node>, param: string)
    requires Sound(t) && TypesBelow(t, typeMap)
    ensures Made(t, TypeAnnotation(t, typeMap, param))
  {
    if param !in typeMap {
      OpNodeMade(t, "nil", []);
    }
  }

  lemma {:induction false} ParamVarsBind(t: Table, params: seq<string>, typeMap: map<string, Node>)
    requires Sound(t) && TypesBelow(t, typeMap)
    ensures var r := ParamVars(t, params, typeMap);
      r.out.Returns? && Grown(t, r.table) && Keys(r.out.value) == params
      && BoundParams(r.out.value, typeMap, r.table.next)
    decreases |params|
  {
    if params != [] {
      TypeAnnotationMade(t, typeMap, params[0]);
      var tp := TypeAnnotation(t, typeMap, params[0]);
      OverSymbolMade(tp.table, "var", params[0], [tp.out.value.id]);
      var v := VarOf(tp.table, params[0], tp.out.value.id);
      ParamVarsBind(v.table, params[1..], typeMap);
      var rest := ParamVars(v.table, params[1..], typeMap);
      GrownTrans(t, v.table, rest.table);
      HeadTail(params);
      ParamVarsCons((params[0], v.out.value), rest.out.value, typeMap, rest.table.next);
    }
  }

  /** Every entry is a parameter's `var` node older than `next`. */
  predicate BoundParams(ls: Locals, typeMap: map<string, Node>, next: int) {
    forall i :: 0 <= i < |ls| ==> ParamVar(ls[i], typeMap) && ls[i].1.id < next
  }

  lemma ParamVarsCons(e: (string, Node), rest: Locals, typeMap: map<string, Node>, next: int)
    requires ParamVar(e, typeMap) && e.1.id < next && BoundParams(rest, typeMap, next)
    ensures BoundParams([e] + rest, typeMap, next)
  {
    var ls := [e] + rest;
    forall i | 0 <= i < |ls| ensures ParamVar(ls[i], typeMap) && ls[i].1.id < next {
      if i > 0 {
        assert ls[i] == rest[i - 1];
      }
    }
  }

  /**
   * The entry context of a method: every parameter, in order, is bound to
   * its `var` node; the heap is a `Heap`; there are no exit conditions and
   * no return node; the field names and type map are the ones given.
   */
  lemma InitWithParamsBinds(t: Table, fieldNames: set<string>, params: seq<string>, typeMap: map<string, Node>)
    requires Sound(t) && TypesBelow(t, typeMap)
    requires forall i, j :: 0 <= i < j < |params| ==> params[i] != params[j]
    ensures var r := InitWithParams(t, fieldNames, params, typeMap);
      r.out.Returns? && Grown(t, r.table) && Fits(r.table, r.out.value)
      && Keys(r.out.value.locals) == params
      && (forall i :: 0 <= i < |params| ==> ParamVar(r.out.value.locals[i], typeMap))
      && r.out.value.exitConditions == [] && r.out.value.returnNode == None
      && r.out.value.fieldNames == fieldNames && r.out.value.typeMap == typeMap
  {
    ParamVarsBind(t, params, typeMap);
    var vs := ParamVars(t, params, typeMap);
    assert forall i :: 0 <= i < |params| ==> vs.out.value[i].0 == params[i];
    DistinctUnique(vs.out.value);
    InitialHeapMade(vs.table);
    var h := InitialHeapOf(vs.table);
    GrownTrans(t, vs.table, h.table);
  }

  /** Distinct keys by index are unique keys. */
  lemma {:induction false} DistinctUnique(ls: Locals)
    requires forall i, j :: 0 <= i < j < |ls| ==> ls[i].0 != ls[j].0
    ensures UniqueKeys(ls)
  {
    if ls != [] {
      DistinctUnique(ls[1..]);
    }
  }

  /** A parameter named twice: `build` throws IllegalArgumentException. */
  lemma InitWithParamsDuplicate(t: Table, fieldNames: set<string>, params: seq<string>, typeMap: map<string, Node>, i: nat, j: nat)
    requires Sound(t) && TypesBelow(t, typeMap)
    requires i < j < |params| && params[i] == params[j]
    ensures var r := InitWithParams(t, fieldNames, params, typeMap);
      r.out.Throws? && r.out.exc.kind == IllegalArgument
  {
    ParamVarsBind(t, params, typeMap);
    var vs := ParamVars(t, params, typeMap);
    assert vs.out.value[i].0 == vs.out.value[j].0;
    if UniqueKeys(vs.out.value) {
      UniqueDistinct(vs.out.value, i, j);
    }
    assert !UniqueKeys(vs.out.value);
  }

  lemma {:induction false} UniqueDistinct(ls: Locals, i: nat, j: nat)
    requires UniqueKeys(ls) && i < j < |ls|
    ensures ls[i].0 != ls[j].0
  {
    if i > 0 {
      UniqueDistinct(ls[1..], i - 1, j - 1);
    } else {
      assert ls[j].0 == Keys(ls[1..])[j - 1];
    }
  }

  /** `asPeg()`: `returnNode(rn or unit, heap)`. */
  function AsPeg(t: Table, c: Context): Step<Node> {
    match c.returnNode
    case Some(rn) => ReturnNodeOf(t, rn.id, c.heap.id)
    case None =>
      var u := UnitOf(t);
      match u.out
      case Throws(e) => Step(u.table, Throws(e))
      case Returns(unit) => ReturnNodeOf(u.table, unit.id, c.heap.id)
  }

  /** The method result pairs the return value, or `unit` when there is none, with the final heap. */
  lemma AsPegPairs(t: Table, c: Context)
    requires Sound(t) && Fits(t, c)
    ensures var r := AsPeg(t, c);
      Made(t, r)
      && (c.returnNode.Some? ==> Built(r.out.value, "return-node", [c.returnNode.value.id, c.heap.id]))
      && (c.returnNode.None? ==> Built(r.out.value, "return-node", [CachedId(r.table, "unit", []), c.heap.id]))
  {
    if c.returnNode.Some? {
      OpNodeMade(t, "return-node", [c.returnNode.value.id, c.heap.id]);
    } else {
      OpNodeMade(t, "unit", []);
      var u := UnitOf(t);
      OpNodeMade(u.table, "return-node", [u.out.value.id, c.heap.id]);
    }
  }

  /**
   * The entries `asPegNode` conses, head first: the locals sorted by name.
   * (`nilContext` and `consContext`, which would build the nodes, are not
   * defined in `PegNode.java`.)
   */
  function SortedLocals(c: Context): (r: Locals)
    requires UniqueKeys(c.locals)
    ensures JavaCollections.Sorted(Keys(r), JavaCollections.StringLe())
    ensures multiset(Keys(r)) == multiset(Keys(c.locals))
    ensures forall i :: 0 <= i < |r| ==> Lookup(c.locals, r[i].0) == Some(r[i].1)
  {
    JavaCollections.StringOrderTotal();
    var names := JavaCollections.Sort(Keys(c.locals), JavaCollections.StringLe());
    SortedNamesKept(c.locals, names);
    EntriesOf(c.locals, names)
  }

  /** Each name paired with what `ls` maps it to. */
  function EntriesOf(ls: Locals, names: seq<string>): (r: Locals)
    requires forall i :: 0 <= i < |names| ==> names[i] in Keys(ls)
    ensures Keys(r) == names
    ensures forall i :: 0 <= i < |r| ==> Lookup(ls, r[i].0) == Some(r[i].1)
  {
    var r := seq(|names|, i requires 0 <= i < |names| => (names[i], Lookup(ls, names[i]).value));
    assert Keys(r) == names;
    r
  }

  lemma SortedNamesKept(ls: Locals, names: seq<string>)
    requires multiset(names) == multiset(Keys(ls))
    ensures forall i :: 0 <= i < |names| ==> names[i] in Keys(ls)
  {
    forall i | 0 <= i < |names| ensures names[i] in Keys(ls) {
      assert names[i] in multiset(Keys(ls));
    }
  }
}
