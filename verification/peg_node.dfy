/**
 * The serializer's global, hash-consed PEG node table
 * (serializer/src/main/java/serializer/peg/PegNode.java).  The Java class
 * keeps a static id counter and three static lookup maps; here they are
 * one immutable `Table` value that every node-making call takes and
 * returns, together with what the call returned or threw.  Object
 * identity of nodes is their id.
 */
module PegNodes {
  import opened Wrappers
  import opened Primitives
  import opened Decimal
  import opened JavaLang
  import JavaCollections
  import Text

  /** The Java class an operator node was constructed as: `OpNode`, `ThetaNode` or `Heap`. */
  datatype OpClass = PlainOp | ThetaOp | HeapOp

  /** What a node holds besides its id. */
  datatype Shape =
    | IntLit(value: i32)
    | BoolLit(flag: bool)
    | StringLit(text: string)
    | Blank
    | OpNode(op: string, children: seq<int>, cls: OpClass)

  datatype Node = Node(id: nat, shape: Shape)

  /** The keys of `litLookup`: boxed `Integer`, `Boolean` and `String` values never collide. */
  datatype LitKey = IntKey(i: i32) | BoolKey(b: bool) | StringKey(s: string)

  function KeyOf(s: Shape): Option<LitKey> {
    match s
    case IntLit(v) => Some(IntKey(v))
    case BoolLit(b) => Some(BoolKey(b))
    case StringLit(x) => Some(StringKey(x))
    case _ => None
  }

  /** `_id`, `idLookup`, `symbolLookup` (flattened to one map on (symbol, children)) and `litLookup`. */
  datatype Table = Table(
    next: nat,
    ids: map<int, Node>,
    symbols: map<(string, seq<int>), Node>,
    lits: map<LitKey, Node>)

  /**
   * The table after a call, and what the call returned or threw.  With
   * `:-` a thrown exception is passed on with its table, and a returned
   * value is handed over together with the table to continue from.
   */
  datatype Step<+T> = Step(table: Table, out: Outcome<T>) {
    predicate IsFailure() { out.Throws? }

    function PropagateFailure<U>(): Step<U>
      requires out.Throws?
    {
      Step(table, Throws(out.exc))
    }

    function Extract(): (Table, T)
      requires out.Returns?
    {
      (table, out.value)
    }
  }

  function ChildrenOf(s: Shape): seq<int> {
    if s.OpNode? then s.children else []
  }

  /** Every child id is below the node's own id: the check the `PegNode` constructor makes. */
  predicate ChildrenBelow(n: Node) {
    forall i :: 0 <= i < |ChildrenOf(n.shape)| ==> ChildrenOf(n.shape)[i] < n.id
  }

  /** The table invariant every operation keeps: every stored node is older than the counter, has children below it, and sits under its own key. */
  ghost predicate Valid(t: Table) {
    (forall k :: k in t.ids ==> t.ids[k].id < t.next && ChildrenBelow(t.ids[k]))
    && (forall key :: key in t.symbols ==>
          t.symbols[key].id < t.next && ChildrenBelow(t.symbols[key])
          && t.symbols[key].shape.OpNode?
          && t.symbols[key].shape.op == key.0 && t.symbols[key].shape.children == key.1)
    && (forall key :: key in t.lits ==> t.lits[key].id < t.next && KeyOf(t.lits[key].shape) == Some(key))
  }

  /**
   * A table no `replace` or `clearIdLookupTable` has touched: `idLookup`
   * maps each id to the node with that id, and the two caches hold
   * exactly the operator and literal nodes of `idLookup`.
   */
  ghost predicate Consistent(t: Table) {
    Valid(t) && SelfKeyed(t) && CachesStored(t) && AllCached(t)
  }

  /** `idLookup` maps each id to the node with that id. */
  ghost predicate SelfKeyed(t: Table) {
    forall k :: k in t.ids ==> t.ids[k].id == k
  }

  /** Every cached node is in `idLookup`. */
  ghost predicate CachesStored(t: Table) {
    (forall key :: key in t.symbols ==> Holds(t, t.symbols[key]))
    && (forall key :: key in t.lits ==> Holds(t, t.lits[key]))
  }

  /** Every operator and literal node of `idLookup` is the one its cache holds. */
  ghost predicate AllCached(t: Table) {
    (forall k :: k in t.ids && t.ids[k].shape.OpNode? ==>
       (t.ids[k].shape.op, t.ids[k].shape.children) in t.symbols
       && t.symbols[(t.ids[k].shape.op, t.ids[k].shape.children)] == t.ids[k])
    && (forall k :: k in t.ids && KeyOf(t.ids[k].shape).Some? ==>
          KeyOf(t.ids[k].shape).value in t.lits && t.lits[KeyOf(t.ids[k].shape).value] == t.ids[k])
  }

  /** A node new to every map: its id is the counter and its keys are not cached yet. */
  ghost predicate FreshFor(t: Table, n: Node) {
    n.id == t.next && n.id !in t.ids
    && (n.shape.OpNode? ==> (n.shape.op, n.shape.children) !in t.symbols)
    && (KeyOf(n.shape).Some? ==> KeyOf(n.shape).value !in t.lits)
  }

  /** `t` is `u` grown: nothing stored in `u` has been changed or dropped. */
  ghost predicate Extends(u: Table, t: Table) {
    u.next <= t.next
    && (forall k :: k in u.ids ==> k in t.ids && t.ids[k] == u.ids[k])
    && (forall key :: key in u.symbols ==> key in t.symbols && t.symbols[key] == u.symbols[key])
    && (forall key :: key in u.lits ==> key in t.lits && t.lits[key] == u.lits[key])
  }

  /** `t` holds node `n` under its id. */
  ghost predicate Holds(t: Table, n: Node) {
    n.id in t.ids && t.ids[n.id] == n
  }

  /** `clear()`: counter back to 0 and the three maps emptied. */
  function Clear(): (t: Table)
    ensures Consistent(t)
    ensures forall k: int :: k !in t.ids
  {
    Table(0, map[], map[], map[])
  }

  /** `idLookup(id)`. */
  function IdLookup(t: Table, id: int): (r: Option<Node>)
    ensures Consistent(t) ==> (r.Some? <==> (id in t.ids)) && (r.Some? ==> r.value.id == id)
  {
    if id in t.ids then Some(t.ids[id]) else None
  }

  /** The first child id that is not below `id`, the one the constructor's message names. */
  function FirstBadChild(cs: seq<int>, id: nat): (r: Option<int>)
    ensures r.None? <==> forall i :: 0 <= i < |cs| ==> cs[i] < id
    ensures r.Some? ==> r.value in cs && r.value >= id
  {
    if cs == [] then None
    else if cs[0] >= id then Some(cs[0])
    else FirstBadChild(cs[1..], id)
  }

  /** The table once node `n` has been entered in `idLookup` and in the cache of its kind. */
  function Enter(t: Table, n: Node): Table {
    Table(
      n.id + 1,
      t.ids[n.id := n],
      if n.shape.OpNode? then t.symbols[(n.shape.op, n.shape.children) := n] else t.symbols,
      if KeyOf(n.shape).Some? then t.lits[KeyOf(n.shape).value := n] else t.lits)
  }

  function YoungChildMessage(id: nat, child: int): string {
    "PegNode with id " + IntToString(id) + " has child with id " + IntToString(child)
    + ": children must have ids that are strictly less than that of their parents"
  }

  /**
   * The `PegNode` constructor: it takes the next id (the counter advances
   * even when it then throws), rejects a child id at or above its own id,
   * and enters the node in `idLookup` and in the cache of its kind.
   */
  function NewNode(t: Table, shape: Shape): (r: Step<Node>)
    ensures r.table.next == t.next + 1
    ensures r.out.Throws? <==> FirstBadChild(ChildrenOf(shape), t.next).Some?
    ensures r.out.Throws? ==> r.table == t.(next := t.next + 1) && r.out.exc.kind == IllegalState
    ensures r.out.Returns? ==> r.out.value == Node(t.next, shape) && r.table == Enter(t, r.out.value)
  {
    var id := t.next;
    match FirstBadChild(ChildrenOf(shape), id)
    case Some(c) =>
      Step(t.(next := id + 1), Throws(Throw(IllegalState, YoungChildMessage(id, c))))
    case None =>
      var n := Node(id, shape);
      Step(Enter(t, n), Returns(n))
  }

  /**
   * `opNode(sym, children...)`: the cached node for (sym, children) when
   * there is one, which costs no id; otherwise a new `OpNode`.
   */
  function OpNodeOf(t: Table, sym: string, children: seq<int>): (r: Step<Node>)
    ensures (sym, children) in t.symbols ==> r == Step(t, Returns(t.symbols[(sym, children)]))
    ensures (sym, children) !in t.symbols ==> r == NewNode(t, OpNode(sym, children, PlainOp))
  {
    if (sym, children) in t.symbols then Step(t, Returns(t.symbols[(sym, children)]))
    else NewNode(t, OpNode(sym, children, PlainOp))
  }

  /** The node for a literal value: the cached one, or a new one. */
  function LiteralOf(t: Table, shape: Shape): (r: Step<Node>)
    requires KeyOf(shape).Some?
    ensures KeyOf(shape).value in t.lits ==> r == Step(t, Returns(t.lits[KeyOf(shape).value]))
    ensures KeyOf(shape).value !in t.lits ==> r.table.next == t.next + 1 && r.out == Returns(Node(t.next, shape))
  {
    if KeyOf(shape).value in t.lits then Step(t, Returns(t.lits[KeyOf(shape).value]))
    else
      assert FirstBadChild(ChildrenOf(shape), t.next) == None;
      NewNode(t, shape)
  }

  /** `intLit(n)`. */
  function IntLitOf(t: Table, v: i32): Step<Node> {
    LiteralOf(t, IntLit(v))
  }

  /** `boolLit(b)`. */
  function BoolLitOf(t: Table, b: bool): Step<Node> {
    LiteralOf(t, BoolLit(b))
  }

  /** `stringLit(s)`. */
  function StringLitOf(t: Table, s: string): Step<Node> {
    LiteralOf(t, StringLit(s))
  }

  /** `blank()`: always a new node. */
  function BlankOf(t: Table): (r: Step<Node>)
    ensures r.out == Returns(Node(t.next, Blank)) && r.table.next == t.next + 1
  {
    assert FirstBadChild(ChildrenOf(Blank), t.next) == None;
    NewNode(t, Blank)
  }

  /**
   * The hash-consing of `theta` and `heap`: the cached node for the key
   * when it was built as the expected class, an IllegalStateException when
   * it was built as another class, and a new node otherwise.
   */
  function SpecialOf(t: Table, sym: string, children: seq<int>, cls: OpClass): (r: Step<Node>)
    ensures (sym, children) in t.symbols && CachedAs(t.symbols[(sym, children)], cls) ==>
      r == Step(t, Returns(t.symbols[(sym, children)]))
    ensures (sym, children) in t.symbols && !CachedAs(t.symbols[(sym, children)], cls) ==>
      r.table == t && r.out.Throws? && r.out.exc.kind == IllegalState
    ensures (sym, children) !in t.symbols ==> r == NewNode(t, OpNode(sym, children, cls))
  {
    if (sym, children) !in t.symbols then NewNode(t, OpNode(sym, children, cls))
    else
      var n := t.symbols[(sym, children)];
      if CachedAs(n, cls) then Step(t, Returns(n))
      else Step(t, Throws(Throw(IllegalState, "Unexpected value cached for sym=\"" + sym + "\"")))
  }

  /** The cached node is an object of class `cls`; `Heap` and `ThetaNode` objects always have two children. */
  predicate CachedAs(n: Node, cls: OpClass) {
    n.shape.OpNode? && n.shape.cls == cls && |n.shape.children| == 2
  }

  /** `heap(state, status)`: a null argument throws before anything else happens. */
  function HeapOf(t: Table, state: Option<int>, status: Option<int>): (r: Step<Node>)
    ensures state.None? || status.None? ==> r == Step(t, Throws(Throw(IllegalState, "Null heap-state or heap-status")))
    ensures state.Some? && status.Some? ==> r == SpecialOf(t, "heap", [state.value, status.value], HeapOp)
    ensures r.out.Returns? ==> IsHeap(r.out.value)
  {
    if state.None? || status.None? then Step(t, Throws(Throw(IllegalState, "Null heap-state or heap-status")))
    else SpecialOf(t, "heap", [state.value, status.value], HeapOp)
  }

  /** `theta(init, next)`. */
  function ThetaOf(t: Table, init: int, next: int): Step<Node> {
    SpecialOf(t, "theta", [init, next], ThetaOp)
  }

  /** A node built by `heap`. */
  predicate IsHeap(n: Node) {
    n.shape.OpNode? && n.shape.cls == HeapOp && |n.shape.children| == 2
  }

  function HeapState(h: Node): int
    requires IsHeap(h)
  {
    h.shape.children[0]
  }

  function HeapStatus(h: Node): int
    requires IsHeap(h)
  {
    h.shape.children[1]
  }

  /** Every node `HeapOf` returns is a `Heap` over the given state and status. */
  lemma HeapOfIsHeap(t: Table, state: int, status: int)
    requires Valid(t)
    ensures var r := HeapOf(t, Some(state), Some(status));
      r.out.Returns? ==> IsHeap(r.out.value) && HeapState(r.out.value) == state && HeapStatus(r.out.value) == status
  {
  }

  /** The second call of `heap` with the same arguments returns the first call's node and leaves the table alone. */
  lemma HeapHashConsed(t: Table, state: int, status: int)
    requires Valid(t)
    ensures var r := HeapOf(t, Some(state), Some(status));
      r.out.Returns? ==> HeapOf(r.table, Some(state), Some(status)) == Step(r.table, r.out)
  {
  }

  // ------------------------------------------------------------ named builders

  /** `unit()`. */
  function UnitOf(t: Table): Step<Node> {
    OpNodeOf(t, "unit", [])
  }

  /** `nil()`, which `PegNode.java` does not define; it is taken to be the childless `nil` operator. */
  function NilOf(t: Table): Step<Node> {
    OpNodeOf(t, "nil", [])
  }

  /** `phi(guard, then, els)`. */
  function PhiOf(t: Table, guard: int, thn: int, els: int): Step<Node> {
    OpNodeOf(t, "phi", [guard, thn, els])
  }

  /** `isunit(v)`. */
  function IsUnitOf(t: Table, v: int): Step<Node> {
    OpNodeOf(t, "isunit?", [v])
  }

  /** `isnull(v)`. */
  function IsNullOf(t: Table, v: int): Step<Node> {
    OpNodeOf(t, "isnull?", [v])
  }

  /** `exception(name)`: the childless operator named after the exception class. */
  function ExceptionOf(t: Table, name: string): Step<Node> {
    OpNodeOf(t, name, [])
  }

  /** `returnNode(peg, heap)`. */
  function ReturnNodeOf(t: Table, peg: int, heap: int): Step<Node> {
    OpNodeOf(t, "return-node", [peg, heap])
  }

  /** `rd(path, heap)`. */
  function RdOf(t: Table, path: int, heap: int): Step<Node> {
    OpNodeOf(t, "rd", [path, heap])
  }

  /** `wr(path, val, heap)`. */
  function WrOf(t: Table, path: int, val: int, heap: int): Step<Node> {
    OpNodeOf(t, "wr", [path, val, heap])
  }

  /** An operator over a childless operator named `name`: `derefs(s)`, `var(name)` and the like. */
  function OverSymbol(t: Table, op: string, name: string, rest: seq<int>): Step<Node> {
    var s := OpNodeOf(t, name, []);
    match s.out
    case Throws(e) => Step(s.table, Throws(e))
    case Returns(n) => OpNodeOf(s.table, op, [n.id] + rest)
  }

  /** `derefs(s)`. */
  function DerefsOf(t: Table, s: string): Step<Node> {
    OverSymbol(t, "derefs", s, [])
  }

  /** `path(base, s)`: `path(base, derefs(s).id)`. */
  function PathOf(t: Table, base: int, s: string): Step<Node> {
    var d := DerefsOf(t, s);
    match d.out
    case Throws(e) => Step(d.table, Throws(e))
    case Returns(n) => OpNodeOf(d.table, "path", [base, n.id])
  }

  /**
   * `var(name, type)`, which `PegNode.java` does not define (it has only
   * `var(name)`): taken to be `(var name type)`, the form the rewrite
   * engine's terms use.
   */
  function VarOf(t: Table, name: string, typeId: int): Step<Node> {
    OverSymbol(t, "var", name, [typeId])
  }

  /** `heap.withState(state)`: `heap(state, heap.status)`. */
  function WithState(t: Table, h: Node, state: int): (r: Step<Node>)
    requires IsHeap(h)
    ensures r.out.Returns? ==> IsHeap(r.out.value)
  {
    HeapOf(t, Some(state), Some(HeapStatus(h)))
  }

  /** `heap.withStatus(status)`: `heap(heap.state, status)`. */
  function WithStatus(t: Table, h: Node, status: int): (r: Step<Node>)
    requires IsHeap(h)
    ensures r.out.Returns? ==> IsHeap(r.out.value)
  {
    HeapOf(t, Some(HeapState(h)), Some(status))
  }

  /** `wrHeap(path, val, heap)`: the heap whose state is `wr(path, val, heap)`. */
  function WrHeapOf(t: Table, path: int, val: int, h: Node): (r: Step<Node>)
    requires IsHeap(h)
    ensures r.out.Returns? ==> IsHeap(r.out.value)
  {
    var w := WrOf(t, path, val, h.id);
    match w.out
    case Throws(e) => Step(w.table, Throws(e))
    case Returns(n) => WithState(w.table, h, n.id)
  }

  /** `initialHeap()`: `heap(intLit(0), unit())`. */
  function InitialHeapOf(t: Table): (r: Step<Node>)
    ensures r.out.Returns? ==> IsHeap(r.out.value)
  {
    var z := IntLitOf(t, 0);
    match z.out
    case Throws(e) => Step(z.table, Throws(e))
    case Returns(zero) =>
      var u := UnitOf(z.table);
      match u.out
      case Throws(e) => Step(u.table, Throws(e))
      case Returns(unit) => HeapOf(u.table, Some(zero.id), Some(unit.id))
  }

  /** An operator node over exactly these children. */
  predicate Built(n: Node, op: string, children: seq<int>) {
    n.shape.OpNode? && n.shape.op == op && n.shape.children == children
  }

  /** In a valid table whatever `opNode` returns is an operator node over the requested symbol and children. */
  lemma OpNodeBuilt(t: Table, sym: string, children: seq<int>)
    requires Valid(t)
    ensures OpNodeOf(t, sym, children).out.Returns? ==> Built(OpNodeOf(t, sym, children).out.value, sym, children)
  {
  }

  /** Only `heap` ever makes a two-child node for the symbol `heap`, so the cached one is always a `Heap`. */
  ghost predicate HeapsTyped(t: Table) {
    forall key :: key in t.symbols && key.0 == "heap" && |key.1| == 2 ==> CachedAs(t.symbols[key], HeapOp)
  }

  /** The operator cache only grows. */
  ghost predicate SymbolsGrow(t: Table, u: Table) {
    forall key :: key in t.symbols ==> key in u.symbols && u.symbols[key] == t.symbols[key]
  }

  /** The operator cache holds node `id` for (sym, children). */
  ghost predicate Cached(t: Table, sym: string, children: seq<int>, id: int) {
    (sym, children) in t.symbols && t.symbols[(sym, children)].id == id
  }

  /** A symbol `opNode` may be asked for without breaking `HeapsTyped`. */
  predicate NotHeapKey(sym: string, children: seq<int>) {
    !(sym == "heap" && |children| == 2)
  }

  /** The table every builder below keeps: valid, with `heap` keys held by `Heap` nodes. */
  ghost predicate Sound(t: Table) {
    Valid(t) && HeapsTyped(t)
  }

  /** All these ids are older than the counter. */
  predicate Below(t: Table, ids: seq<int>) {
    forall i :: 0 <= i < |ids| ==> ids[i] < t.next
  }

  /** `r` returned a node, leaves a sound table, and only advanced the counter. */
  ghost predicate Made(t: Table, r: Step<Node>) {
    r.out.Returns? && Sound(r.table) && t.next <= r.table.next && r.out.value.id < r.table.next
    && SymbolsGrow(t, r.table)
  }

  /** `u` is `t` after more node-making calls: sound, counter no lower, operator cache only grown. */
  ghost predicate Grown(t: Table, u: Table) {
    Sound(u) && t.next <= u.next && SymbolsGrow(t, u)
  }

  lemma GrownTrans(a: Table, b: Table, c: Table)
    requires Grown(a, b) && Grown(b, c)
    ensures Grown(a, c)
  {
  }

  lemma BelowThree(t: Table, a: int, b: int, c: int)
    requires a < t.next && b < t.next && c < t.next
    ensures Below(t, [a, b, c])
  {
    var s := [a, b, c];
    assert s[0] == a && s[1] == b && s[2] == c;
  }

  lemma BelowTwo(t: Table, a: int, b: int)
    requires a < t.next && b < t.next
    ensures Below(t, [a, b])
  {
    var s := [a, b];
    assert s[0] == a && s[1] == b;
  }

  /** Whatever it returns or throws, `opNode` of a non-`heap` key keeps the table sound and only grows it. */
  lemma OpNodeGrown(t: Table, sym: string, children: seq<int>)
    requires Sound(t) && NotHeapKey(sym, children)
    ensures Grown(t, OpNodeOf(t, sym, children).table)
    ensures OpNodeOf(t, sym, children).out.Returns? ==>
      OpNodeOf(t, sym, children).out.value.id < OpNodeOf(t, sym, children).table.next
  {
    OpNodeValid(t, sym, children);
  }

  lemma {:induction false} OrChainGrown(t: Table, acc: int, rest: seq<int>)
    requires Sound(t)
    ensures Grown(t, OrChain(t, acc, rest).table)
    decreases |rest|
  {
    if rest != [] {
      var s := OpNodeOf(t, "||", [acc, rest[0]]);
      OpNodeGrown(t, "||", [acc, rest[0]]);
      if s.out.Returns? {
        OrChainGrown(s.table, s.out.value.id, rest[1..]);
        GrownTrans(t, s.table, OrChain(s.table, s.out.value.id, rest[1..]).table);
      }
    }
  }

  /** `exitConditions` keeps a sound table sound, and what it returns is an existing node. */
  lemma ExitConditionsGrown(t: Table, conds: seq<Node>)
    requires Sound(t)
    ensures var r := ExitConditionsOf(t, conds);
      Grown(t, r.table) && (r.out.Returns? ==> r.out.value.id < r.table.next)
  {
    JavaCollections.IntOrderTotal();
    var cs := JavaCollections.Sort(ConditionIds(conds), JavaCollections.IntLe());
    if cs == [] {
      LiteralMade(t, BoolLit(false));
    } else if |cs| > 1 {
      OrChainGrown(t, cs[0], cs[1..]);
    }
  }

  /** Over existing children, `opNode` of any symbol but `heap` returns the operator node asked for. */
  lemma OpNodeMade(t: Table, sym: string, children: seq<int>)
    requires Sound(t) && NotHeapKey(sym, children) && Below(t, children)
    ensures Made(t, OpNodeOf(t, sym, children)) && Built(OpNodeOf(t, sym, children).out.value, sym, children)
    ensures Cached(OpNodeOf(t, sym, children).table, sym, children, OpNodeOf(t, sym, children).out.value.id)
  {
    OpNodeValid(t, sym, children);
    if (sym, children) !in t.symbols {
      OpNodeFresh(t, sym, children);
    }
  }

  lemma LiteralMade(t: Table, shape: Shape)
    requires Sound(t) && KeyOf(shape).Some?
    ensures Made(t, LiteralOf(t, shape)) && LiteralOf(t, shape).out.value.shape == shape
  {
    LiteralValid(t, shape);
  }

  /** Over existing ids, `heap` returns a `Heap` over exactly that state and status. */
  lemma HeapMade(t: Table, state: int, status: int)
    requires Sound(t) && state < t.next && status < t.next
    ensures var r := HeapOf(t, Some(state), Some(status));
      Made(t, r) && IsHeap(r.out.value) && HeapState(r.out.value) == state && HeapStatus(r.out.value) == status
      && Cached(r.table, "heap", [state, status], r.out.value.id)
  {
    var key := ("heap", [state, status]);
    SpecialValid(t, "heap", [state, status], HeapOp);
    HeapOfIsHeap(t, state, status);
    if key in t.symbols {
      assert CachedAs(t.symbols[key], HeapOp);
    } else {
      BelowTwo(t, state, status);
      HeapEnterTyped(t, Node(t.next, OpNode("heap", [state, status], HeapOp)));
    }
  }

  /** Entering a new `Heap` node keeps the `heap` keys held by `Heap` nodes. */
  lemma HeapEnterTyped(t: Table, n: Node)
    requires HeapsTyped(t) && IsHeap(n) && n.shape.op == "heap"
    ensures HeapsTyped(Enter(t, n))
  {
  }

  lemma OverSymbolMade(t: Table, op: string, name: string, rest: seq<int>)
    requires Sound(t) && op != "heap" && Below(t, rest)
    ensures var r := OverSymbol(t, op, name, rest);
      Made(t, r) && r.out.value.shape.OpNode? && r.out.value.shape.op == op
      && |r.out.value.shape.children| == |rest| + 1 && r.out.value.shape.children[1..] == rest
  {
    OpNodeMade(t, name, []);
    var s := OpNodeOf(t, name, []);
    OpNodeMade(s.table, op, [s.out.value.id] + rest);
  }

  /** `path(base, s)` is a `path` node over `base`. */
  lemma PathMade(t: Table, base: int, s: string)
    requires Sound(t) && base < t.next
    ensures var r := PathOf(t, base, s);
      Made(t, r) && r.out.value.shape.OpNode? && r.out.value.shape.op == "path"
      && |r.out.value.shape.children| == 2 && r.out.value.shape.children[0] == base
  {
    OverSymbolMade(t, "derefs", s, []);
    var d := DerefsOf(t, s);
    OpNodeMade(d.table, "path", [base, d.out.value.id]);
  }

  /** `wrHeap` gives a heap whose state is the `wr` node and whose status is the old one. */
  lemma WrHeapMade(t: Table, path: int, val: int, h: Node)
    requires Sound(t) && IsHeap(h) && Below(t, [path, val, h.id, HeapStatus(h)])
    ensures var r := WrHeapOf(t, path, val, h);
      Made(t, r) && IsHeap(r.out.value) && HeapStatus(r.out.value) == HeapStatus(h)
      && Cached(r.table, "wr", [path, val, h.id], HeapState(r.out.value))
  {
    var cs := [path, val, h.id, HeapStatus(h)];
    assert cs[0] < t.next && cs[1] < t.next && cs[2] < t.next && cs[3] < t.next;
    OpNodeMade(t, "wr", [path, val, h.id]);
    var w := WrOf(t, path, val, h.id);
    HeapMade(w.table, w.out.value.id, HeapStatus(h));
  }

  /** `initialHeap` is a heap. */
  lemma InitialHeapMade(t: Table)
    requires Sound(t)
    ensures Made(t, InitialHeapOf(t)) && IsHeap(InitialHeapOf(t).out.value)
    ensures HeapState(InitialHeapOf(t).out.value) < InitialHeapOf(t).table.next
    ensures HeapStatus(InitialHeapOf(t).out.value) < InitialHeapOf(t).table.next
  {
    LiteralMade(t, IntLit(0));
    var z := IntLitOf(t, 0);
    OpNodeMade(z.table, "unit", []);
    var u := UnitOf(z.table);
    HeapMade(u.table, z.out.value.id, u.out.value.id);
  }

  // ------------------------------------------------------------ invariants

  lemma EnterValid(t: Table, n: Node)
    requires Valid(t) && n.id == t.next && ChildrenBelow(n)
    ensures Valid(Enter(t, n))
  {
    var u := Enter(t, n);
    forall k | k in u.ids ensures u.ids[k].id < u.next && ChildrenBelow(u.ids[k]) {
      if k != n.id {
        assert u.ids[k] == t.ids[k];
      }
    }
  }

  lemma EnterSelfKeyed(t: Table, n: Node)
    requires SelfKeyed(t)
    ensures SelfKeyed(Enter(t, n))
  {
  }

  lemma EnterCachesStored(t: Table, n: Node)
    requires CachesStored(t) && n.id !in t.ids
    ensures CachesStored(Enter(t, n))
  {
  }

  lemma EnterAllCached(t: Table, n: Node)
    requires AllCached(t) && FreshFor(t, n)
    ensures AllCached(Enter(t, n))
  {
    var u := Enter(t, n);
    forall k | k in u.ids && u.ids[k].shape.OpNode?
      ensures (u.ids[k].shape.op, u.ids[k].shape.children) in u.symbols
      ensures u.symbols[(u.ids[k].shape.op, u.ids[k].shape.children)] == u.ids[k]
    {
      if k != n.id {
        assert u.ids[k] == t.ids[k];
      }
    }
    forall k | k in u.ids && KeyOf(u.ids[k].shape).Some?
      ensures KeyOf(u.ids[k].shape).value in u.lits && u.lits[KeyOf(u.ids[k].shape).value] == u.ids[k]
    {
      if k != n.id {
        assert u.ids[k] == t.ids[k];
      }
    }
  }

  lemma EnterExtends(t: Table, n: Node)
    requires FreshFor(t, n)
    ensures Extends(t, Enter(t, n))
  {
  }

  /** A constructor that throws has still advanced the counter; nothing else changes. */
  lemma BumpConsistent(t: Table)
    requires Consistent(t)
    ensures Consistent(t.(next := t.next + 1)) && Extends(t, t.(next := t.next + 1))
  {
    var u := t.(next := t.next + 1);
    assert Valid(u);
  }

  lemma NewNodeValid(t: Table, shape: Shape)
    requires Valid(t)
    ensures Valid(NewNode(t, shape).table)
  {
    var r := NewNode(t, shape);
    if r.out.Returns? {
      EnterValid(t, r.out.value);
    }
  }

  /** `NewNode` on a fresh key keeps the table consistent and only grows it. */
  lemma NewNodeConsistent(t: Table, shape: Shape)
    requires Consistent(t)
    requires shape.OpNode? ==> (shape.op, shape.children) !in t.symbols
    requires KeyOf(shape).Some? ==> KeyOf(shape).value !in t.lits
    ensures Consistent(NewNode(t, shape).table)
    ensures Extends(t, NewNode(t, shape).table)
  {
    var r := NewNode(t, shape);
    if r.out.Throws? {
      BumpConsistent(t);
    } else {
      var n := r.out.value;
      assert t.next !in t.ids;
      assert FreshFor(t, n);
      EnterValid(t, n);
      EnterSelfKeyed(t, n);
      EnterCachesStored(t, n);
      EnterAllCached(t, n);
      EnterExtends(t, n);
    }
  }

  /** `opNode` keeps the table valid and only ever grows it. */
  lemma OpNodeValid(t: Table, sym: string, children: seq<int>)
    requires Valid(t)
    ensures Valid(OpNodeOf(t, sym, children).table)
  {
    if (sym, children) !in t.symbols {
      NewNodeValid(t, OpNode(sym, children, PlainOp));
    }
  }

  lemma OpNodeConsistent(t: Table, sym: string, children: seq<int>)
    requires Consistent(t)
    ensures Consistent(OpNodeOf(t, sym, children).table)
    ensures Extends(t, OpNodeOf(t, sym, children).table)
  {
    if (sym, children) !in t.symbols {
      NewNodeConsistent(t, OpNode(sym, children, PlainOp));
    }
  }

  lemma LiteralValid(t: Table, shape: Shape)
    requires Valid(t) && KeyOf(shape).Some?
    ensures Valid(LiteralOf(t, shape).table)
  {
    if KeyOf(shape).value !in t.lits {
      NewNodeValid(t, shape);
    }
  }

  lemma LiteralConsistent(t: Table, shape: Shape)
    requires Consistent(t) && KeyOf(shape).Some?
    ensures Consistent(LiteralOf(t, shape).table)
  {
    if KeyOf(shape).value !in t.lits {
      NewNodeConsistent(t, shape);
    }
  }

  lemma SpecialValid(t: Table, sym: string, children: seq<int>, cls: OpClass)
    requires Valid(t)
    ensures Valid(SpecialOf(t, sym, children, cls).table)
  {
    if (sym, children) !in t.symbols {
      NewNodeValid(t, OpNode(sym, children, cls));
    }
  }

  lemma SpecialConsistent(t: Table, sym: string, children: seq<int>, cls: OpClass)
    requires Consistent(t)
    ensures Consistent(SpecialOf(t, sym, children, cls).table)
  {
    if (sym, children) !in t.symbols {
      NewNodeConsistent(t, OpNode(sym, children, cls));
    }
  }

  /** Every node a call returns in a consistent table is stored under its id there. */
  lemma OpNodeHolds(t: Table, sym: string, children: seq<int>)
    requires Consistent(t)
    ensures var r := OpNodeOf(t, sym, children);
      r.out.Returns? ==> Holds(r.table, r.out.value) && r.out.value.id < r.table.next
  {
  }

  lemma LiteralHolds(t: Table, shape: Shape)
    requires Consistent(t) && KeyOf(shape).Some?
    ensures var r := LiteralOf(t, shape);
      r.out.Returns? && Holds(r.table, r.out.value) && r.out.value.shape == shape
  {
  }

  // ------------------------------------------------------------ hash-consing

  /**
   * Hash-consing: asking `opNode` again for the same symbol and children
   * returns the very node the first call returned and consumes no id.
   */
  lemma OpNodeIdempotent(t: Table, sym: string, children: seq<int>)
    requires Valid(t)
    ensures var r := OpNodeOf(t, sym, children);
      r.out.Returns? ==> OpNodeOf(r.table, sym, children) == Step(r.table, r.out)
  {
  }

  /** A miss whose children are all older than the counter makes exactly one new node, with the next id. */
  lemma OpNodeFresh(t: Table, sym: string, children: seq<int>)
    requires (sym, children) !in t.symbols
    requires forall i :: 0 <= i < |children| ==> children[i] < t.next
    ensures OpNodeOf(t, sym, children).out == Returns(Node(t.next, OpNode(sym, children, PlainOp)))
    ensures OpNodeOf(t, sym, children).table.next == t.next + 1
  {
  }

  /** A child at or above the counter makes a miss throw, after the counter has advanced. */
  lemma OpNodeRejectsYoungChild(t: Table, sym: string, children: seq<int>, i: nat)
    requires (sym, children) !in t.symbols
    requires i < |children| && children[i] >= t.next
    ensures OpNodeOf(t, sym, children).out.Throws?
    ensures OpNodeOf(t, sym, children).table == t.(next := t.next + 1)
  {
  }

  /** Literal nodes are cached by value: the second request for a value returns the first node. */
  lemma LiteralCached(t: Table, shape: Shape)
    requires KeyOf(shape).Some?
    ensures var r := LiteralOf(t, shape);
      r.out.Returns? ==> LiteralOf(r.table, shape) == Step(r.table, r.out)
  {
  }

  /** `blank()` is never cached: two calls give two different nodes. */
  lemma BlanksAreFresh(t: Table)
    ensures var r1 := BlankOf(t); var r2 := BlankOf(r1.table);
      r1.out.value.id != r2.out.value.id
  {
  }

  /** After `clear()` ids start again from 0. */
  lemma ClearRestartsIds(sym: string)
    ensures OpNodeOf(Clear(), sym, []).out == Returns(Node(0, OpNode(sym, [], PlainOp)))
  {
  }

  // ------------------------------------------------------------ replace

  /** `replace(blank, value)`: `idLookup[blank]` becomes `idLookup.get(value)` (a `null` when value is unknown). */
  function Replace(t: Table, blank: int, value: int): (r: Table)
    ensures value in t.ids ==> blank in r.ids && r.ids[blank] == t.ids[value]
    ensures value !in t.ids ==> blank !in r.ids
    ensures forall k :: k != blank ==> (k in r.ids <==> k in t.ids) && (k in r.ids ==> r.ids[k] == t.ids[k])
    ensures r.next == t.next && r.symbols == t.symbols && r.lits == t.lits
  {
    if value in t.ids then t.(ids := t.ids[blank := t.ids[value]])
    else t.(ids := t.ids - {blank})
  }

  /** `replace` keeps the table valid, though not consistent. */
  lemma ReplaceValid(t: Table, blank: int, value: int)
    requires Valid(t)
    ensures Valid(Replace(t, blank, value))
  {
  }

  // ------------------------------------------------------------ equality and printing

  /** `equals`: literals by value, operator nodes by class, symbol and children, blanks by identity. */
  predicate NodeEquals(a: Node, b: Node) {
    match (a.shape, b.shape)
    case (IntLit(x), IntLit(y)) => x == y
    case (BoolLit(x), BoolLit(y)) => x == y
    case (StringLit(x), StringLit(y)) => x == y
    case (Blank, Blank) => a.id == b.id
    case (OpNode(o1, c1, k1), OpNode(o2, c2, k2)) => k1 == k2 && o1 == o2 && c1 == c2
    case _ => false
  }

  /**
   * In a consistent table hash-consing makes structural equality and
   * identity coincide: two stored nodes are `equals` exactly when they
   * are the same node.
   */
  lemma EqualsIsIdentity(t: Table, a: Node, b: Node)
    requires Consistent(t) && Holds(t, a) && Holds(t, b)
    ensures NodeEquals(a, b) <==> a.id == b.id
  {
    if NodeEquals(a, b) && a.shape.OpNode? {
      assert t.symbols[(a.shape.op, a.shape.children)] == a;
      assert t.symbols[(b.shape.op, b.shape.children)] == b;
    }
    if NodeEquals(a, b) && KeyOf(a.shape).Some? {
      assert KeyOf(a.shape) == KeyOf(b.shape);
      assert t.lits[KeyOf(a.shape).value] == a;
    }
  }

  /** The children ids as `OpNode.toString` prints them: each preceded by a space. */
  function ShowIds(cs: seq<int>): string {
    if cs == [] then "" else " " + IntToString(cs[0]) + ShowIds(cs[1..])
  }

  /** `OpNode.toString`: the bare symbol without children, else `(op id1 … idn)`. */
  function ShowOp(op: string, children: seq<int>): string {
    if children == [] then op else "(" + op + ShowIds(children) + ")"
  }

  /** `toString` of a literal: `%d`, `%b` and the quoted text. */
  function ShowLiteral(s: Shape): string
    requires KeyOf(s).Some?
  {
    match s
    case IntLit(v) => IntToString(v as int)
    case BoolLit(b) => if b then "true" else "false"
    case StringLit(x) => "\"" + x + "\""
  }

  predicate IsSpace(c: char) {
    c == ' '
  }

  function Strs(cs: seq<int>): (r: seq<string>)
    ensures |r| == |cs|
    ensures forall i :: 0 <= i < |cs| ==> r[i] == IntToString(cs[i])
  {
    if cs == [] then [] else [IntToString(cs[0])] + Strs(cs[1..])
  }

  /** Reading back what `ShowOp` printed: a parenthesised, space-separated symbol and ids, or a bare symbol. */
  function ReadOp(s: string): Option<(string, seq<int>)> {
    if |s| >= 2 && s[0] == '(' && s[|s| - 1] == ')' then
      var parts := Text.Split(s[1..|s| - 1], IsSpace);
      if |parts| >= 2 then
        match ReadIds(parts[1..])
        case Some(cs) => Some((parts[0], cs))
        case None => None
      else None
    else Some((s, []))
  }

  function ReadIds(ps: seq<string>): (r: Option<seq<int>>)
    ensures r.Some? ==> |r.value| == |ps|
  {
    if ps == [] then Some([])
    else match (ParseSigned(ps[0]), ReadIds(ps[1..]))
      case (Some(c), Some(cs)) => Some([c] + cs)
      case _ => None
  }

  lemma {:induction false} ReadStrs(cs: seq<int>)
    ensures ReadIds(Strs(cs)) == Some(cs)
  {
    if cs != [] {
      SignedRoundTrip(cs[0]);
      assert Strs(cs)[1..] == Strs(cs[1..]);
      ReadStrs(cs[1..]);
      assert [cs[0]] + cs[1..] == cs;
    }
  }

  lemma {:induction false} ShowIdsJoin(cs: seq<int>)
    requires cs != []
    ensures ShowIds(cs) == " " + Text.Join(Strs(cs), ' ')
  {
    if |cs| > 1 {
      ShowIdsJoin(cs[1..]);
      assert Strs(cs)[1..] == Strs(cs[1..]);
    }
  }

  lemma IntToStringNoSpace(i: int)
    ensures Text.NoneIn(IntToString(i), IsSpace)
  {
    var s := IntToString(i);
    if i < 0 {
      assert forall k :: 1 <= k < |s| ==> s[k] == NatToString(-i)[k - 1];
    }
  }

  /** A symbol `ReadOp` can tell apart from the punctuation around it. */
  predicate PlainSymbol(op: string) {
    op != [] && forall i :: 0 <= i < |op| ==> op[i] != ' ' && op[i] != '(' && op[i] != ')'
  }

  /** The printed form of an operator node with children: its parts joined by spaces, in parentheses. */
  lemma ShowOpParts(op: string, children: seq<int>)
    requires children != []
    ensures var s := ShowOp(op, children);
      |s| >= 2 && s[0] == '(' && s[|s| - 1] == ')' && s[1..|s| - 1] == Text.Join([op] + Strs(children), ' ')
  {
    var s := ShowOp(op, children);
    ShowIdsJoin(children);
    var ps := [op] + Strs(children);
    assert ps[1..] == Strs(children);
    assert s[1..|s| - 1] == op + ShowIds(children);
  }

  /** None of the parts of a plain symbol's printed form holds a space. */
  lemma PartsNoSpace(op: string, children: seq<int>)
    requires PlainSymbol(op)
    ensures var ps := [op] + Strs(children);
      forall i :: 0 <= i < |ps| ==> Text.NoneIn(ps[i], IsSpace)
  {
    var ps := [op] + Strs(children);
    forall i | 0 <= i < |ps| ensures Text.NoneIn(ps[i], IsSpace) {
      if i > 0 {
        assert ps[i] == IntToString(children[i - 1]);
        IntToStringNoSpace(children[i - 1]);
      }
    }
  }

  /** `ReadOp` inverts `OpNode.toString` for symbols without spaces or parentheses. */
  lemma ShowOpRoundTrip(op: string, children: seq<int>)
    requires PlainSymbol(op)
    ensures ReadOp(ShowOp(op, children)) == Some((op, children))
  {
    if children != [] {
      var ps := [op] + Strs(children);
      ShowOpParts(op, children);
      PartsNoSpace(op, children);
      Text.SplitJoin(ps, ' ', IsSpace);
      ReadStrs(children);
      assert ps[1..] == Strs(children);
    } else {
      assert op[0] != '(';
    }
  }

  // ------------------------------------------------------------ exitConditions

  /** The left-nested `||` chain: `id` is `(|| (… (|| c0 c1) …) cn)` over `cs` in that order. */
  ghost predicate Spine(t: Table, id: int, cs: seq<int>)
    decreases |cs|
  {
    if |cs| <= 1 then cs == [id]
    else
      id in t.ids && t.ids[id].shape.OpNode? && t.ids[id].shape.op == "||"
      && |t.ids[id].shape.children| == 2
      && t.ids[id].shape.children[1] == cs[|cs| - 1]
      && Spine(t, t.ids[id].shape.children[0], cs[..|cs| - 1])
  }

  lemma {:induction false} SpineExtends(u: Table, t: Table, id: int, cs: seq<int>)
    requires Extends(u, t) && Spine(u, id, cs)
    ensures Spine(t, id, cs)
    decreases |cs|
  {
    if |cs| > 1 {
      SpineExtends(u, t, u.ids[id].shape.children[0], cs[..|cs| - 1]);
    }
  }

  /** The loop of `exitConditions`: `id = opNode("||", id, childId).id` for each remaining id. */
  function OrChain(t: Table, acc: int, rest: seq<int>): Step<int>
    decreases |rest|
  {
    if rest == [] then Step(t, Returns(acc))
    else
      var s := OpNodeOf(t, "||", [acc, rest[0]]);
      match s.out
      case Throws(e) => Step(s.table, Throws(e))
      case Returns(n) => OrChain(s.table, n.id, rest[1..])
  }

  function ConditionIds(conds: seq<Node>): (r: seq<int>)
    ensures |r| == |conds|
    ensures forall i :: 0 <= i < |conds| ==> r[i] == conds[i].id
  {
    seq(|conds|, i requires 0 <= i < |conds| => conds[i].id)
  }

  function NonNull(conds: seq<Option<Node>>): (r: seq<Node>)
    requires forall i :: 0 <= i < |conds| ==> conds[i].Some?
    ensures |r| == |conds| && forall i :: 0 <= i < |conds| ==> r[i] == conds[i].value
  {
    seq(|conds|, i requires 0 <= i < |conds| => conds[i].value)
  }

  /**
   * `exitConditions(conditions)`: a `null` condition throws; otherwise the
   * condition ids sorted ascending become `boolLit(false)` (none), the one
   * condition's node (one), or a left-nested `||` chain, whose final id is
   * looked up again in `idLookup`.
   */
  function ExitConditions(t: Table, conds: seq<Option<Node>>): (r: Step<Node>)
    ensures (exists i :: 0 <= i < |conds| && conds[i].None?) ==>
      r == Step(t, Throws(Throw(IllegalState, "Found null condition")))
    ensures (forall i :: 0 <= i < |conds| ==> conds[i].Some?) ==> r == ExitConditionsOf(t, NonNull(conds))
  {
    if exists i :: 0 <= i < |conds| && conds[i].None? then
      Step(t, Throws(Throw(IllegalState, "Found null condition")))
    else ExitConditionsOf(t, NonNull(conds))
  }

  /** `exitConditions` once no condition is `null`. */
  function ExitConditionsOf(t: Table, conds: seq<Node>): (r: Step<Node>)
    ensures conds == [] ==> r == BoolLitOf(t, false)
  {
    JavaCollections.IntOrderTotal();
    var cs := JavaCollections.Sort(ConditionIds(conds), JavaCollections.IntLe());
    if cs == [] then BoolLitOf(t, false)
    else if |cs| == 1 then
      (if cs[0] in t.ids then Step(t, Returns(t.ids[cs[0]])) else Step(t, Throws(Exception(IllegalState, None))))
    else
      var s := OrChain(t, cs[0], cs[1..]);
      match s.out
      case Throws(e) => Step(s.table, Throws(e))
      case Returns(id) =>
        if id in s.table.ids then Step(s.table, Returns(s.table.ids[id]))
        else Step(s.table, Throws(Exception(IllegalState, None)))
  }

  /** The part of `Consistent` the `||` loop needs: ids below the counter and cached operator nodes stored under their ids. */
  ghost predicate Stored(t: Table) {
    (forall k :: k in t.ids ==> k < t.next)
    && (forall key :: key in t.symbols ==>
          Holds(t, t.symbols[key]) && t.symbols[key].id < t.next && t.symbols[key].shape.OpNode?
          && t.symbols[key].shape.op == key.0 && t.symbols[key].shape.children == key.1)
  }

  lemma ConsistentStored(t: Table)
    requires Consistent(t)
    ensures Stored(t)
  {
  }

  /** One successful `opNode` in a table whose caches are stored and whose children all exist already. */
  lemma OpNodeStep(t: Table, sym: string, children: seq<int>)
    requires Stored(t)
    requires forall i :: 0 <= i < |children| ==> children[i] < t.next
    ensures var s := OpNodeOf(t, sym, children);
      s.out.Returns? && Stored(s.table) && Extends(t, s.table) && Holds(s.table, s.out.value)
      && s.out.value.id < s.table.next
      && s.out.value.shape.OpNode? && s.out.value.shape.op == sym && s.out.value.shape.children == children
  {
    if (sym, children) !in t.symbols {
      OpNodeFresh(t, sym, children);
      var s := OpNodeOf(t, sym, children);
      assert t.next !in t.ids;
      forall key | key in s.table.symbols ensures Holds(s.table, s.table.symbols[key]) {
        if key != (sym, children) {
          assert s.table.symbols[key] == t.symbols[key];
        }
      }
    }
  }

  /** Each step of the loop extends the chain by the next id, in a consistent table. */
  lemma {:induction false} OrChainSpine(t: Table, acc: int, done: seq<int>, rest: seq<int>)
    requires Stored(t) && Spine(t, acc, done) && |done| >= 1
    requires acc in t.ids && t.ids[acc].id == acc
    requires forall i :: 0 <= i < |rest| ==> rest[i] < t.next
    ensures var s := OrChain(t, acc, rest);
      s.out.Returns? && Extends(t, s.table)
      && Spine(s.table, s.out.value, done + rest)
      && s.out.value in s.table.ids && s.table.ids[s.out.value].id == s.out.value
    decreases |rest|
  {
    if rest == [] {
      assert done + rest == done;
      ExtendsRefl(t);
    } else {
      var s := OpNodeOf(t, "||", [acc, rest[0]]);
      OrLink(t, acc, done, rest[0]);
      var n := s.out.value;
      var done' := done + [rest[0]];
      OrChainSpine(s.table, n.id, done', rest[1..]);
      ShiftHead(done, rest);
      ExtendsTrans(t, s.table, OrChain(s.table, n.id, rest[1..]).table);
    }
  }

  /** One `||` link appended to a chain. */
  lemma OrLink(t: Table, acc: int, done: seq<int>, c: int)
    requires Stored(t) && Spine(t, acc, done) && |done| >= 1
    requires acc in t.ids && t.ids[acc].id == acc && c < t.next
    ensures var s := OpNodeOf(t, "||", [acc, c]);
      s.out.Returns? && Stored(s.table) && Extends(t, s.table)
      && Spine(s.table, s.out.value.id, done + [c])
      && s.out.value.id in s.table.ids && s.table.ids[s.out.value.id].id == s.out.value.id
  {
    var s := OpNodeOf(t, "||", [acc, c]);
    OpNodeStep(t, "||", [acc, c]);
    SpineExtends(t, s.table, acc, done);
    var done' := done + [c];
    assert done'[..|done'| - 1] == done;
  }

  lemma ShiftHead<T>(a: seq<T>, b: seq<T>)
    requires b != []
    ensures (a + [b[0]]) + b[1..] == a + b
  {
    assert b == [b[0]] + b[1..];
  }

  lemma ExtendsRefl(t: Table)
    ensures Extends(t, t)
  {
  }

  lemma ExtendsTrans(a: Table, b: Table, c: Table)
    requires Extends(a, b) && Extends(b, c)
    ensures Extends(a, c)
  {
  }

  /** Any rearrangement of the condition ids names stored nodes below the counter. */
  lemma IdsBelow(t: Table, conds: seq<Node>, cs: seq<int>)
    requires Valid(t)
    requires forall i :: 0 <= i < |conds| ==> Holds(t, conds[i])
    requires multiset(cs) == multiset(ConditionIds(conds))
    ensures forall i :: 0 <= i < |cs| ==> cs[i] < t.next && cs[i] in t.ids && t.ids[cs[i]].id == cs[i]
  {
    var ids := ConditionIds(conds);
    forall i | 0 <= i < |cs| ensures cs[i] < t.next && cs[i] in t.ids && t.ids[cs[i]].id == cs[i] {
      assert cs[i] in multiset(ids);
      var j :| 0 <= j < |ids| && ids[j] == cs[i];
      assert Holds(t, conds[j]);
    }
  }

  /**
   * With conditions stored in a consistent table, `exitConditions`
   * succeeds: no condition gives `false`, one gives that node, and more
   * give the `||` chain over their ids sorted ascending.
   */
  lemma ExitConditionsChain(t: Table, conds: seq<Node>)
    requires Consistent(t)
    requires forall i :: 0 <= i < |conds| ==> Holds(t, conds[i])
    ensures var r := ExitConditionsOf(t, conds);
      r.out.Returns?
      && (|conds| == 0 ==> r.out.value.shape == BoolLit(false))
      && (|conds| == 1 ==> r.out.value == conds[0])
      && (|conds| >= 2 ==> Spine(r.table, r.out.value.id, JavaCollections.Sort(ConditionIds(conds), JavaCollections.IntLe())))
  {
    if |conds| == 0 {
      LiteralHolds(t, BoolLit(false));
    } else if |conds| == 1 {
      ExitConditionsOne(t, conds);
    } else {
      ExitConditionsMany(t, conds);
    }
  }

  lemma ExitConditionsOne(t: Table, conds: seq<Node>)
    requires Valid(t) && |conds| == 1 && Holds(t, conds[0])
    ensures ExitConditionsOf(t, conds).out == Returns(conds[0])
  {
    JavaCollections.IntOrderTotal();
    var cs := JavaCollections.Sort(ConditionIds(conds), JavaCollections.IntLe());
    assert cs[0] in multiset(ConditionIds(conds));
  }

  lemma ExitConditionsMany(t: Table, conds: seq<Node>)
    requires Consistent(t) && |conds| >= 2
    requires forall i :: 0 <= i < |conds| ==> Holds(t, conds[i])
    ensures var r := ExitConditionsOf(t, conds);
      r.out.Returns? && Spine(r.table, r.out.value.id, JavaCollections.Sort(ConditionIds(conds), JavaCollections.IntLe()))
  {
    JavaCollections.IntOrderTotal();
    var cs := JavaCollections.Sort(ConditionIds(conds), JavaCollections.IntLe());
    IdsBelow(t, conds, cs);
    ConsistentStored(t);
    assert Spine(t, cs[0], [cs[0]]);
    var rest := cs[1..];
    forall i | 0 <= i < |rest| ensures rest[i] < t.next {
      assert rest[i] == cs[i + 1];
    }
    OrChainSpine(t, cs[0], [cs[0]], rest);
    assert [cs[0]] + rest == cs;
  }

  /** A `null` among the conditions makes `exitConditions` throw and leaves the table alone. */
  lemma ExitConditionsNull(t: Table, conds: seq<Option<Node>>, i: nat)
    requires i < |conds| && conds[i].None?
    ensures ExitConditions(t, conds) == Step(t, Throws(Throw(IllegalState, "Found null condition")))
  {
  }
}
