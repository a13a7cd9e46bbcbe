/**
 * The structural comparison of two PEGs of
 * serializer/src/main/java/serializer/peg/StructuralEquivalence.java:
 * two node ids are compared over the node table, pairing the operator
 * nodes of the one with those of the other in a bijection, and the first
 * witness of a difference is reported.
 *
 * `phi` nodes are built as plain operator nodes, so they are compared as
 * operator nodes; a `theta` node always has its continuation, so the
 * assignment error never arises here.
 */
module StructuralEquivalence {
  import opened Wrappers
  import opened JavaLang
  import opened PegNodes

  datatype Witness =
    | EquivalenceError(expected: int, actual: int)
    | BijectionError(reassigned: int, other: int, assignedTo: int)

  /** The bijection after a comparison, and the witness it found, if any. */
  datatype Checked = Checked(bij: map<int, int>, found: Option<Witness>)

  /** The bijection pairs ids both ways. */
  ghost predicate Symmetric(m: map<int, int>) {
    forall k :: k in m ==> m[k] in m && m[m[k]] == k
  }

  /** `m2` keeps every pair of `m1`. */
  ghost predicate Keeps(m1: map<int, int>, m2: map<int, int>) {
    forall k :: k in m1 ==> k in m2 && m2[k] == m1[k]
  }

  /**
   * `checkBijection(x, y)`: when both ids are mapped the comparison is
   * decided (a witness unless they are mapped to each other); when one of
   * them is mapped it is a bijection error; otherwise the two are paired
   * and the comparison goes on.
   */
  function CheckBijection(m: map<int, int>, x: int, y: int): (r: (map<int, int>, Option<Option<Witness>>))
    ensures r.1.None? <==> x !in m && y !in m
    ensures r.1.None? ==> r.0 == m[x := y][y := x]
    ensures r.1.Some? ==> r.0 == m
    ensures r.1 == Some(None) <==> x in m && y in m && m[x] == y
    ensures r.1.Some? && r.1.value.Some? ==> r.1.value.value.BijectionError?
    ensures Keeps(m, r.0) && (Symmetric(m) ==> Symmetric(r.0))
  {
    if x in m && y in m then
      if m[x] != y then (m, Some(Some(BijectionError(x, y, m[x])))) else (m, Some(None))
    else if x in m then (m, Some(Some(BijectionError(x, y, m[x]))))
    else if y in m then (m, Some(Some(BijectionError(y, x, m[y]))))
    else (m[x := y][y := x], None)
  }

  /** The node classes that may stand opposite an operator node of class `a`. */
  predicate Matches(a: Shape, b: Shape)
    requires a.OpNode?
  {
    b.OpNode? && |a.children| == |b.children|
    && match a.cls
       case PlainOp => a.op == b.op
       case ThetaOp => b.cls == ThetaOp
       case HeapOp => b.cls == HeapOp
  }

  /** The table the comparison runs over: ids are keys of their own nodes, and children are older. */
  ghost predicate Ordered(t: Table) {
    Valid(t) && SelfKeyed(t)
  }

  /**
   * `expected.accept(visitor, actual)`.  Literals (and blank nodes) are
   * equivalent only to themselves.  An operator node equal to the other
   * node is equivalent unless it is a `theta`; otherwise the bijection is
   * consulted, the other node must be of the same kind, and the children
   * are compared left to right.  An id missing from the table is the
   * `null` a lookup gives, and the visit throws NullPointerException.
   */
  function Visit(t: Table, x: int, y: int, m: map<int, int>): (r: Outcome<Checked>)
    requires Ordered(t)
    ensures x !in t.ids || y !in t.ids ==> r == Throws(Exception(NullPointer, None))
    ensures r.Throws? ==> r.exc == Exception(NullPointer, None)
    ensures r.Returns? ==> Keeps(m, r.value.bij) && (Symmetric(m) ==> Symmetric(r.value.bij))
    ensures r.Returns? && r.value.found.None? && !t.ids[x].shape.OpNode? ==> x == y
    ensures r.Returns? && r.value.found.None? && t.ids[x].shape.OpNode? && (x != y || t.ids[x].shape.cls == ThetaOp)
            ==> x in r.value.bij && r.value.bij[x] == y
    decreases if x < 0 then 0 else x + 1, 1
  {
    if x !in t.ids || y !in t.ids then Throws(Exception(NullPointer, None))
    else
      var a := t.ids[x].shape;
      if !a.OpNode? then
        if x == y then Returns(Checked(m, None)) else Returns(Checked(m, Some(EquivalenceError(x, y))))
      else if x == y && a.cls != ThetaOp then Returns(Checked(m, None))
      else
        var (m1, decided) := CheckBijection(m, x, y);
        if decided.Some? then Returns(Checked(m1, decided.value))
        else if !Matches(a, t.ids[y].shape) then Returns(Checked(m1, Some(EquivalenceError(x, y))))
        else
          assert ChildrenBelow(t.ids[x]) && ChildrenOf(a) == a.children && t.ids[x].id == x;
          Children(t, x, a.children, t.ids[y].shape.children, m1)
  }

  /** The children compared pairwise, left to right, up to the first witness. */
  function Children(t: Table, x: int, cs: seq<int>, ds: seq<int>, m: map<int, int>): (r: Outcome<Checked>)
    requires Ordered(t) && |cs| == |ds| && 0 <= x
    requires forall i :: 0 <= i < |cs| ==> cs[i] < x
    ensures r.Throws? ==> r.exc == Exception(NullPointer, None)
    ensures r.Returns? ==> Keeps(m, r.value.bij) && (Symmetric(m) ==> Symmetric(r.value.bij))
    decreases if x < 0 then 0 else x + 1, 0, |cs|
  {
    if cs == [] then Returns(Checked(m, None))
    else
      var c :- Visit(t, cs[0], ds[0], m);
      if c.found.Some? then Returns(c)
      else Children(t, x, cs[1..], ds[1..], c.bij)
  }

  /** `checkEquivalence(expected, actual)`: IllegalArgumentException for an unknown id, else the first witness, if any. */
  function CheckEquivalence(t: Table, expected: int, actual: int): (r: Outcome<Option<Witness>>)
    requires Ordered(t)
    ensures expected !in t.ids || actual !in t.ids ==> r == Throws(Exception(IllegalArgument, None))
  {
    if expected !in t.ids || actual !in t.ids then Throws(Exception(IllegalArgument, None))
    else
      var c :- Visit(t, expected, actual, map[]);
      Returns(c.found)
  }

  /** Every child of every node is in the table: what `PegNode`'s constructors guarantee. */
  ghost predicate Closed(t: Table) {
    forall k :: k in t.ids ==> forall i :: 0 <= i < |ChildrenOf(t.ids[k].shape)| ==> ChildrenOf(t.ids[k].shape)[i] in t.ids
  }

  /** A bijection that maps each of its ids to itself. */
  ghost predicate Identity(m: map<int, int>) {
    forall k :: k in m ==> m[k] == k
  }

  /** A node compared with itself under a bijection that is the identity is equivalent, and the bijection stays the identity. */
  lemma {:induction false} VisitSelf(t: Table, x: int, m: map<int, int>)
    requires Ordered(t) && Closed(t) && x in t.ids && Identity(m)
    ensures Visit(t, x, x, m).Returns? && Visit(t, x, x, m).value.found.None? && Identity(Visit(t, x, x, m).value.bij)
    decreases if x < 0 then 0 else x + 1, 1
  {
    var a := t.ids[x].shape;
    if a.OpNode? && a.cls == ThetaOp {
      var (m1, decided) := CheckBijection(m, x, x);
      if decided.None? {
        assert ChildrenBelow(t.ids[x]) && ChildrenOf(a) == a.children && t.ids[x].id == x;
        ChildrenSelf(t, x, a.children, m1);
      }
    }
  }

  lemma {:induction false} ChildrenSelf(t: Table, x: int, cs: seq<int>, m: map<int, int>)
    requires Ordered(t) && Closed(t) && Identity(m) && 0 <= x
    requires forall i :: 0 <= i < |cs| ==> cs[i] < x && cs[i] in t.ids
    ensures Children(t, x, cs, cs, m).Returns? && Children(t, x, cs, cs, m).value.found.None?
    ensures Identity(Children(t, x, cs, cs, m).value.bij)
    decreases if x < 0 then 0 else x + 1, 0, |cs|
  {
    if cs != [] {
      VisitSelf(t, cs[0], m);
      ChildrenSelf(t, x, cs[1..], Visit(t, cs[0], cs[0], m).value.bij);
    }
  }

  /** Every node of a closed table is structurally equivalent to itself. */
  lemma CheckSelf(t: Table, x: int)
    requires Ordered(t) && Closed(t) && x in t.ids
    ensures CheckEquivalence(t, x, x) == Returns(None)
  {
    VisitSelf(t, x, map[]);
  }

  /** Two distinct literal ids are never equivalent: literals are deduplicated, so equal literals share an id. */
  lemma LiteralsByIdentity(t: Table, x: int, y: int)
    requires Ordered(t) && x in t.ids && y in t.ids && !t.ids[x].shape.OpNode? && x != y
    ensures CheckEquivalence(t, x, y) == Returns(Some(EquivalenceError(x, y)))
  {
  }
}
