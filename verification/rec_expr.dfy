/**
 * `RecExpr<Peg>`: a term stored as a list of nodes whose children are
 * indices of earlier entries, and its printing as an S-expression
 * (`to_sexp_string` in cornelius/src/peg.rs).
 */
module RecExpr {
  import opened PegTerm
  import Primitives
  import Decimal

  type Expr = seq<Peg>

  /** Every child index points to an earlier entry, so the entries form a DAG rooted at the last one. */
  predicate Acyclic(e: Expr) {
    forall j, k :: 0 <= j < |e| && 0 <= k < |Children(e[j])| ==> Children(e[j])[k] < j
  }

  /** `to_sexp_string(expr, i)`: a leaf prints its operator, any other node `(op child ...)`. */
  function ToSexp(e: Expr, i: nat): string
    requires Acyclic(e) && i < |e|
    decreases i, 1
  {
    var node := e[i];
    if Children(node) == [] then DisplayOp(node)
    else "(" + DisplayOp(node) + JoinChildren(e, i, Children(node)) + ")"
  }

  /** The children's S-expressions, each preceded by one space (`vec.join(" ")` after the operator). */
  function JoinChildren(e: Expr, parent: nat, ids: seq<nat>): string
    requires Acyclic(e) && parent < |e|
    requires forall k :: 0 <= k < |ids| ==> ids[k] < parent
    decreases parent, 0, |ids|
  {
    if ids == [] then "" else " " + ToSexp(e, ids[0]) + JoinChildren(e, parent, ids[1..])
  }

  function Count(s: string, c: char): nat {
    if s == [] then 0 else (if s[0] == c then 1 else 0) + Count(s[1..], c)
  }

  lemma {:induction false} CountConcat(s: string, t: string, c: char)
    ensures Count(s + t, c) == Count(s, c) + Count(t, c)
  {
    if s == [] {
      assert s + t == t;
    } else {
      assert (s + t)[0] == s[0] && (s + t)[1..] == s[1..] + t;
      CountConcat(s[1..], t, c);
    }
  }

  lemma {:induction false} CountAbsent(s: string, c: char)
    requires forall k :: 0 <= k < |s| ==> s[k] != c
    ensures Count(s, c) == 0
  {
    if s != [] {
      CountAbsent(s[1..], c);
    }
  }

  /** No node prints a parenthesis of its own (only a symbol could). */
  predicate ParenFreeNodes(e: Expr) {
    forall j, k :: 0 <= j < |e| && 0 <= k < |DisplayOp(e[j])| ==> DisplayOp(e[j])[k] != '(' && DisplayOp(e[j])[k] != ')'
  }

  /** The number of non-leaf nodes in the tree that unfolds from entry `i`. */
  function Internal(e: Expr, i: nat): nat
    requires Acyclic(e) && i < |e|
    decreases i, 1
  {
    if Children(e[i]) == [] then 0 else 1 + InternalAll(e, i, Children(e[i]))
  }

  function InternalAll(e: Expr, parent: nat, ids: seq<nat>): nat
    requires Acyclic(e) && parent < |e|
    requires forall k :: 0 <= k < |ids| ==> ids[k] < parent
    decreases parent, 0, |ids|
  {
    if ids == [] then 0 else Internal(e, ids[0]) + InternalAll(e, parent, ids[1..])
  }

  /**
   * The printed S-expression is balanced: it holds one `(` and one `)` for
   * every non-leaf node of the unfolded tree, provided no symbol contains a
   * parenthesis.
   */
  lemma {:induction false} SexpBalanced(e: Expr, i: nat)
    requires Acyclic(e) && i < |e| && ParenFreeNodes(e)
    ensures Count(ToSexp(e, i), '(') == Internal(e, i)
    ensures Count(ToSexp(e, i), ')') == Internal(e, i)
    decreases i, 1
  {
    var node := e[i];
    var op := DisplayOp(node);
    CountAbsent(op, '(');
    CountAbsent(op, ')');
    if Children(node) != [] {
      var inner := JoinChildren(e, i, Children(node));
      JoinBalanced(e, i, Children(node));
      CountConcat("(" + op, inner + ")", '(');
      CountConcat("(" + op, inner + ")", ')');
      CountConcat("(", op, '(');
      CountConcat("(", op, ')');
      CountConcat(inner, ")", '(');
      CountConcat(inner, ")", ')');
      assert ToSexp(e, i) == ("(" + op) + (inner + ")");
    }
  }

  lemma {:induction false} JoinBalanced(e: Expr, parent: nat, ids: seq<nat>)
    requires Acyclic(e) && parent < |e| && ParenFreeNodes(e)
    requires forall k :: 0 <= k < |ids| ==> ids[k] < parent
    ensures Count(JoinChildren(e, parent, ids), '(') == InternalAll(e, parent, ids)
    ensures Count(JoinChildren(e, parent, ids), ')') == InternalAll(e, parent, ids)
    decreases parent, 0, |ids|
  {
    if ids != [] {
      var head := ToSexp(e, ids[0]);
      var rest := JoinChildren(e, parent, ids[1..]);
      SexpBalanced(e, ids[0]);
      JoinBalanced(e, parent, ids[1..]);
      CountConcat(" " + head, rest, '(');
      CountConcat(" " + head, rest, ')');
      CountConcat(" ", head, '(');
      CountConcat(" ", head, ')');
      assert JoinChildren(e, parent, ids) == (" " + head) + rest;
    }
  }

  /** A node prints with an opening parenthesis exactly when it has children. */
  lemma ParenthesisedIffInterior(e: Expr, i: nat)
    requires Acyclic(e) && i < |e| && ParenFreeNodes(e)
    ensures |ToSexp(e, i)| > 0 ==> (ToSexp(e, i)[0] == '(' <==> Children(e[i]) != [])
  {
    if Children(e[i]) == [] && |DisplayOp(e[i])| > 0 {
      assert ToSexp(e, i)[0] == DisplayOp(e[i])[0];
    }
  }

  /** `[a, 2, (+ 0 1)]` prints as `(+ a 2)`. */
  lemma SexpExample()
    ensures var e: Expr := [Symbol("a"), Num(Primitives.JavaInt(2)), Node(Add, [0, 1])];
      Acyclic(e) && ToSexp(e, 2) == "(+ a 2)"
  {
    var e: Expr := [Symbol("a"), Num(Primitives.JavaInt(2)), Node(Add, [0, 1])];
    assert Decimal.NatToString(2) == "2";
    assert JoinChildren(e, 2, [1]) == " 2";
  }
}
