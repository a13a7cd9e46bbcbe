/**
 * The rewrite rules of cornelius/src/rewrites.rs and of the prototype
 * src/rewrites.rs, as data: each rule is a name, a left-hand and a
 * right-hand term pattern, and a side condition.
 *
 * A pattern is the term `rw!` parses: a pattern variable `?x`, a literal,
 * or an operator applied to sub-patterns.  A nullary form such as
 * `(length)` that names no operator of the language parses as a symbol.
 */
module Rewrites {
  import opened PegTerm
  import Primitives

  datatype Pattern =
    | PVar(name: string)
    | PLit(value: Peg)
    | PApp(op: Op, args: seq<Pattern>)

  /** `if is_not_const("?x")`, the only side condition the rules use. */
  datatype Condition = Always | NotConst(v: string)

  datatype Rule = Rule(name: string, lhs: Pattern, rhs: Pattern, cond: Condition)

  function V(x: string): Pattern { PVar(x) }
  function A(op: Op, args: seq<Pattern>): Pattern { PApp(op, args) }
  function I(x: int): Pattern requires Primitives.InI32(x) { PLit(Num(Primitives.JavaInt(x as Primitives.i32))) }
  function L(x: int): Pattern requires Primitives.InI64(x) { PLit(Long(Primitives.JavaLong(x as Primitives.i64))) }
  function B(b: bool): Pattern { PLit(Bool(b)) }
  function S(s: string): Pattern { PLit(Symbol(s)) }
  function R(name: string, lhs: Pattern, rhs: Pattern): Rule { Rule(name, lhs, rhs, Always) }
  function G(name: string, lhs: Pattern, rhs: Pattern, v: string): Rule { Rule(name, lhs, rhs, NotConst(v)) }

  /** The pattern variables a pattern mentions. */
  function Vars(p: Pattern): set<string>
    decreases p
  {
    match p
    case PVar(x) => {x}
    case PLit(_) => {}
    case PApp(_, args) => VarsAll(args)
  }

  function VarsAll(ps: seq<Pattern>): set<string>
    decreases ps
  {
    if ps == [] then {} else Vars(ps[0]) + VarsAll(ps[1..])
  }

  /** A rule whose right-hand side only uses variables the left-hand side binds, and whose condition names one of them. */
  predicate WellScoped(r: Rule) {
    Vars(r.rhs) <= Vars(r.lhs) && (r.cond.NotConst? ==> r.cond.v in Vars(r.lhs))
  }

  // ---------------------------------------------------------------------
  // cornelius/src/rewrites.rs
  // ---------------------------------------------------------------------

  function Arithmetic(): seq<Rule> {
    [ R("commute-add", A(Add, [V("a"), V("b")]), A(Add, [V("b"), V("a")])),
      R("commute-mul", A(Mul, [V("a"), V("b")]), A(Mul, [V("b"), V("a")])),
      R("associate-add", A(Add, [V("a"), A(Add, [V("b"), V("c")])]), A(Add, [A(Add, [V("a"), V("b")]), V("c")])),
      R("associate-mul", A(Mul, [V("a"), A(Mul, [V("b"), V("c")])]), A(Mul, [A(Mul, [V("a"), V("b")]), V("c")])),
      G("add-ident", A(Add, [V("a"), I(0)]), V("a"), "a"),
      G("mul-bot", A(Mul, [V("a"), I(0)]), I(0), "a"),
      G("mul-bot", A(Mul, [V("a"), L(0)]), L(0), "a"),
      G("mul-ident", A(Mul, [V("a"), I(1)]), V("a"), "a"),
      R("neg-zero", A(Neg, [I(0)]), I(0)),
      G("add-inv", A(Add, [V("a"), A(Neg, [V("a")])]), I(0), "a"),
      R("sub-to-add", A(Sub, [V("a"), V("b")]), A(Add, [V("a"), A(Neg, [V("b")])])) ]
  }

  function Logical(): seq<Rule> {
    [ R("commute-and", A(And, [V("a"), V("b")]), A(And, [V("b"), V("a")])),
      R("commute-or", A(Or, [V("a"), V("b")]), A(Or, [V("b"), V("a")])),
      R("associate-and", A(And, [V("a"), A(And, [V("b"), V("c")])]), A(And, [A(And, [V("a"), V("b")]), V("c")])),
      R("associate-or", A(Or, [V("a"), A(Or, [V("b"), V("c")])]), A(Or, [A(Or, [V("a"), V("b")]), V("c")])),
      R("and-ident", A(And, [V("a"), B(true)]), V("a")),
      R("or-ident", A(Or, [V("a"), B(false)]), V("a")),
      R("and-bot", A(And, [V("a"), B(false)]), B(false)),
      R("or-bot", A(Or, [V("a"), B(true)]), B(true)),
      R("not-inv", A(Not, [A(Not, [V("a")])]), V("a")),
      R("not-dist-and", A(Not, [A(And, [V("a"), V("b")])]), A(Or, [A(Not, [V("a")]), A(Not, [V("b")])])),
      R("not-dist-or", A(Not, [A(Or, [V("a"), V("b")])]), A(And, [A(Not, [V("a")]), A(Not, [V("b")])])),
      R("a-and-not-a", A(And, [V("a"), A(Not, [V("a")])]), B(false)),
      R("a-or-not-a", A(Or, [V("a"), A(Not, [V("a")])]), B(true)),
      R("eq-comm", A(Equ, [V("a"), V("b")]), A(Equ, [V("b"), V("a")])),
      R("not-not", A(Not, [A(Not, [V("a")])]), V("a")),
      R("not-eq-to-neq", A(Not, [A(Equ, [V("a"), V("b")])]), A(Neq, [V("a"), V("b")])),
      R("neq-to-not-eq", A(Neq, [V("a"), V("b")]), A(Not, [A(Equ, [V("a"), V("b")])])),
      R("phi-as-cond", A(Phi, [V("c"), B(true), B(false)]), V("c")) ]
  }

  function Equality(): seq<Rule> {
    [ R("refl", A(Equ, [V("a"), V("a")]), B(true)),
      R("eq-shuff1", A(Equ, [A(Add, [V("a"), V("b")]), V("c")]), A(Equ, [V("a"), A(Sub, [V("c"), V("b")])])),
      R("eq-shuff2", A(Equ, [V("a"), A(Sub, [V("c"), V("b")])]), A(Equ, [A(Add, [V("a"), V("b")]), V("c")])) ]
  }

  function Bitwise(): seq<Rule> {
    [ R("commute-bin-and", A(BinAnd, [V("a"), V("b")]), A(BinAnd, [V("b"), V("a")])),
      R("commute-bin-or", A(BinOr, [V("a"), V("b")]), A(BinOr, [V("b"), V("a")])),
      R("associate-bin-and", A(BinAnd, [V("a"), A(BinAnd, [V("b"), V("c")])]), A(BinAnd, [A(BinAnd, [V("a"), V("b")]), V("c")])),
      R("associate-bin-or", A(BinOr, [V("a"), A(BinOr, [V("b"), V("c")])]), A(BinOr, [A(BinOr, [V("a"), V("b")]), V("c")])),
      R("bin-and-ident", A(BinAnd, [V("a"), I(-1)]), V("a")),
      R("bin-or-ident", A(BinOr, [V("a"), I(0)]), V("a")),
      R("bin-and-bot", A(BinAnd, [V("a"), I(0)]), I(0)),
      R("bin-or-bot", A(BinOr, [V("a"), I(-1)]), I(-1)) ]
  }

  /** `(phi ?c ?t ?e)`. */
  function Branch(): Pattern { A(Phi, [V("c"), V("t"), V("e")]) }

  /** `(op ?a (phi ?c ?t ?e)) => (phi ?c (op ?a ?t) (op ?a ?e))`. */
  function LeftOverPhi(name: string, op: Op, a: string): Rule {
    R(name, A(op, [V(a), Branch()]), A(Phi, [V("c"), A(op, [V(a), V("t")]), A(op, [V(a), V("e")])]))
  }

  /** `(op (phi ?c ?t ?e) ?a) => (phi ?c (op ?t ?a) (op ?e ?a))`. */
  function RightOverPhi(name: string, op: Op, a: string): Rule {
    R(name, A(op, [Branch(), V(a)]), A(Phi, [V("c"), A(op, [V("t"), V(a)]), A(op, [V("e"), V(a)])]))
  }

  function OverPhi(): seq<Rule> {
    [ RightOverPhi("plus-over-phi", Add, "rhs"),
      LeftOverPhi("gt-left-over-phi", Gt, "a"),
      LeftOverPhi("ge-left-over-phi", Gte, "a"),
      LeftOverPhi("lt-left-over-phi", Lt, "a"),
      LeftOverPhi("le-left-over-phi", Lte, "a"),
      RightOverPhi("gt-right-over-phi", Gt, "a"),
      RightOverPhi("ge-right-over-phi", Gte, "a"),
      RightOverPhi("lt-right-over-phi", Lt, "a"),
      RightOverPhi("le-right-over-phi", Lte, "a"),
      RightOverPhi("and-right-over-phi", And, "a"),
      RightOverPhi("or-right-over-phi", Or, "a"),
      R("not-over-phi", A(Not, [Branch()]), A(Phi, [V("c"), A(Not, [V("t")]), A(Not, [V("e")])])),
      LeftOverPhi("eq-over-phi", Equ, "a") ]
  }

  /** `(phi ?c (op ?a ?t) (op ?a ?e)) => (op ?a (phi ?c ?t ?e))`. */
  function InvLeftOverPhi(name: string, op: Op, a: string): Rule {
    R(name, A(Phi, [V("c"), A(op, [V(a), V("t")]), A(op, [V(a), V("e")])]), A(op, [V(a), Branch()]))
  }

  /** `(phi ?c (op ?t ?a) (op ?e ?a)) => (op (phi ?c ?t ?e) ?a)`. */
  function InvRightOverPhi(name: string, op: Op, a: string): Rule {
    R(name, A(Phi, [V("c"), A(op, [V("t"), V(a)]), A(op, [V("e"), V(a)])]), A(op, [Branch(), V(a)]))
  }

  function InvOverPhi(): seq<Rule> {
    [ InvRightOverPhi("inv-plus-over-phi", Add, "rhs"),
      InvLeftOverPhi("inv-gt-left-over-phi", Gt, "a"),
      InvLeftOverPhi("inv-ge-left-over-phi", Gte, "a"),
      InvLeftOverPhi("inv-lt-left-over-phi", Lt, "a"),
      InvLeftOverPhi("inv-le-left-over-phi", Lte, "a"),
      InvRightOverPhi("inv-gt-right-over-phi", Gt, "a"),
      InvRightOverPhi("inv-ge-right-over-phi", Gte, "a"),
      InvRightOverPhi("inv-lt-right-over-phi", Lt, "a"),
      InvRightOverPhi("inv-le-right-over-phi", Lte, "a"),
      InvRightOverPhi("inv-and-right-over-phi", And, "a"),
      InvRightOverPhi("inv-or-right-over-phi", Or, "a"),
      R("inv-not-over-phi", A(Phi, [V("c"), A(Not, [V("t")]), A(Not, [V("e")])]), A(Not, [Branch()])),
      InvLeftOverPhi("inv-eq-over-phi", Equ, "a") ]
  }

  function Ordering(): seq<Rule> {
    [ R("lt-comp", A(Lt, [V("a"), V("b")]), A(Not, [A(Gte, [V("a"), V("b")])])),
      R("gt-comp", A(Gt, [V("a"), V("b")]), A(Not, [A(Lte, [V("a"), V("b")])])),
      R("lte-comp", A(Lte, [V("a"), V("b")]), A(Not, [A(Gt, [V("a"), V("b")])])),
      R("gte-comp", A(Gte, [V("a"), V("b")]), A(Not, [A(Lt, [V("a"), V("b")])])),
      R("gte-split", A(Gte, [V("a"), V("b")]), A(Or, [A(Gt, [V("a"), V("b")]), A(Equ, [V("a"), V("b")])])),
      R("lte-split", A(Lte, [V("a"), V("b")]), A(Or, [A(Lt, [V("a"), V("b")]), A(Equ, [V("a"), V("b")])])) ]
  }

  function Branching(): seq<Rule> {
    [ R("if-true", A(Phi, [B(true), V("x"), V("y")]), V("x")),
      R("switch-branching", A(Phi, [V("c"), V("x"), V("y")]), A(Phi, [A(Not, [V("c")]), V("y"), V("x")])),
      R("if-false", A(Phi, [B(false), V("x"), V("y")]), V("y")),
      R("nesting-and", A(Phi, [A(And, [V("a"), V("b")]), V("t"), V("e")]), A(Phi, [V("a"), A(Phi, [V("b"), V("t"), V("e")]), V("e")])),
      R("same-branch", A(Phi, [V("c"), V("t"), V("t")]), V("t")) ]
  }

  function Heapy(): seq<Rule> {
    [ R("rd-wr", A(Rd, [V("path"), A(Wr, [V("path"), V("val"), V("heap")])]), V("val")) ]
  }

  /** `(var ?v "T")`. */
  function Typed(t: string): Pattern { A(Var, [V("v"), S(t)]) }

  /** `(invoke->peg (invoke ?hp (var ?v "T") (m) (actuals args...)))`. */
  function Call(hp: string, t: string, m: string, actuals: seq<Pattern>): Pattern {
    A(InvokeToPeg, [A(Invoke, [V(hp), Typed(t), S(m), A(Actuals, actuals)])])
  }

  function TypeGuided(): seq<Rule> {
    [ R("array-length", A(Lt, [A(Rd, [A(AccessPath, [Typed("Array"), A(Derefs, [S("length")])]), V("h")]), I(0)]), B(false)),
      R("collection-size", A(Lt, [Call("hp", "java.util.Collection", "size", []), I(0)]), B(false)),
      R("string-length", A(Lt, [Call("hp", "java.lang.String", "length", []), I(0)]), B(false)),
      R("string-index-of", A(Lt, [Call("hp", "java.lang.String", "indexOf", [V("a1")]), I(-1)]), B(false)),
      R("string-last-index-of", A(Lt, [Call("hp", "java.lang.String", "lastIndexOf", [V("a1")]), I(-1)]), B(false)) ]
  }

  function Strings(): seq<Rule> {
    [ R("string-starts-with",
        A(Or, [Call("hp1", "java.lang.String", "startsWith", [V("a")]), Call("hp2", "java.lang.String", "startsWith", [V("b")])]),
        A(Neq, [Call("hp1", "java.lang.String", "startsWith", [V("a")]), Call("hp2", "java.lang.String", "startsWith", [V("b")])])),
      R("string-starts-with-empty", Call("hp", "java.lang.String", "startsWith", [S("\"\"")]), B(true)) ]
  }

  /** `rw_rules()` of cornelius/src/rewrites.rs, in order. */
  function Rules(): seq<Rule> {
    Arithmetic() + Logical() + Equality() + Bitwise() + OverPhi() + InvOverPhi() + Ordering() + Branching()
      + Heapy() + TypeGuided() + Strings()
  }

  // ---------------------------------------------------------------------
  // src/rewrites.rs (the prototype)
  // ---------------------------------------------------------------------

  /** The prototype's arithmetic rules: no side conditions and no `long` variant of `mul-bot`. */
  function LegacyArithmetic(): seq<Rule> {
    [ R("commute-add", A(Add, [V("a"), V("b")]), A(Add, [V("b"), V("a")])),
      R("commute-mul", A(Mul, [V("a"), V("b")]), A(Mul, [V("b"), V("a")])),
      R("associate-add", A(Add, [V("a"), A(Add, [V("b"), V("c")])]), A(Add, [A(Add, [V("a"), V("b")]), V("c")])),
      R("associate-mul", A(Mul, [V("a"), A(Mul, [V("b"), V("c")])]), A(Mul, [A(Mul, [V("a"), V("b")]), V("c")])),
      R("add-ident", A(Add, [V("a"), I(0)]), V("a")),
      R("mul-bot", A(Mul, [V("a"), I(0)]), I(0)),
      R("mul-ident", A(Mul, [V("a"), I(1)]), V("a")),
      R("neg-zero", A(Neg, [I(0)]), I(0)),
      R("add-inv", A(Add, [V("a"), A(Neg, [V("a")])]), I(0)),
      R("sub-to-add", A(Sub, [V("a"), V("b")]), A(Add, [V("a"), A(Neg, [V("b")])])) ]
  }

  /** `rw_rules()` of src/rewrites.rs, in order (the commented-out rules are not part of it). */
  function LegacyRules(): seq<Rule> {
    LegacyArithmetic() + Logical() + Equality() + Bitwise() + OverPhi() + InvOverPhi() + Ordering() + Branching()
  }

  // ---------------------------------------------------------------------
  // Properties of the rule sets
  // ---------------------------------------------------------------------

  function Names(rs: seq<Rule>): set<string> {
    set r | r in rs :: r.name
  }

  /** The rule without its side condition. */
  function Unguarded(r: Rule): Rule {
    r.(cond := Always)
  }

  /** The prototype's arithmetic rules are cornelius's with the side conditions dropped and the `long` `mul-bot` removed. */
  lemma LegacyArithmeticIsUnguarded()
    ensures |Arithmetic()| == 11 && |LegacyArithmetic()| == 10
    ensures forall k :: 0 <= k < 6 ==> LegacyArithmetic()[k] == Unguarded(Arithmetic()[k])
    ensures forall k :: 6 <= k < 10 ==> LegacyArithmetic()[k] == Unguarded(Arithmetic()[k + 1])
  {
  }

  /** The guarded rules are exactly `add-ident`, both `mul-bot`s, `mul-ident` and `add-inv`, each guarded on `?a`. */
  lemma GuardedRules()
    ensures forall k :: 0 <= k < |Arithmetic()| ==>
      (Arithmetic()[k].cond.NotConst? <==> k in {4, 5, 6, 7, 9})
    ensures forall k :: 0 <= k < |Arithmetic()| && Arithmetic()[k].cond.NotConst? ==> Arithmetic()[k].cond.v == "a"
    ensures Arithmetic()[6].name == Arithmetic()[5].name == "mul-bot"
  {
  }

  /** Every `inv-` rule is the converse of the distribution rule at the same position. */
  lemma InverseRulesAreConverses()
    ensures |OverPhi()| == |InvOverPhi()| == 13
    ensures forall k :: 0 <= k < 13 ==>
      InvOverPhi()[k].lhs == OverPhi()[k].rhs && InvOverPhi()[k].rhs == OverPhi()[k].lhs
  {
  }

  predicate AllWellScoped(rs: seq<Rule>) {
    forall k :: 0 <= k < |rs| ==> WellScoped(rs[k])
  }

  lemma ArithmeticWellScoped()
    ensures AllWellScoped(Arithmetic())
  {
  }

  lemma LogicalWellScoped()
    ensures AllWellScoped(Logical())
  {
  }

  lemma EqualityWellScoped()
    ensures AllWellScoped(Equality())
  {
  }

  lemma BitwiseWellScoped()
    ensures AllWellScoped(Bitwise())
  {
  }

  lemma VarsOfTwo(p: Pattern, q: Pattern)
    ensures VarsAll([p, q]) == Vars(p) + Vars(q)
  {
    assert [p, q][1..] == [q];
    assert [q][1..] == [];
    assert VarsAll([q]) == Vars(q) + VarsAll([]);
  }

  lemma VarsOfThree(p: Pattern, q: Pattern, r: Pattern)
    ensures VarsAll([p, q, r]) == Vars(p) + Vars(q) + Vars(r)
  {
    assert [p, q, r][1..] == [q, r];
    VarsOfTwo(q, r);
  }

  lemma DistributionWellScoped(name: string, op: Op, a: string)
    ensures WellScoped(LeftOverPhi(name, op, a)) && WellScoped(RightOverPhi(name, op, a))
    ensures WellScoped(InvLeftOverPhi(name, op, a)) && WellScoped(InvRightOverPhi(name, op, a))
  {
    VarsOfThree(V("c"), V("t"), V("e"));
    VarsOfTwo(V(a), Branch());
    VarsOfTwo(Branch(), V(a));
    VarsOfTwo(V(a), V("t"));
    VarsOfTwo(V(a), V("e"));
    VarsOfTwo(V("t"), V(a));
    VarsOfTwo(V("e"), V(a));
    VarsOfThree(V("c"), A(op, [V(a), V("t")]), A(op, [V(a), V("e")]));
    VarsOfThree(V("c"), A(op, [V("t"), V(a)]), A(op, [V("e"), V(a)]));
  }

  lemma OverPhiWellScoped0()
    ensures forall k :: 0 <= k < 2 && k < |OverPhi()| ==> WellScoped(OverPhi()[k])
  {
    DistributionWellScoped("plus-over-phi", Add, "rhs");
    DistributionWellScoped("gt-left-over-phi", Gt, "a");
  }

  lemma OverPhiWellScoped2()
    ensures forall k :: 2 <= k < 4 && k < |OverPhi()| ==> WellScoped(OverPhi()[k])
  {
    DistributionWellScoped("ge-left-over-phi", Gte, "a");
    DistributionWellScoped("lt-left-over-phi", Lt, "a");
  }

  lemma OverPhiWellScoped4()
    ensures forall k :: 4 <= k < 6 && k < |OverPhi()| ==> WellScoped(OverPhi()[k])
  {
    DistributionWellScoped("le-left-over-phi", Lte, "a");
    DistributionWellScoped("gt-right-over-phi", Gt, "a");
  }

  lemma OverPhiWellScoped6()
    ensures forall k :: 6 <= k < 8 && k < |OverPhi()| ==> WellScoped(OverPhi()[k])
  {
    DistributionWellScoped("ge-right-over-phi", Gte, "a");
    DistributionWellScoped("lt-right-over-phi", Lt, "a");
  }

  lemma OverPhiWellScoped8()
    ensures forall k :: 8 <= k < 10 && k < |OverPhi()| ==> WellScoped(OverPhi()[k])
  {
    DistributionWellScoped("le-right-over-phi", Lte, "a");
    DistributionWellScoped("and-right-over-phi", And, "a");
  }

  lemma OverPhiWellScoped10()
    ensures forall k :: 10 <= k < 12 && k < |OverPhi()| ==> WellScoped(OverPhi()[k])
  {
    DistributionWellScoped("or-right-over-phi", Or, "a");
    NotOverPhiWellScoped();
  }

  lemma OverPhiWellScoped12()
    ensures forall k :: 12 <= k < 13 && k < |OverPhi()| ==> WellScoped(OverPhi()[k])
  {
    DistributionWellScoped("eq-over-phi", Equ, "a");
  }

  lemma OverPhiWellScoped()
    ensures AllWellScoped(OverPhi())
  {
    OverPhiWellScoped0();
    OverPhiWellScoped2();
    OverPhiWellScoped4();
    OverPhiWellScoped6();
    OverPhiWellScoped8();
    OverPhiWellScoped10();
    OverPhiWellScoped12();
  }


  lemma NotOverPhiWellScoped()
    ensures WellScoped(OverPhi()[11]) && WellScoped(InvOverPhi()[11])
  {
    VarsOfThree(V("c"), V("t"), V("e"));
    VarsOfThree(V("c"), A(Not, [V("t")]), A(Not, [V("e")]));
  }

  lemma InvOverPhiWellScoped0()
    ensures forall k :: 0 <= k < 2 && k < |InvOverPhi()| ==> WellScoped(InvOverPhi()[k])
  {
    DistributionWellScoped("inv-plus-over-phi", Add, "rhs");
    DistributionWellScoped("inv-gt-left-over-phi", Gt, "a");
  }

  lemma InvOverPhiWellScoped2()
    ensures forall k :: 2 <= k < 4 && k < |InvOverPhi()| ==> WellScoped(InvOverPhi()[k])
  {
    DistributionWellScoped("inv-ge-left-over-phi", Gte, "a");
    DistributionWellScoped("inv-lt-left-over-phi", Lt, "a");
  }

  lemma InvOverPhiWellScoped4()
    ensures forall k :: 4 <= k < 6 && k < |InvOverPhi()| ==> WellScoped(InvOverPhi()[k])
  {
    DistributionWellScoped("inv-le-left-over-phi", Lte, "a");
    DistributionWellScoped("inv-gt-right-over-phi", Gt, "a");
  }

  lemma InvOverPhiWellScoped6()
    ensures forall k :: 6 <= k < 8 && k < |InvOverPhi()| ==> WellScoped(InvOverPhi()[k])
  {
    DistributionWellScoped("inv-ge-right-over-phi", Gte, "a");
    DistributionWellScoped("inv-lt-right-over-phi", Lt, "a");
  }

  lemma InvOverPhiWellScoped8()
    ensures forall k :: 8 <= k < 10 && k < |InvOverPhi()| ==> WellScoped(InvOverPhi()[k])
  {
    DistributionWellScoped("inv-le-right-over-phi", Lte, "a");
    DistributionWellScoped("inv-and-right-over-phi", And, "a");
  }

  lemma InvOverPhiWellScoped10()
    ensures forall k :: 10 <= k < 12 && k < |InvOverPhi()| ==> WellScoped(InvOverPhi()[k])
  {
    DistributionWellScoped("inv-or-right-over-phi", Or, "a");
    NotOverPhiWellScoped();
  }

  lemma InvOverPhiWellScoped12()
    ensures forall k :: 12 <= k < 13 && k < |InvOverPhi()| ==> WellScoped(InvOverPhi()[k])
  {
    DistributionWellScoped("inv-eq-over-phi", Equ, "a");
  }

  lemma InvOverPhiWellScoped()
    ensures AllWellScoped(InvOverPhi())
  {
    InvOverPhiWellScoped0();
    InvOverPhiWellScoped2();
    InvOverPhiWellScoped4();
    InvOverPhiWellScoped6();
    InvOverPhiWellScoped8();
    InvOverPhiWellScoped10();
    InvOverPhiWellScoped12();
  }


  lemma OrderingWellScoped()
    ensures AllWellScoped(Ordering())
  {
  }

  lemma BranchingWellScoped()
    ensures AllWellScoped(Branching())
  {
  }

  lemma HeapyWellScoped()
    ensures AllWellScoped(Heapy())
  {
  }

  lemma TypeGuidedWellScoped()
    ensures AllWellScoped(TypeGuided())
  {
  }

  lemma StringsWellScoped()
    ensures AllWellScoped(Strings())
  {
  }

  lemma LegacyArithmeticWellScoped()
    ensures AllWellScoped(LegacyArithmetic())
  {
  }

  /**
   * Every rule uses on its right-hand side only variables its left-hand
   * side binds, and guards on one of them; egg rejects any other rule when
   * `rw!` builds it.
   */
  lemma RulesWellScoped()
    ensures forall r :: r in Rules() ==> WellScoped(r)
    ensures forall r :: r in LegacyRules() ==> WellScoped(r)
  {
    ArithmeticWellScoped();
    LogicalWellScoped();
    EqualityWellScoped();
    BitwiseWellScoped();
    OverPhiWellScoped();
    InvOverPhiWellScoped();
    OrderingWellScoped();
    BranchingWellScoped();
    HeapyWellScoped();
    TypeGuidedWellScoped();
    StringsWellScoped();
    LegacyArithmeticWellScoped();
  }

  /** `not-inv` and `not-not` are the same rule under two names. */
  lemma DuplicateNegationRule()
    ensures Logical()[8].name == "not-inv" && Logical()[14].name == "not-not"
    ensures Logical()[8].lhs == Logical()[14].lhs && Logical()[8].rhs == Logical()[14].rhs
  {
  }
}
