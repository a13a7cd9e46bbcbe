/**
 * Soundness of the rewrite rules of cornelius/src/rewrites.rs against the
 * evaluator of cornelius/src/evaluator.rs.
 *
 * A rule is sound when, for every assignment of evaluated values to its
 * pattern variables, its two sides have the same outcome under the
 * evaluator's semantics (`Apply2`, `Apply1`, `Select` and `Literal`).  Some
 * rules hold only when a variable is known to be an `int` or a `boolean`.
 * Each such typing is an assumption on the rule's pattern variables,
 * justified rule by rule, and not a guarantee of Java's type checker: Java
 * also accepts a `long` operand for `mul-bot`, `bin-and-bot` and
 * `bin-or-bot`, where soundness rests on the evaluator having no `long`
 * values at all (see `LongMulBotSound`).
 */
module RuleSoundness {
  import opened Primitives
  import opened PegTerm
  import opened Evaluator
  import opened Rewrites

  /** An assignment of values to pattern variables. */
  type Subst = string -> Peg

  /** The values the evaluator can produce. */
  predicate IsValue(v: Peg) {
    v.Num? || v.Bool? || v == ErrorValue || v == NullNode || v == UnitNode
  }

  /** The outcome of a rule's term when its variables stand for the given values. */
  function EvalTerm(p: Pattern, s: Subst): Outcome
    decreases p
  {
    match p
    case PVar(x) => Ok(s(x))
    case PLit(v) => Literal(v)
    case PApp(op, args) =>
      if IsStrictBinary(op) && |args| == 2 then Apply2(op, EvalTerm(args[0], s), EvalTerm(args[1], s))
      else if op == Op.Not && |args| == 1 then Apply1(EvalTerm(args[0], s))
      else if op == Op.Phi && |args| == 3 then Select(EvalTerm(args[0], s), EvalTerm(args[1], s), EvalTerm(args[2], s))
      else if IsHeapy(op) || op == Op.Var then Err
      else if args == [] then Literal(Node(op, []))
      else Panic
  }

  datatype Kind = IntKind | BoolKind | GroundKind

  predicate HasKind(v: Peg, k: Kind) {
    match k
    case IntKind => v.Num?
    case BoolKind => v.Bool?
    case GroundKind => v.Num? || v.Bool?
  }

  type Typing = map<string, Kind>

  /** Every variable holds a value, and every typed variable a value of its kind. */
  ghost predicate Admissible(s: Subst, t: Typing) {
    (forall x :: IsValue(s(x))) && (forall x :: x in t ==> HasKind(s(x), t[x]))
  }

  /** The two terms have the same outcome under every admissible assignment. */
  ghost predicate Equivalent(lhs: Pattern, rhs: Pattern, t: Typing) {
    forall s :: Admissible(s, t) ==> EvalTerm(lhs, s) == EvalTerm(rhs, s)
  }

  /** Rewriting with the rule, in either direction, preserves the outcome. */
  ghost predicate Sound(r: Rule, t: Typing) {
    Equivalent(r.lhs, r.rhs, t)
  }

  /** The variable `x` is typed with kind `k`. */
  predicate HasType(t: Typing, x: string, k: Kind) {
    x in t && t[x] == k
  }

  /** The typing each rule needs: the variables that must hold an `int` or a `boolean`. */
  function RuleTyping(name: string): Typing {
    if name in {"add-ident", "mul-bot", "mul-ident", "bin-and-ident", "bin-or-ident", "bin-and-bot", "bin-or-bot"} then
      map["a" := IntKind]
    else if name in {"and-ident", "or-ident", "and-bot", "or-bot", "not-inv", "not-not", "a-and-not-a", "a-or-not-a"} then
      map["a" := BoolKind]
    else if name in {"phi-as-cond", "same-branch"} then map["c" := BoolKind]
    else if name == "refl" then map["a" := GroundKind]
    else if name in {"eq-shuff1", "eq-shuff2"} then map["a" := IntKind, "b" := IntKind, "c" := IntKind]
    else if name == "nesting-and" then map["a" := BoolKind, "b" := BoolKind]
    else map[]
  }

  // ---------------------------------------------------------------------
  // Wrapping arithmetic
  // ---------------------------------------------------------------------

  lemma ModShift(w: int, k: int)
    ensures (w + TWO_32 * k) % TWO_32 == w % TWO_32
  {
    ModUnique(w + TWO_32 * k, TWO_32, w / TWO_32 + k, w % TWO_32);
  }

  lemma AddCongruent(x: int, y: int, z: int)
    requires x % TWO_32 == y % TWO_32
    ensures (x + z) % TWO_32 == (y + z) % TWO_32
  {
    var k := x / TWO_32 - y / TWO_32;
    assert x + z == (y + z) + TWO_32 * k;
    ModShift(y + z, k);
  }

  lemma MulCongruent(x: int, y: int, z: int)
    requires x % TWO_32 == y % TWO_32
    ensures (x * z) % TWO_32 == (y * z) % TWO_32
  {
    var k := x / TWO_32 - y / TWO_32;
    assert x == y + TWO_32 * k;
    assert x * z == y * z + TWO_32 * (k * z);
    ModShift(y * z, k * z);
  }

  /** Two `int`s with the same low 32 bits are equal. */
  lemma SameLowBits(a: JavaInt, b: JavaInt)
    requires a.v as int % TWO_32 == b.v as int % TWO_32
    ensures a == b
  {
  }

  lemma AddAssociates(a: JavaInt, b: JavaInt, c: JavaInt)
    ensures IntInt(ArithOp.Add, IntInt(ArithOp.Add, a, b), c) == IntInt(ArithOp.Add, a, IntInt(ArithOp.Add, b, c))
  {
    var x, y, z := a.v as int, b.v as int, c.v as int;
    var ab, bc := IntInt(ArithOp.Add, a, b).v as int, IntInt(ArithOp.Add, b, c).v as int;
    AddCongruent(ab, x + y, z);
    AddCongruent(bc, y + z, x);
    assert (ab + z) % TWO_32 == (x + (y + z)) % TWO_32;
    assert (x + bc) % TWO_32 == (x + (y + z)) % TWO_32;
    SameLowBits(IntInt(ArithOp.Add, IntInt(ArithOp.Add, a, b), c), IntInt(ArithOp.Add, a, IntInt(ArithOp.Add, b, c)));
  }

  lemma MulAssociates(a: JavaInt, b: JavaInt, c: JavaInt)
    ensures IntInt(ArithOp.Mul, IntInt(ArithOp.Mul, a, b), c) == IntInt(ArithOp.Mul, a, IntInt(ArithOp.Mul, b, c))
  {
    var x, y, z := a.v as int, b.v as int, c.v as int;
    var ab, bc := IntInt(ArithOp.Mul, a, b).v as int, IntInt(ArithOp.Mul, b, c).v as int;
    MulCongruent(ab, x * y, z);
    MulCongruent(bc, y * z, x);
    assert (x * y) * z == x * (y * z) == (y * z) * x;
    assert bc * x == x * bc;
    SameLowBits(IntInt(ArithOp.Mul, IntInt(ArithOp.Mul, a, b), c), IntInt(ArithOp.Mul, a, IntInt(ArithOp.Mul, b, c)));
  }

  /** `a + b == c` exactly when `a == c - b`, in wrapping `int` arithmetic. */
  lemma ShuffleEquation(a: JavaInt, b: JavaInt, c: JavaInt)
    ensures (IntInt(ArithOp.Add, a, b) == c) <==> (a == IntInt(ArithOp.Sub, c, b))
  {
    var x, y, z := a.v as int, b.v as int, c.v as int;
    var sum, diff := IntInt(ArithOp.Add, a, b), IntInt(ArithOp.Sub, c, b);
    if sum == c {
      AddCongruent(z, x + y, -y);
      assert (z - y) % TWO_32 == x % TWO_32;
      SameLowBits(a, diff);
    }
    if a == diff {
      AddCongruent(x, z - y, y);
      assert (x + y) % TWO_32 == z % TWO_32;
      SameLowBits(sum, c);
    }
  }

  function BitOpFor(op: Op): BitOp
    requires op == Op.BinAnd || op == Op.BinOr
  {
    if op == Op.BinAnd then BitOp.And else BitOp.Or
  }

  lemma BitwiseCommutes(op: BitOp, a: i32, b: i32)
    ensures Bitwise32(op, a, b) == Bitwise32(op, b, a)
  {
    BitsCommute(op, Unsigned(a as int, 32), Unsigned(b as int, 32), 32);
  }

  lemma BitwiseAssociates(op: BitOp, a: i32, b: i32, c: i32)
    ensures Bitwise32(op, Bitwise32(op, a, b), c) == Bitwise32(op, a, Bitwise32(op, b, c))
  {
    var ua, ub, uc := Unsigned(a as int, 32), Unsigned(b as int, 32), Unsigned(c as int, 32);
    BitsAssociate(op, ua, ub, uc, 32);
  }

  /** An `i32` is determined by its 32-bit pattern. */
  lemma SamePattern(r: i32, a: i32)
    requires Unsigned(r as int, 32) == Unsigned(a as int, 32)
    ensures r == a
  {
    Pow2Values();
    SignedUnsigned(r as int, 31);
    SignedUnsigned(a as int, 31);
  }

  lemma MinusOnePattern()
    ensures Unsigned(-1, 32) == Pow2(32) - 1 && Unsigned(0, 32) == 0
  {
    Pow2Values();
  }

  /** `x & -1 == x`. */
  lemma AndAllOnes(a: i32)
    ensures Bitwise32(BitOp.And, a, -1) == a
  {
    var u := Unsigned(a as int, 32);
    var r := Bitwise32(BitOp.And, a, -1);
    MinusOnePattern();
    BitsAndAllOnes(u, 32);
    ModUnique(u, Pow2(32), 0, u);
    assert Unsigned(r as int, 32) == u;
    SamePattern(r, a);
  }

  /** `x | -1 == -1`. */
  lemma OrAllOnes(a: i32)
    ensures Bitwise32(BitOp.Or, a, -1) == -1
  {
    MinusOnePattern();
    BitsOrAllOnes(Unsigned(a as int, 32), 32);
    SamePattern(Bitwise32(BitOp.Or, a, -1), -1);
  }

  /** `x | 0 == x`. */
  lemma OrZero(a: i32)
    ensures Bitwise32(BitOp.Or, a, 0) == a
  {
    var u := Unsigned(a as int, 32);
    MinusOnePattern();
    ModUnique(u, Pow2(32), 0, u);
    BitsZero(u, 32);
    SamePattern(Bitwise32(BitOp.Or, a, 0), a);
  }

  /** `x & 0 == 0`. */
  lemma AndZero(a: i32)
    ensures Bitwise32(BitOp.And, a, 0) == 0
  {
    MinusOnePattern();
    BitsZero(Unsigned(a as int, 32), 32);
    SamePattern(Bitwise32(BitOp.And, a, 0), 0);
  }

  // ---------------------------------------------------------------------
  // Evaluating patterns
  // ---------------------------------------------------------------------

  lemma EvalBinary(op: Op, p: Pattern, q: Pattern, s: Subst)
    requires IsStrictBinary(op)
    ensures EvalTerm(A(op, [p, q]), s) == Apply2(op, EvalTerm(p, s), EvalTerm(q, s))
  {
  }

  lemma EvalNot(p: Pattern, s: Subst)
    ensures EvalTerm(A(Op.Not, [p]), s) == Apply1(EvalTerm(p, s))
  {
  }

  lemma EvalPhi(c: Pattern, t: Pattern, e: Pattern, s: Subst)
    ensures EvalTerm(A(Op.Phi, [c, t, e]), s) == Select(EvalTerm(c, s), EvalTerm(t, s), EvalTerm(e, s))
  {
  }

  // ---------------------------------------------------------------------
  // Sound rules
  // ---------------------------------------------------------------------

  /** `commute-add`, `commute-mul`, `commute-and`, `commute-or`, `eq-comm`, `commute-bin-and`, `commute-bin-or`. */
  lemma CommuteSound(op: Op, t: Typing)
    requires op in {Op.Add, Op.Mul, Op.And, Op.Or, Op.Equ, Op.BinAnd, Op.BinOr}
    ensures Equivalent(A(op, [V("a"), V("b")]), A(op, [V("b"), V("a")]), t)
  {
    forall s | Admissible(s, t)
      ensures EvalTerm(A(op, [V("a"), V("b")]), s) == EvalTerm(A(op, [V("b"), V("a")]), s)
    {
      EvalBinary(op, V("a"), V("b"), s);
      EvalBinary(op, V("b"), V("a"), s);
      CommuteValues(op, s("a"), s("b"));
    }
  }

  lemma CommuteValues(op: Op, x: Peg, y: Peg)
    requires op in {Op.Add, Op.Mul, Op.And, Op.Or, Op.Equ, Op.BinAnd, Op.BinOr}
    ensures Binary(op, x, y) == Binary(op, y, x)
  {
    if (op == Op.BinAnd || op == Op.BinOr) && x.Num? && y.Num? {
      BitwiseCommutes(BitOpFor(op), x.n.v, y.n.v);
    }
  }

  /** `(op ?a (op ?b ?c)) => (op (op ?a ?b) ?c)` for `+`, `*`, `&&`, `||`, `&`, `|`. */
  lemma AssociateSound(op: Op, t: Typing)
    requires op in {Op.Add, Op.Mul, Op.And, Op.Or, Op.BinAnd, Op.BinOr}
    ensures Equivalent(A(op, [V("a"), A(op, [V("b"), V("c")])]), A(op, [A(op, [V("a"), V("b")]), V("c")]), t)
  {
    forall s | Admissible(s, t)
      ensures EvalTerm(A(op, [V("a"), A(op, [V("b"), V("c")])]), s) == EvalTerm(A(op, [A(op, [V("a"), V("b")]), V("c")]), s)
    {
      EvalBinary(op, V("b"), V("c"), s);
      EvalBinary(op, V("a"), A(op, [V("b"), V("c")]), s);
      EvalBinary(op, V("a"), V("b"), s);
      EvalBinary(op, A(op, [V("a"), V("b")]), V("c"), s);
      var x, y, z := s("a"), s("b"), s("c");
      if x.Num? && y.Num? && z.Num? {
        if op == Op.Add {
          AddAssociates(x.n, y.n, z.n);
        } else if op == Op.Mul {
          MulAssociates(x.n, y.n, z.n);
        } else if op == Op.BinAnd || op == Op.BinOr {
          BitwiseAssociates(BitOpFor(op), x.n.v, y.n.v, z.n.v);
        }
      }
    }
  }

  /** `add-ident`, `mul-bot` and `mul-ident` on an `int` operand. */
  lemma ArithmeticUnitsSound(t: Typing)
    requires HasType(t, "a", IntKind)
    ensures Equivalent(A(Op.Add, [V("a"), I(0)]), V("a"), t)
    ensures Equivalent(A(Op.Mul, [V("a"), I(0)]), I(0), t)
    ensures Equivalent(A(Op.Mul, [V("a"), I(1)]), V("a"), t)
  {
    forall s | Admissible(s, t)
      ensures EvalTerm(A(Op.Add, [V("a"), I(0)]), s) == EvalTerm(V("a"), s)
      ensures EvalTerm(A(Op.Mul, [V("a"), I(0)]), s) == EvalTerm(I(0), s)
      ensures EvalTerm(A(Op.Mul, [V("a"), I(1)]), s) == EvalTerm(V("a"), s)
    {
      EvalBinary(Op.Add, V("a"), I(0), s);
      EvalBinary(Op.Mul, V("a"), I(0), s);
      EvalBinary(Op.Mul, V("a"), I(1), s);
      assert s("a").Num?;
    }
  }

  /** The `long` `mul-bot`: the evaluator has no `long` values, so both sides reach `panic!("todo")`. */
  lemma LongMulBotSound(t: Typing)
    ensures Equivalent(A(Op.Mul, [V("a"), L(0)]), L(0), t)
    ensures forall s :: EvalTerm(L(0), s) == Panic
  {
    forall s | Admissible(s, t)
      ensures EvalTerm(A(Op.Mul, [V("a"), L(0)]), s) == EvalTerm(L(0), s)
    {
      EvalBinary(Op.Mul, V("a"), L(0), s);
    }
  }

  /** `and-ident`, `or-ident`, `and-bot`, `or-bot` on a `boolean` operand. */
  lemma BooleanUnitsSound(t: Typing)
    requires HasType(t, "a", BoolKind)
    ensures Equivalent(A(Op.And, [V("a"), B(true)]), V("a"), t)
    ensures Equivalent(A(Op.Or, [V("a"), B(false)]), V("a"), t)
    ensures Equivalent(A(Op.And, [V("a"), B(false)]), B(false), t)
    ensures Equivalent(A(Op.Or, [V("a"), B(true)]), B(true), t)
  {
    forall s | Admissible(s, t)
      ensures EvalTerm(A(Op.And, [V("a"), B(true)]), s) == EvalTerm(V("a"), s)
      ensures EvalTerm(A(Op.Or, [V("a"), B(false)]), s) == EvalTerm(V("a"), s)
      ensures EvalTerm(A(Op.And, [V("a"), B(false)]), s) == EvalTerm(B(false), s)
      ensures EvalTerm(A(Op.Or, [V("a"), B(true)]), s) == EvalTerm(B(true), s)
    {
      EvalBinary(Op.And, V("a"), B(true), s);
      EvalBinary(Op.Or, V("a"), B(false), s);
      EvalBinary(Op.And, V("a"), B(false), s);
      EvalBinary(Op.Or, V("a"), B(true), s);
      assert s("a").Bool?;
    }
  }

  /** `not-inv` and `not-not`: double negation of a `boolean`. */
  lemma DoubleNegationSound(t: Typing)
    requires HasType(t, "a", BoolKind)
    ensures Equivalent(A(Op.Not, [A(Op.Not, [V("a")])]), V("a"), t)
  {
    forall s | Admissible(s, t)
      ensures EvalTerm(A(Op.Not, [A(Op.Not, [V("a")])]), s) == EvalTerm(V("a"), s)
    {
      EvalNot(V("a"), s);
      EvalNot(A(Op.Not, [V("a")]), s);
      assert s("a").Bool?;
    }
  }

  /** `not-dist-and` and `not-dist-or`: De Morgan's laws, whatever the operands hold. */
  lemma DeMorganSound(t: Typing)
    ensures Equivalent(A(Op.Not, [A(Op.And, [V("a"), V("b")])]), A(Op.Or, [A(Op.Not, [V("a")]), A(Op.Not, [V("b")])]), t)
    ensures Equivalent(A(Op.Not, [A(Op.Or, [V("a"), V("b")])]), A(Op.And, [A(Op.Not, [V("a")]), A(Op.Not, [V("b")])]), t)
  {
    forall s | Admissible(s, t)
      ensures EvalTerm(A(Op.Not, [A(Op.And, [V("a"), V("b")])]), s) == EvalTerm(A(Op.Or, [A(Op.Not, [V("a")]), A(Op.Not, [V("b")])]), s)
      ensures EvalTerm(A(Op.Not, [A(Op.Or, [V("a"), V("b")])]), s) == EvalTerm(A(Op.And, [A(Op.Not, [V("a")]), A(Op.Not, [V("b")])]), s)
    {
      EvalNot(V("a"), s);
      EvalNot(V("b"), s);
      EvalBinary(Op.And, V("a"), V("b"), s);
      EvalBinary(Op.Or, V("a"), V("b"), s);
      EvalNot(A(Op.And, [V("a"), V("b")]), s);
      EvalNot(A(Op.Or, [V("a"), V("b")]), s);
      EvalBinary(Op.Or, A(Op.Not, [V("a")]), A(Op.Not, [V("b")]), s);
      EvalBinary(Op.And, A(Op.Not, [V("a")]), A(Op.Not, [V("b")]), s);
      DeMorganValues(s("a"), s("b"));
    }
  }

  lemma DeMorganValues(x: Peg, y: Peg)
    ensures Apply1(Binary(Op.And, x, y)) == Apply2(Op.Or, Negate(x), Negate(y))
    ensures Apply1(Binary(Op.Or, x, y)) == Apply2(Op.And, Negate(x), Negate(y))
  {
  }

  /** `a-and-not-a` and `a-or-not-a` on a `boolean`. */
  lemma ComplementSound(t: Typing)
    requires HasType(t, "a", BoolKind)
    ensures Equivalent(A(Op.And, [V("a"), A(Op.Not, [V("a")])]), B(false), t)
    ensures Equivalent(A(Op.Or, [V("a"), A(Op.Not, [V("a")])]), B(true), t)
  {
    forall s | Admissible(s, t)
      ensures EvalTerm(A(Op.And, [V("a"), A(Op.Not, [V("a")])]), s) == EvalTerm(B(false), s)
      ensures EvalTerm(A(Op.Or, [V("a"), A(Op.Not, [V("a")])]), s) == EvalTerm(B(true), s)
    {
      EvalNot(V("a"), s);
      EvalBinary(Op.And, V("a"), A(Op.Not, [V("a")]), s);
      EvalBinary(Op.Or, V("a"), A(Op.Not, [V("a")]), s);
      assert s("a").Bool?;
    }
  }

  /** `not-eq-to-neq` (and, read backwards, `neq-to-not-eq`): `!=` is the negation of `==` on every pair of values. */
  lemma NegatedEqualitySound(t: Typing)
    ensures Equivalent(A(Op.Not, [A(Op.Equ, [V("a"), V("b")])]), A(Op.Neq, [V("a"), V("b")]), t)
    ensures Equivalent(A(Op.Neq, [V("a"), V("b")]), A(Op.Not, [A(Op.Equ, [V("a"), V("b")])]), t)
  {
    forall s | Admissible(s, t)
      ensures EvalTerm(A(Op.Not, [A(Op.Equ, [V("a"), V("b")])]), s) == EvalTerm(A(Op.Neq, [V("a"), V("b")]), s)
    {
      EvalBinary(Op.Equ, V("a"), V("b"), s);
      EvalBinary(Op.Neq, V("a"), V("b"), s);
      EvalNot(A(Op.Equ, [V("a"), V("b")]), s);
      NegatedEqualityValues(s("a"), s("b"));
    }
  }

  lemma NegatedEqualityValues(x: Peg, y: Peg)
    ensures Apply1(Binary(Op.Equ, x, y)) == Binary(Op.Neq, x, y)
  {
  }

  /** `phi-as-cond`: `c ? true : false` is `c` for a `boolean` guard. */
  lemma PhiAsCondSound(t: Typing)
    requires HasType(t, "c", BoolKind)
    ensures Equivalent(A(Op.Phi, [V("c"), B(true), B(false)]), V("c"), t)
  {
    forall s | Admissible(s, t)
      ensures EvalTerm(A(Op.Phi, [V("c"), B(true), B(false)]), s) == EvalTerm(V("c"), s)
    {
      EvalPhi(V("c"), B(true), B(false), s);
      assert s("c").Bool?;
    }
  }

  /** `refl` on an `int` or a `boolean`. */
  lemma ReflSound(t: Typing)
    requires HasType(t, "a", GroundKind)
    ensures Equivalent(A(Op.Equ, [V("a"), V("a")]), B(true), t)
  {
    forall s | Admissible(s, t)
      ensures EvalTerm(A(Op.Equ, [V("a"), V("a")]), s) == EvalTerm(B(true), s)
    {
      EvalBinary(Op.Equ, V("a"), V("a"), s);
      assert HasKind(s("a"), GroundKind);
    }
  }

  /** `eq-shuff1` and `eq-shuff2`: `a + b == c` exactly when `a == c - b`, on `int`s. */
  lemma ShuffleSound(t: Typing)
    requires HasType(t, "a", IntKind) && HasType(t, "b", IntKind) && HasType(t, "c", IntKind)
    ensures Equivalent(A(Op.Equ, [A(Op.Add, [V("a"), V("b")]), V("c")]), A(Op.Equ, [V("a"), A(Op.Sub, [V("c"), V("b")])]), t)
    ensures Equivalent(A(Op.Equ, [V("a"), A(Op.Sub, [V("c"), V("b")])]), A(Op.Equ, [A(Op.Add, [V("a"), V("b")]), V("c")]), t)
  {
    forall s | Admissible(s, t)
      ensures EvalTerm(A(Op.Equ, [A(Op.Add, [V("a"), V("b")]), V("c")]), s) == EvalTerm(A(Op.Equ, [V("a"), A(Op.Sub, [V("c"), V("b")])]), s)
    {
      EvalBinary(Op.Add, V("a"), V("b"), s);
      EvalBinary(Op.Sub, V("c"), V("b"), s);
      EvalBinary(Op.Equ, A(Op.Add, [V("a"), V("b")]), V("c"), s);
      EvalBinary(Op.Equ, V("a"), A(Op.Sub, [V("c"), V("b")]), s);
      assert s("a").Num? && s("b").Num? && s("c").Num?;
      ShuffleEquation(s("a").n, s("b").n, s("c").n);
    }
  }

  /** `bin-and-ident`, `bin-or-ident`, `bin-and-bot`, `bin-or-bot` on an `int` operand. */
  lemma BitwiseUnitsSound(t: Typing)
    requires HasType(t, "a", IntKind)
    ensures Equivalent(A(Op.BinAnd, [V("a"), I(-1)]), V("a"), t)
    ensures Equivalent(A(Op.BinOr, [V("a"), I(0)]), V("a"), t)
    ensures Equivalent(A(Op.BinAnd, [V("a"), I(0)]), I(0), t)
    ensures Equivalent(A(Op.BinOr, [V("a"), I(-1)]), I(-1), t)
  {
    forall s | Admissible(s, t)
      ensures EvalTerm(A(Op.BinAnd, [V("a"), I(-1)]), s) == EvalTerm(V("a"), s)
      ensures EvalTerm(A(Op.BinOr, [V("a"), I(0)]), s) == EvalTerm(V("a"), s)
      ensures EvalTerm(A(Op.BinAnd, [V("a"), I(0)]), s) == EvalTerm(I(0), s)
      ensures EvalTerm(A(Op.BinOr, [V("a"), I(-1)]), s) == EvalTerm(I(-1), s)
    {
      EvalBinary(Op.BinAnd, V("a"), I(-1), s);
      EvalBinary(Op.BinOr, V("a"), I(0), s);
      EvalBinary(Op.BinAnd, V("a"), I(0), s);
      EvalBinary(Op.BinOr, V("a"), I(-1), s);
      assert s("a").Num?;
      AndAllOnes(s("a").n.v);
      OrAllOnes(s("a").n.v);
      OrZero(s("a").n.v);
      AndZero(s("a").n.v);
    }
  }

  /** A strict operator with an evaluated left operand distributes over a selection with an evaluated guard. */
  lemma SelectDistributesLeft(op: Op, x: Outcome, c: Outcome, t: Outcome, e: Outcome)
    requires IsStrictBinary(op) && x.Ok? && c.Ok?
    ensures Apply2(op, x, Select(c, t, e)) == Select(c, Apply2(op, x, t), Apply2(op, x, e))
  {
  }

  /** The same with the evaluated operand on the right. */
  lemma SelectDistributesRight(op: Op, x: Outcome, c: Outcome, t: Outcome, e: Outcome)
    requires IsStrictBinary(op) && x.Ok? && c.Ok?
    ensures Apply2(op, Select(c, t, e), x) == Select(c, Apply2(op, t, x), Apply2(op, e, x))
  {
  }

  /** The `*-left-over-phi` rules: a strict operator distributes over a `phi` on its right, whatever the operands hold. */
  lemma LeftDistributionSound(name: string, op: Op, a: string, t: Typing)
    requires IsStrictBinary(op)
    ensures Sound(LeftOverPhi(name, op, a), t)
  {
    forall s | Admissible(s, t)
      ensures EvalTerm(LeftOverPhi(name, op, a).lhs, s) == EvalTerm(LeftOverPhi(name, op, a).rhs, s)
    {
      EvalPhi(V("c"), V("t"), V("e"), s);
      EvalBinary(op, V(a), Branch(), s);
      EvalBinary(op, V(a), V("t"), s);
      EvalBinary(op, V(a), V("e"), s);
      EvalPhi(V("c"), A(op, [V(a), V("t")]), A(op, [V(a), V("e")]), s);
      SelectDistributesLeft(op, Ok(s(a)), Ok(s("c")), Ok(s("t")), Ok(s("e")));
    }
  }

  /** The `*-right-over-phi` rules: a strict operator distributes over a `phi` on its left. */
  lemma RightDistributionSound(name: string, op: Op, a: string, t: Typing)
    requires IsStrictBinary(op)
    ensures Sound(RightOverPhi(name, op, a), t)
  {
    forall s | Admissible(s, t)
      ensures EvalTerm(RightOverPhi(name, op, a).lhs, s) == EvalTerm(RightOverPhi(name, op, a).rhs, s)
    {
      EvalPhi(V("c"), V("t"), V("e"), s);
      EvalBinary(op, Branch(), V(a), s);
      EvalBinary(op, V("t"), V(a), s);
      EvalBinary(op, V("e"), V(a), s);
      EvalPhi(V("c"), A(op, [V("t"), V(a)]), A(op, [V("e"), V(a)]), s);
      SelectDistributesRight(op, Ok(s(a)), Ok(s("c")), Ok(s("t")), Ok(s("e")));
    }
  }

  /** `not-over-phi`. */
  lemma NotOverPhiSound(t: Typing)
    ensures Equivalent(A(Op.Not, [Branch()]), A(Op.Phi, [V("c"), A(Op.Not, [V("t")]), A(Op.Not, [V("e")])]), t)
  {
    forall s | Admissible(s, t)
      ensures EvalTerm(A(Op.Not, [Branch()]), s) == EvalTerm(A(Op.Phi, [V("c"), A(Op.Not, [V("t")]), A(Op.Not, [V("e")])]), s)
    {
      EvalPhi(V("c"), V("t"), V("e"), s);
      EvalNot(Branch(), s);
      EvalNot(V("t"), s);
      EvalNot(V("e"), s);
      EvalPhi(V("c"), A(Op.Not, [V("t")]), A(Op.Not, [V("e")]), s);
    }
  }

  /** Equivalence is symmetric, so a rule and its converse are sound together. */
  lemma ConverseSound(r: Rule, t: Typing)
    requires Sound(r, t)
    ensures Sound(Rule("inv-" + r.name, r.rhs, r.lhs, r.cond), t)
  {
  }

  /** `lt-comp`, `gt-comp`, `lte-comp`, `gte-comp`: each comparison is the negation of its complement. */
  lemma ComparisonComplementSound(t: Typing)
    ensures Equivalent(A(Op.Lt, [V("a"), V("b")]), A(Op.Not, [A(Op.Gte, [V("a"), V("b")])]), t)
    ensures Equivalent(A(Op.Gt, [V("a"), V("b")]), A(Op.Not, [A(Op.Lte, [V("a"), V("b")])]), t)
    ensures Equivalent(A(Op.Lte, [V("a"), V("b")]), A(Op.Not, [A(Op.Gt, [V("a"), V("b")])]), t)
    ensures Equivalent(A(Op.Gte, [V("a"), V("b")]), A(Op.Not, [A(Op.Lt, [V("a"), V("b")])]), t)
  {
    forall s | Admissible(s, t)
      ensures EvalTerm(A(Op.Lt, [V("a"), V("b")]), s) == EvalTerm(A(Op.Not, [A(Op.Gte, [V("a"), V("b")])]), s)
      ensures EvalTerm(A(Op.Gt, [V("a"), V("b")]), s) == EvalTerm(A(Op.Not, [A(Op.Lte, [V("a"), V("b")])]), s)
      ensures EvalTerm(A(Op.Lte, [V("a"), V("b")]), s) == EvalTerm(A(Op.Not, [A(Op.Gt, [V("a"), V("b")])]), s)
      ensures EvalTerm(A(Op.Gte, [V("a"), V("b")]), s) == EvalTerm(A(Op.Not, [A(Op.Lt, [V("a"), V("b")])]), s)
    {
      EvalBinary(Op.Lt, V("a"), V("b"), s);
      EvalBinary(Op.Gt, V("a"), V("b"), s);
      EvalBinary(Op.Lte, V("a"), V("b"), s);
      EvalBinary(Op.Gte, V("a"), V("b"), s);
      EvalNot(A(Op.Lt, [V("a"), V("b")]), s);
      EvalNot(A(Op.Gt, [V("a"), V("b")]), s);
      EvalNot(A(Op.Lte, [V("a"), V("b")]), s);
      EvalNot(A(Op.Gte, [V("a"), V("b")]), s);
      ComplementValues(s("a"), s("b"));
    }
  }

  lemma ComplementValues(x: Peg, y: Peg)
    ensures Binary(Op.Lt, x, y) == Apply1(Binary(Op.Gte, x, y))
    ensures Binary(Op.Gt, x, y) == Apply1(Binary(Op.Lte, x, y))
    ensures Binary(Op.Lte, x, y) == Apply1(Binary(Op.Gt, x, y))
    ensures Binary(Op.Gte, x, y) == Apply1(Binary(Op.Lt, x, y))
  {
  }

  /** `gte-split` and `lte-split`: a non-strict comparison is the strict one or equality. */
  lemma ComparisonSplitSound(t: Typing)
    ensures Equivalent(A(Op.Gte, [V("a"), V("b")]), A(Op.Or, [A(Op.Gt, [V("a"), V("b")]), A(Op.Equ, [V("a"), V("b")])]), t)
    ensures Equivalent(A(Op.Lte, [V("a"), V("b")]), A(Op.Or, [A(Op.Lt, [V("a"), V("b")]), A(Op.Equ, [V("a"), V("b")])]), t)
  {
    forall s | Admissible(s, t)
      ensures EvalTerm(A(Op.Gte, [V("a"), V("b")]), s) == EvalTerm(A(Op.Or, [A(Op.Gt, [V("a"), V("b")]), A(Op.Equ, [V("a"), V("b")])]), s)
      ensures EvalTerm(A(Op.Lte, [V("a"), V("b")]), s) == EvalTerm(A(Op.Or, [A(Op.Lt, [V("a"), V("b")]), A(Op.Equ, [V("a"), V("b")])]), s)
    {
      EvalBinary(Op.Lt, V("a"), V("b"), s);
      EvalBinary(Op.Gt, V("a"), V("b"), s);
      EvalBinary(Op.Lte, V("a"), V("b"), s);
      EvalBinary(Op.Gte, V("a"), V("b"), s);
      EvalBinary(Op.Equ, V("a"), V("b"), s);
      EvalBinary(Op.Or, A(Op.Gt, [V("a"), V("b")]), A(Op.Equ, [V("a"), V("b")]), s);
      EvalBinary(Op.Or, A(Op.Lt, [V("a"), V("b")]), A(Op.Equ, [V("a"), V("b")]), s);
      SplitValues(s("a"), s("b"));
    }
  }

  lemma SplitValues(x: Peg, y: Peg)
    ensures Binary(Op.Gte, x, y) == Apply2(Op.Or, Binary(Op.Gt, x, y), Binary(Op.Equ, x, y))
    ensures Binary(Op.Lte, x, y) == Apply2(Op.Or, Binary(Op.Lt, x, y), Binary(Op.Equ, x, y))
  {
  }

  /** `if-true`, `if-false` and `switch-branching`, whatever the branches hold. */
  lemma BranchSelectionSound(t: Typing)
    ensures Equivalent(A(Op.Phi, [B(true), V("x"), V("y")]), V("x"), t)
    ensures Equivalent(A(Op.Phi, [B(false), V("x"), V("y")]), V("y"), t)
    ensures Equivalent(A(Op.Phi, [V("c"), V("x"), V("y")]), A(Op.Phi, [A(Op.Not, [V("c")]), V("y"), V("x")]), t)
  {
    forall s | Admissible(s, t)
      ensures EvalTerm(A(Op.Phi, [B(true), V("x"), V("y")]), s) == EvalTerm(V("x"), s)
      ensures EvalTerm(A(Op.Phi, [B(false), V("x"), V("y")]), s) == EvalTerm(V("y"), s)
      ensures EvalTerm(A(Op.Phi, [V("c"), V("x"), V("y")]), s) == EvalTerm(A(Op.Phi, [A(Op.Not, [V("c")]), V("y"), V("x")]), s)
    {
      EvalPhi(B(true), V("x"), V("y"), s);
      EvalPhi(B(false), V("x"), V("y"), s);
      EvalPhi(V("c"), V("x"), V("y"), s);
      EvalNot(V("c"), s);
      EvalPhi(A(Op.Not, [V("c")]), V("y"), V("x"), s);
    }
  }

  /** `nesting-and`: a conjunctive guard is two nested `phi`s, when the inner guard is a `boolean`. */
  lemma NestingAndSound(t: Typing)
    requires HasType(t, "b", BoolKind)
    ensures Equivalent(A(Op.Phi, [A(Op.And, [V("a"), V("b")]), V("t"), V("e")]), A(Op.Phi, [V("a"), A(Op.Phi, [V("b"), V("t"), V("e")]), V("e")]), t)
  {
    forall s | Admissible(s, t)
      ensures EvalTerm(A(Op.Phi, [A(Op.And, [V("a"), V("b")]), V("t"), V("e")]), s) == EvalTerm(A(Op.Phi, [V("a"), A(Op.Phi, [V("b"), V("t"), V("e")]), V("e")]), s)
    {
      EvalBinary(Op.And, V("a"), V("b"), s);
      EvalPhi(A(Op.And, [V("a"), V("b")]), V("t"), V("e"), s);
      EvalPhi(V("b"), V("t"), V("e"), s);
      EvalPhi(V("a"), A(Op.Phi, [V("b"), V("t"), V("e")]), V("e"), s);
      assert s("b").Bool?;
      NestingAndValues(s("a"), s("b"), Ok(s("t")), Ok(s("e")));
    }
  }

  lemma NestingAndValues(x: Peg, y: Peg, t: Outcome, e: Outcome)
    requires y.Bool?
    ensures Select(Binary(Op.And, x, y), t, e) == Select(Ok(x), Select(Ok(y), t, e), e)
  {
  }

  /** `same-branch`: a `phi` with equal branches, when the guard is a `boolean`. */
  lemma SameBranchSound(t: Typing)
    requires HasType(t, "c", BoolKind)
    ensures Equivalent(A(Op.Phi, [V("c"), V("t"), V("t")]), V("t"), t)
  {
    forall s | Admissible(s, t)
      ensures EvalTerm(A(Op.Phi, [V("c"), V("t"), V("t")]), s) == EvalTerm(V("t"), s)
    {
      EvalPhi(V("c"), V("t"), V("t"), s);
      assert s("c").Bool?;
    }
  }

  /** Equivalence only weakens as the typing grows. */
  lemma EquivalentUnderAnyTyping(lhs: Pattern, rhs: Pattern, t: Typing)
    requires Equivalent(lhs, rhs, map[])
    ensures Equivalent(lhs, rhs, t)
  {
    forall s | Admissible(s, t)
      ensures EvalTerm(lhs, s) == EvalTerm(rhs, s)
    {
      assert Admissible(s, map[]);
    }
  }

  // ---------------------------------------------------------------------
  // Rules the evaluator cannot confirm
  // ---------------------------------------------------------------------

  /** The rules whose soundness rests on something the evaluator does not model. */
  const Unchecked: set<string> := {
    "neg-zero", "add-inv", "sub-to-add", "rd-wr", "array-length", "collection-size", "string-length",
    "string-index-of", "string-last-index-of", "string-starts-with", "string-starts-with-empty" }

  /** Every variable holds the `int` zero. */
  function Zeros(): Subst {
    x => Num(JavaInt(0))
  }

  /*
   * `neg-zero`, `add-inv` and `sub-to-add` mention unary minus, which the
   * evaluator has no arm for: the side with `-` reaches `panic!("todo")`
   * and the other side returns a number.
   */

  lemma NegZeroNotConfirmed()
    ensures Arithmetic()[8].name == "neg-zero" && !Sound(Arithmetic()[8], RuleTyping("neg-zero"))
  {
    var r := Arithmetic()[8];
    assert r.lhs == A(Op.Neg, [I(0)]);
    var s := Zeros();
    assert RuleTyping("neg-zero") == map[];
    assert Admissible(s, map[]);
    assert EvalTerm(r.lhs, s) == Panic;
    assert EvalTerm(r.rhs, s).Ok?;
  }

  lemma AddInvNotConfirmed()
    ensures Arithmetic()[9].name == "add-inv" && !Sound(Arithmetic()[9], RuleTyping("add-inv"))
  {
    var r := Arithmetic()[9];
    assert r.lhs == A(Op.Add, [V("a"), A(Op.Neg, [V("a")])]);
    var s := Zeros();
    assert RuleTyping("add-inv") == map[];
    assert Admissible(s, map[]);
    assert EvalTerm(A(Op.Neg, [V("a")]), s) == Panic;
    EvalBinary(Op.Add, V("a"), A(Op.Neg, [V("a")]), s);
    assert EvalTerm(r.lhs, s) == Panic;
    assert EvalTerm(r.rhs, s).Ok?;
  }

  lemma SubToAddNotConfirmed()
    ensures Arithmetic()[10].name == "sub-to-add" && !Sound(Arithmetic()[10], RuleTyping("sub-to-add"))
  {
    var r := Arithmetic()[10];
    assert r.lhs == A(Op.Sub, [V("a"), V("b")]) && r.rhs == A(Op.Add, [V("a"), A(Op.Neg, [V("b")])]);
    var s := Zeros();
    assert RuleTyping("sub-to-add") == map[];
    assert Admissible(s, map[]);
    assert EvalTerm(A(Op.Neg, [V("b")]), s) == Panic;
    EvalBinary(Op.Add, V("a"), A(Op.Neg, [V("b")]), s);
    assert EvalTerm(r.rhs, s) == Panic;
    EvalBinary(Op.Sub, V("a"), V("b"), s);
    assert EvalTerm(r.lhs, s).Ok?;
  }

  /** `rd-wr`: the evaluator refuses `rd` and `wr` nodes, while the right-hand side is the stored value. */
  lemma ReadAfterWriteNotConfirmed()
    ensures Heapy()[0].name == "rd-wr" && !Sound(Heapy()[0], RuleTyping("rd-wr"))
  {
    var s := Zeros();
    assert Admissible(s, map[]);
    assert EvalTerm(Heapy()[0].lhs, s) == Err;
  }

  /*
   * A small heap semantics for the heap operators, which the evaluator does
   * not give: a `path` term names a location (the term itself, as the
   * e-graph identifies equal terms), `heap` is a heap with nothing written
   * yet, `wr` stores a value at a location, and `rd` reads a location that
   * was written.  Reading a location that was never written, or applying an
   * operator to the wrong kind of argument, gets stuck.
   */

  datatype HeapValue = Val(v: Peg) | Loc(p: Pattern) | Store(h: map<Pattern, Peg>) | Stuck

  function HeapEval(p: Pattern, s: string -> HeapValue): (r: HeapValue)
    decreases p
  {
    match p
    case PVar(x) => s(x)
    case PLit(v) => Val(v)
    case PApp(op, args) =>
      if op == Op.AccessPath then Loc(p)
      else if op == Op.Heap then Store(map[])
      else if op == Op.Wr && |args| == 3 then
        match (HeapEval(args[0], s), HeapEval(args[1], s), HeapEval(args[2], s))
        case (Loc(l), Val(v), Store(h)) => Store(h[l := v])
        case _ => Stuck
      else if op == Op.Rd && |args| == 2 then
        match (HeapEval(args[0], s), HeapEval(args[1], s))
        case (Loc(l), Store(h)) => if l in h then Val(h[l]) else Stuck
        case _ => Stuck
      else Stuck
  }

  /** `rd-wr` under the heap semantics, for a path, a stored value and a heap. */
  lemma ReadAfterWrite(s: string -> HeapValue)
    requires s("path").Loc? && s("val").Val? && s("heap").Store?
    ensures Heapy()[0].name == "rd-wr"
    ensures HeapEval(Heapy()[0].lhs, s) == HeapEval(Heapy()[0].rhs, s) == s("val")
  {
    var r := Heapy()[0];
    var w := A(Op.Wr, [V("path"), V("val"), V("heap")]);
    assert r.lhs == A(Op.Rd, [V("path"), w]);
    var l := s("path").p;
    assert HeapEval(w, s) == Store(s("heap").h[l := s("val").v]);
  }

  /** Storing something that is not a value, here a heap, gets stuck, while the right-hand side is that heap. */
  lemma ReadAfterWriteNeedsValue(s: string -> HeapValue)
    requires s("path").Loc? && s("val").Store? && s("heap").Store?
    ensures HeapEval(Heapy()[0].lhs, s) == Stuck != HeapEval(Heapy()[0].rhs, s)
  {
    var w := A(Op.Wr, [V("path"), V("val"), V("heap")]);
    assert Heapy()[0].lhs == A(Op.Rd, [V("path"), w]);
    assert HeapEval(w, s) == Stuck;
  }

  /** The heap test's term: `(rd p (wr p 3 (heap 0 unit)))` with `p` the path `a.a.b`, which reads back `3`. */
  lemma ReadAfterWriteExample(s: string -> HeapValue)
    ensures var path := A(Op.AccessPath, [A(Op.Var, [S("a"), A(Op.Nil, [])]), A(Op.Derefs, [S(".a.b")])]);
            var heap := A(Op.Heap, [I(0), A(Op.Unit, [])]);
            HeapEval(A(Op.Rd, [path, A(Op.Wr, [path, I(3), heap])]), s) == HeapEval(I(3), s)
  {
    var path := A(Op.AccessPath, [A(Op.Var, [S("a"), A(Op.Nil, [])]), A(Op.Derefs, [S(".a.b")])]);
    var heap := A(Op.Heap, [I(0), A(Op.Unit, [])]);
    assert HeapEval(A(Op.Wr, [path, I(3), heap]), s) == Store(map[path := Num(JavaInt(3))]);
  }

  /** `refl` needs its typing: the evaluator says `null == null` is `false`. */
  lemma ReflNeedsGroundOperand()
    ensures !Equivalent(A(Op.Equ, [V("a"), V("a")]), B(true), map[])
  {
    var s: Subst := x => NullNode;
    assert Admissible(s, map[]);
    EvalBinary(Op.Equ, V("a"), V("a"), s);
    assert EvalTerm(A(Op.Equ, [V("a"), V("a")]), s) == Ok(Bool(false));
  }

  // ---------------------------------------------------------------------
  // The rule sets
  // ---------------------------------------------------------------------

  /** Every rule outside `Unchecked` is sound under its typing. */
  ghost predicate SoundExceptUnchecked(rs: seq<Rule>) {
    forall k :: 0 <= k < |rs| && rs[k].name !in Unchecked ==> Sound(rs[k], RuleTyping(rs[k].name))
  }

  lemma {:induction false} SoundConcat(a: seq<Rule>, b: seq<Rule>)
    requires SoundExceptUnchecked(a) && SoundExceptUnchecked(b)
    ensures SoundExceptUnchecked(a + b)
  {
    forall k | 0 <= k < |a + b| && (a + b)[k].name !in Unchecked
      ensures Sound((a + b)[k], RuleTyping((a + b)[k].name))
    {
      if k < |a| {
        assert (a + b)[k] == a[k];
      } else {
        assert (a + b)[k] == b[k - |a|];
      }
    }
  }

  lemma ArithmeticSound0()
    ensures forall k :: 0 <= k < 4 && k < |Arithmetic()| ==> Sound(Arithmetic()[k], RuleTyping(Arithmetic()[k].name))
  {
    CommuteSound(Op.Add, RuleTyping("commute-add"));
    CommuteSound(Op.Mul, RuleTyping("commute-mul"));
    AssociateSound(Op.Add, RuleTyping("associate-add"));
    AssociateSound(Op.Mul, RuleTyping("associate-mul"));
  }

  lemma ArithmeticSound4()
    ensures forall k :: 4 <= k < 8 && k < |Arithmetic()| ==> Sound(Arithmetic()[k], RuleTyping(Arithmetic()[k].name))
  {
    ArithmeticUnitsSound(RuleTyping("add-ident"));
    ArithmeticUnitsSound(RuleTyping("mul-bot"));
    ArithmeticUnitsSound(RuleTyping("mul-ident"));
    LongMulBotSound(RuleTyping("mul-bot"));
  }

  lemma ArithmeticUnchecked()
    ensures forall k :: 8 <= k < |Arithmetic()| ==> Arithmetic()[k].name in Unchecked
  {
  }

  lemma ArithmeticSound()
    ensures SoundExceptUnchecked(Arithmetic())
  {
    ArithmeticSound0();
    ArithmeticSound4();
    ArithmeticUnchecked();
  }
  lemma LogicalSound0()
    ensures forall k :: 0 <= k < 4 && k < |Logical()| ==> Sound(Logical()[k], RuleTyping(Logical()[k].name))
  {
    CommuteSound(Op.And, RuleTyping("commute-and"));
    CommuteSound(Op.Or, RuleTyping("commute-or"));
    AssociateSound(Op.And, RuleTyping("associate-and"));
    AssociateSound(Op.Or, RuleTyping("associate-or"));
  }

  lemma LogicalSound4()
    ensures forall k :: 4 <= k < 8 && k < |Logical()| ==> Sound(Logical()[k], RuleTyping(Logical()[k].name))
  {
    BooleanUnitsSound(RuleTyping("and-ident"));
    BooleanUnitsSound(RuleTyping("or-ident"));
    BooleanUnitsSound(RuleTyping("and-bot"));
    BooleanUnitsSound(RuleTyping("or-bot"));
  }

  lemma LogicalSound8()
    ensures forall k :: 8 <= k < 11 && k < |Logical()| ==> Sound(Logical()[k], RuleTyping(Logical()[k].name))
  {
    DoubleNegationSound(RuleTyping("not-inv"));
    DeMorganSound(RuleTyping("not-dist-and"));
    DeMorganSound(RuleTyping("not-dist-or"));
  }

  lemma LogicalSound11()
    ensures forall k :: 11 <= k < 13 && k < |Logical()| ==> Sound(Logical()[k], RuleTyping(Logical()[k].name))
  {
    ComplementSound(RuleTyping("a-and-not-a"));
    ComplementSound(RuleTyping("a-or-not-a"));
  }

  lemma LogicalSound13()
    ensures forall k :: 13 <= k < 16 && k < |Logical()| ==> Sound(Logical()[k], RuleTyping(Logical()[k].name))
  {
    CommuteSound(Op.Equ, RuleTyping("eq-comm"));
    DoubleNegationSound(RuleTyping("not-not"));
    NegatedEqualitySound(RuleTyping("not-eq-to-neq"));
  }

  lemma LogicalSound16()
    ensures forall k :: 16 <= k < 18 && k < |Logical()| ==> Sound(Logical()[k], RuleTyping(Logical()[k].name))
  {
    NegatedEqualitySound(RuleTyping("neq-to-not-eq"));
    PhiAsCondSound(RuleTyping("phi-as-cond"));
  }

  lemma LogicalSound()
    ensures SoundExceptUnchecked(Logical())
  {
    LogicalSound0();
    LogicalSound4();
    LogicalSound8();
    LogicalSound11();
    LogicalSound13();
    LogicalSound16();
  }

  lemma EqualitySoundAll()
    ensures forall k :: 0 <= k < 3 && k < |Equality()| ==> Sound(Equality()[k], RuleTyping(Equality()[k].name))
  {
    ReflSound(RuleTyping("refl"));
    ShuffleSound(RuleTyping("eq-shuff1"));
    ShuffleSound(RuleTyping("eq-shuff2"));
  }

  lemma EqualitySound()
    ensures SoundExceptUnchecked(Equality())
  {
    EqualitySoundAll();
  }

  lemma BitwiseSound0()
    ensures forall k :: 0 <= k < 4 && k < |Bitwise()| ==> Sound(Bitwise()[k], RuleTyping(Bitwise()[k].name))
  {
    CommuteSound(Op.BinAnd, RuleTyping("commute-bin-and"));
    CommuteSound(Op.BinOr, RuleTyping("commute-bin-or"));
    AssociateSound(Op.BinAnd, RuleTyping("associate-bin-and"));
    AssociateSound(Op.BinOr, RuleTyping("associate-bin-or"));
  }

  lemma BitwiseSound4()
    ensures forall k :: 4 <= k < 8 && k < |Bitwise()| ==> Sound(Bitwise()[k], RuleTyping(Bitwise()[k].name))
  {
    BitwiseUnitsSound(RuleTyping("bin-and-ident"));
    BitwiseUnitsSound(RuleTyping("bin-or-ident"));
    BitwiseUnitsSound(RuleTyping("bin-and-bot"));
    BitwiseUnitsSound(RuleTyping("bin-or-bot"));
  }

  lemma BitwiseSound()
    ensures SoundExceptUnchecked(Bitwise())
  {
    BitwiseSound0();
    BitwiseSound4();
  }

  lemma OverPhiEquivalent0(t: Typing)
    ensures forall k :: 0 <= k < 2 && k < |OverPhi()| ==> Sound(OverPhi()[k], t)
  {
    RightDistributionSound("plus-over-phi", Op.Add, "rhs", t);
    LeftDistributionSound("gt-left-over-phi", Op.Gt, "a", t);
  }

  lemma OverPhiEquivalent2(t: Typing)
    ensures forall k :: 2 <= k < 4 && k < |OverPhi()| ==> Sound(OverPhi()[k], t)
  {
    LeftDistributionSound("ge-left-over-phi", Op.Gte, "a", t);
    LeftDistributionSound("lt-left-over-phi", Op.Lt, "a", t);
  }

  lemma OverPhiEquivalent4(t: Typing)
    ensures forall k :: 4 <= k < 6 && k < |OverPhi()| ==> Sound(OverPhi()[k], t)
  {
    LeftDistributionSound("le-left-over-phi", Op.Lte, "a", t);
    RightDistributionSound("gt-right-over-phi", Op.Gt, "a", t);
  }

  lemma OverPhiEquivalent6(t: Typing)
    ensures forall k :: 6 <= k < 8 && k < |OverPhi()| ==> Sound(OverPhi()[k], t)
  {
    RightDistributionSound("ge-right-over-phi", Op.Gte, "a", t);
    RightDistributionSound("lt-right-over-phi", Op.Lt, "a", t);
  }

  lemma OverPhiEquivalent8(t: Typing)
    ensures forall k :: 8 <= k < 10 && k < |OverPhi()| ==> Sound(OverPhi()[k], t)
  {
    RightDistributionSound("le-right-over-phi", Op.Lte, "a", t);
    RightDistributionSound("and-right-over-phi", Op.And, "a", t);
  }

  lemma OverPhiEquivalent10(t: Typing)
    ensures forall k :: 10 <= k < 12 && k < |OverPhi()| ==> Sound(OverPhi()[k], t)
  {
    RightDistributionSound("or-right-over-phi", Op.Or, "a", t);
    NotOverPhiSound(t);
  }

  lemma OverPhiEquivalent12(t: Typing)
    ensures forall k :: 12 <= k < 13 && k < |OverPhi()| ==> Sound(OverPhi()[k], t)
  {
    LeftDistributionSound("eq-over-phi", Op.Equ, "a", t);
  }

  /** Every distribution rule is sound under any typing at all. */
  lemma OverPhiEquivalent(t: Typing)
    ensures forall k :: 0 <= k < |OverPhi()| ==> Sound(OverPhi()[k], t)
  {
    OverPhiEquivalent0(t);
    OverPhiEquivalent2(t);
    OverPhiEquivalent4(t);
    OverPhiEquivalent6(t);
    OverPhiEquivalent8(t);
    OverPhiEquivalent10(t);
    OverPhiEquivalent12(t);
  }

  lemma OverPhiSound()
    ensures SoundExceptUnchecked(OverPhi())
  {
    forall k | 0 <= k < |OverPhi()| && OverPhi()[k].name !in Unchecked
      ensures Sound(OverPhi()[k], RuleTyping(OverPhi()[k].name))
    {
      OverPhiEquivalent(RuleTyping(OverPhi()[k].name));
    }
  }

  /** The `inv-` rules are sound because they are the distribution rules read backwards. */
  lemma InvOverPhiSound()
    ensures SoundExceptUnchecked(InvOverPhi())
  {
    InverseRulesAreConverses();
    forall k | 0 <= k < |InvOverPhi()| && InvOverPhi()[k].name !in Unchecked
      ensures Sound(InvOverPhi()[k], RuleTyping(InvOverPhi()[k].name))
    {
      OverPhiEquivalent(RuleTyping(InvOverPhi()[k].name));
      assert Sound(OverPhi()[k], RuleTyping(InvOverPhi()[k].name));
    }
  }

  lemma OrderingSound0()
    ensures forall k :: 0 <= k < 2 && k < |Ordering()| ==> Sound(Ordering()[k], RuleTyping(Ordering()[k].name))
  {
    ComparisonComplementSound(RuleTyping("lt-comp"));
    ComparisonComplementSound(RuleTyping("gt-comp"));
  }

  lemma OrderingSound2()
    ensures forall k :: 2 <= k < 4 && k < |Ordering()| ==> Sound(Ordering()[k], RuleTyping(Ordering()[k].name))
  {
    ComparisonComplementSound(RuleTyping("lte-comp"));
    ComparisonComplementSound(RuleTyping("gte-comp"));
  }

  lemma OrderingSound4()
    ensures forall k :: 4 <= k < 6 && k < |Ordering()| ==> Sound(Ordering()[k], RuleTyping(Ordering()[k].name))
  {
    ComparisonSplitSound(RuleTyping("gte-split"));
    ComparisonSplitSound(RuleTyping("lte-split"));
  }

  lemma OrderingSound()
    ensures SoundExceptUnchecked(Ordering())
  {
    OrderingSound0();
    OrderingSound2();
    OrderingSound4();
  }

  lemma BranchingSound0()
    ensures forall k :: 0 <= k < 2 && k < |Branching()| ==> Sound(Branching()[k], RuleTyping(Branching()[k].name))
  {
    BranchSelectionSound(RuleTyping("if-true"));
    BranchSelectionSound(RuleTyping("switch-branching"));
  }

  lemma BranchingSound2()
    ensures forall k :: 2 <= k < 3 && k < |Branching()| ==> Sound(Branching()[k], RuleTyping(Branching()[k].name))
  {
    BranchSelectionSound(RuleTyping("if-false"));
  }

  lemma BranchingSound3()
    ensures forall k :: 3 <= k < 5 && k < |Branching()| ==> Sound(Branching()[k], RuleTyping(Branching()[k].name))
  {
    NestingAndSound(RuleTyping("nesting-and"));
    SameBranchSound(RuleTyping("same-branch"));
  }

  lemma BranchingSound()
    ensures SoundExceptUnchecked(Branching())
  {
    BranchingSound0();
    BranchingSound2();
    BranchingSound3();
  }

  /** The heap, type-guided and string rules are all outside the evaluator's reach. */
  lemma LibraryRulesUnchecked()
    ensures forall k :: 0 <= k < |Heapy()| ==> Heapy()[k].name in Unchecked
    ensures forall k :: 0 <= k < |TypeGuided()| ==> TypeGuided()[k].name in Unchecked
    ensures forall k :: 0 <= k < |Strings()| ==> Strings()[k].name in Unchecked
  {
  }

  /**
   * Every rule of `rw_rules()` that the evaluator can judge is sound: both
   * sides have the same outcome for every assignment of values to the
   * pattern variables that respects the rule's typing.
   */
  lemma RulesSound()
    ensures SoundExceptUnchecked(Rules())
  {
    ArithmeticSound();
    LogicalSound();
    EqualitySound();
    BitwiseSound();
    OverPhiSound();
    InvOverPhiSound();
    OrderingSound();
    BranchingSound();
    LibraryRulesUnchecked();
    var a := Arithmetic() + Logical();
    SoundConcat(Arithmetic(), Logical());
    SoundConcat(a, Equality());
    a := a + Equality();
    SoundConcat(a, Bitwise());
    a := a + Bitwise();
    SoundConcat(a, OverPhi());
    a := a + OverPhi();
    SoundConcat(a, InvOverPhi());
    a := a + InvOverPhi();
    SoundConcat(a, Ordering());
    a := a + Ordering();
    SoundConcat(a, Branching());
    a := a + Branching();
    SoundConcat(a, Heapy());
    a := a + Heapy();
    SoundConcat(a, TypeGuided());
    a := a + TypeGuided();
    SoundConcat(a, Strings());
  }

  /** The prototype's rules: the same rules without side conditions, which soundness never needed. */
  lemma LegacyRulesSound()
    ensures SoundExceptUnchecked(LegacyRules())
  {
    ArithmeticSound();
    LegacyArithmeticIsUnguarded();
    assert SoundExceptUnchecked(LegacyArithmetic()) by {
      forall k | 0 <= k < |LegacyArithmetic()| && LegacyArithmetic()[k].name !in Unchecked
        ensures Sound(LegacyArithmetic()[k], RuleTyping(LegacyArithmetic()[k].name))
      {
        if k < 6 {
          assert Sound(Arithmetic()[k], RuleTyping(Arithmetic()[k].name));
        } else {
          assert Sound(Arithmetic()[k + 1], RuleTyping(Arithmetic()[k + 1].name));
        }
      }
    }
    LogicalSound();
    EqualitySound();
    BitwiseSound();
    OverPhiSound();
    InvOverPhiSound();
    OrderingSound();
    BranchingSound();
    var a := LegacyArithmetic() + Logical();
    SoundConcat(LegacyArithmetic(), Logical());
    SoundConcat(a, Equality());
    a := a + Equality();
    SoundConcat(a, Bitwise());
    a := a + Bitwise();
    SoundConcat(a, OverPhi());
    a := a + OverPhi();
    SoundConcat(a, InvOverPhi());
    a := a + InvOverPhi();
    SoundConcat(a, Ordering());
    a := a + Ordering();
    SoundConcat(a, Branching());
  }

  // ---------------------------------------------------------------------
  // Behaviours the rule tests check
  // ---------------------------------------------------------------------

  /** `(+ (phi (var a nil) 3 4) 1)` and `(phi (var a nil) 4 5)` agree, whatever `a` holds. */
  lemma PlusOverPhiExample()
    ensures Equivalent(A(Op.Add, [A(Op.Phi, [V("a"), I(3), I(4)]), I(1)]), A(Op.Phi, [V("a"), I(4), I(5)]), map[])
  {
    forall s | Admissible(s, map[])
      ensures EvalTerm(A(Op.Add, [A(Op.Phi, [V("a"), I(3), I(4)]), I(1)]), s) == EvalTerm(A(Op.Phi, [V("a"), I(4), I(5)]), s)
    {
      EvalPhi(V("a"), I(3), I(4), s);
      EvalPhi(V("a"), I(4), I(5), s);
      EvalBinary(Op.Add, A(Op.Phi, [V("a"), I(3), I(4)]), I(1), s);
    }
  }

  /** `a` and `b` hold the `int`s `x` and `y`; every other variable holds `0`. */
  function Pair(x: int, y: int): Subst
    requires InI32(x) && InI32(y)
  {
    v => if v == "a" then Num(JavaInt(x as i32)) else if v == "b" then Num(JavaInt(y as i32)) else Num(JavaInt(0))
  }

  lemma PairAdmissible(x: int, y: int)
    requires InI32(x) && InI32(y)
    ensures Admissible(Pair(x, y), map[])
  {
  }

  /** Java's comparison operators on `int`s. */
  function Compare(op: Op, x: int, y: int): bool
    requires op in {Op.Equ, Op.Neq, Op.Gt, Op.Gte, Op.Lt, Op.Lte}
  {
    match op
    case Equ => x == y
    case Neq => x != y
    case Gt => x > y
    case Gte => x >= y
    case Lt => x < y
    case Lte => x <= y
  }

  /** With `a` holding `1`, `(op a b)` and `(op 1 b)` both compare `1` with `b`. */
  lemma ComparisonValue(op: Op, lhs: Pattern, y: int)
    requires op in {Op.Equ, Op.Neq, Op.Gt, Op.Gte, Op.Lt, Op.Lte}
    requires lhs == V("a") || lhs == I(1)
    requires InI32(y)
    ensures EvalTerm(A(op, [lhs, V("b")]), Pair(1, y)) == Ok(Bool(Compare(op, 1, y)))
  {
    var s := Pair(1, y);
    EvalBinary(op, lhs, V("b"), s);
    assert EvalTerm(V("b"), s) == Ok(Num(JavaInt(y as i32)));
    assert EvalTerm(lhs, s) == Ok(Num(JavaInt(1)));
    CompareApplied(op, 1, y as i32);
  }

  /** A comparison of two `int`s evaluates to the comparison of their values. */
  lemma CompareApplied(op: Op, x: i32, y: i32)
    requires op in {Op.Equ, Op.Neq, Op.Gt, Op.Gte, Op.Lt, Op.Lte}
    ensures Apply2(op, Ok(Num(JavaInt(x))), Ok(Num(JavaInt(y)))) == Ok(Bool(Compare(op, x as int, y as int)))
  {
    match op
    case Equ =>
    case Neq =>
    case Gt =>
    case Gte =>
    case Lt =>
    case Lte =>
  }

  /**
   * A comparison of two variables, or of the constant `1` and a variable,
   * is neither always `true` nor always `false`: no sound rule set may
   * rewrite it to a constant.
   */
  lemma ComparisonsOfVariablesAreNotConstant(op: Op, lhs: Pattern)
    requires op in {Op.Equ, Op.Neq, Op.Gt, Op.Gte, Op.Lt, Op.Lte}
    requires lhs == V("a") || lhs == I(1)
    ensures !Equivalent(A(op, [lhs, V("b")]), B(true), map[])
    ensures !Equivalent(A(op, [lhs, V("b")]), B(false), map[])
  {
    PairAdmissible(1, 0);
    PairAdmissible(1, 1);
    PairAdmissible(1, 2);
    ComparisonValue(op, lhs, 0);
    ComparisonValue(op, lhs, 1);
    ComparisonValue(op, lhs, 2);
    var y :| y in {0, 1, 2} && Compare(op, 1, y);
    var z :| z in {0, 1, 2} && !Compare(op, 1, z);
    assert EvalTerm(A(op, [lhs, V("b")]), Pair(1, y)) == Ok(Bool(true));
    assert EvalTerm(A(op, [lhs, V("b")]), Pair(1, z)) == Ok(Bool(false));
  }
}
