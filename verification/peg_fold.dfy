/**
 * The constant folds of cornelius/src/peg.rs (`Peg::plus` … `Peg::neg`).
 *
 * Each fold takes two literal nodes and either gives no constant (`None` in
 * the source), gives the folded literal, or panics because the underlying
 * `JavaInt`/`JavaLong` operator panics (a raw overflow or a shift distance
 * out of range).  The three outcomes are the `Fold` datatype.
 */
module PegFold {
  import opened Wrappers
  import opened Primitives
  import opened PegTerm

  datatype Fold = NoFold | Folded(value: Peg) | Panics

  /** The `error` sentinel that division by a known zero folds to. */
  const ErrorNode: Peg := Node(Error, [])

  /** The mathematical value of a number literal of either width. */
  function Value(p: Peg): int
    requires IsNumber(p)
  {
    if p.Num? then p.n.v as int else p.l.v as int
  }

  /** The modulus of the Java type a number literal has: 2^32 for `int`, 2^64 for `long`. */
  function Modulus(p: Peg): int
    requires IsNumber(p)
  {
    if p.Num? then TWO_32 else TWO_64
  }

  predicate IsNumericZero(p: Peg) {
    IsNumber(p) && Value(p) == 0
  }

  /**
   * A numeric operator over the four width combinations: `int op int`,
   * `long op long`, `int op long` and `long op int`; anything else is not
   * folded.
   */
  function Arith(op: ArithOp, a: Peg, b: Peg): (r: Fold)
    ensures r.NoFold? <==> !(IsNumber(a) && IsNumber(b))
    ensures r.Folded? ==> (r.value.Num? <==> a.Num? && b.Num?) && IsNumber(r.value)
  {
    match (a, b)
    case (Num(x), Num(y)) =>
      if IntIntDefined(op, x, y) then Folded(Num(IntInt(op, x, y))) else Panics
    case (Long(x), Long(y)) =>
      if LongLongDefined(op, x, y) then Folded(Long(LongLong(op, x, y))) else Panics
    case (Num(x), Long(y)) =>
      if IntLongDefined(op, x, y) then Folded(Long(IntLong(op, x, y))) else Panics
    case (Long(x), Num(y)) =>
      if LongIntDefined(op, x, y) then Folded(Long(LongInt(op, x, y))) else Panics
    case _ => NoFold
  }

  function Plus(a: Peg, b: Peg): Fold { Arith(ArithOp.Add, a, b) }
  function Minus(a: Peg, b: Peg): Fold { Arith(ArithOp.Sub, a, b) }
  function Mult(a: Peg, b: Peg): Fold { Arith(ArithOp.Mul, a, b) }
  function BinAnd(a: Peg, b: Peg): Fold { Arith(ArithOp.BitAnd, a, b) }
  function BinOr(a: Peg, b: Peg): Fold { Arith(ArithOp.BitOr, a, b) }
  function Xor(a: Peg, b: Peg): Fold { Arith(ArithOp.BitXor, a, b) }
  function SRShift(a: Peg, b: Peg): Fold { Arith(ArithOp.Shr, a, b) }
  function LShift(a: Peg, b: Peg): Fold { Arith(ArithOp.Shl, a, b) }

  /** `Peg::urshift` has no cases: it never folds. */
  function URShift(a: Peg, b: Peg): (r: Fold)
    ensures r == NoFold
  {
    NoFold
  }

  /** `Peg::div`: a numeric zero divisor gives `error` before the dividend is looked at. */
  function Div(a: Peg, b: Peg): Fold {
    if !IsNumber(b) then NoFold
    else if Value(b) == 0 then Folded(ErrorNode)
    else Arith(ArithOp.Div, a, b)
  }

  /** `Peg::equal`: numbers compare by value across widths; booleans compare as booleans. */
  function Equal(a: Peg, b: Peg): Fold {
    if IsNumber(a) && IsNumber(b) then Folded(Bool(Value(a) == Value(b)))
    else if a.Bool? && b.Bool? then Folded(Bool(a.b == b.b))
    else NoFold
  }

  /** `Peg::nequal`. */
  function Nequal(a: Peg, b: Peg): Fold {
    if IsNumber(a) && IsNumber(b) then Folded(Bool(Value(a) != Value(b)))
    else if a.Bool? && b.Bool? then Folded(Bool(a.b != b.b))
    else NoFold
  }

  datatype Ordering = Less | LessEq | Greater | GreaterEq

  function Holds(o: Ordering, x: int, y: int): bool {
    match o
    case Less => x < y
    case LessEq => x <= y
    case Greater => x > y
    case GreaterEq => x >= y
  }

  /** `Peg::lt`, `le`, `gt`, `ge`: the `int` side of a mixed pair is promoted to `long`. */
  function Compare(o: Ordering, a: Peg, b: Peg): Fold {
    match (a, b)
    case (Num(x), Num(y)) => Folded(Bool(Holds(o, x.v as int, y.v as int)))
    case (Long(x), Long(y)) => Folded(Bool(Holds(o, x.v as int, y.v as int)))
    case (Num(x), Long(y)) => Folded(Bool(Holds(o, Promote(x).v as int, y.v as int)))
    case (Long(x), Num(y)) => Folded(Bool(Holds(o, x.v as int, Promote(y).v as int)))
    case _ => NoFold
  }

  /** `Peg::and`. */
  function And(a: Peg, b: Peg): Fold {
    if a.Bool? && b.Bool? then Folded(Bool(a.b && b.b)) else NoFold
  }

  /** `Peg::or`. */
  function Or(a: Peg, b: Peg): Fold {
    if a.Bool? && b.Bool? then Folded(Bool(a.b || b.b)) else NoFold
  }

  /** `Peg::neg`: the raw negation, which panics on the minimum value. */
  function Neg(a: Peg): Fold {
    match a
    case Num(x) => if x != INT_MIN then Folded(Num(IntNeg(x))) else Panics
    case Long(x) => if x != LONG_MIN then Folded(Long(LongNeg(x))) else Panics
    case _ => NoFold
  }

  // ---------------------------------------------------------------------
  // Properties
  // ---------------------------------------------------------------------

  /**
   * Binary numeric promotion (section 5.6.2 of the Java Language
   * Specification): a fold of `+`, `-` or `*` that returns gives the exact
   * result reduced modulo the width of the result type, which is `int` only
   * when both operands are `int`.
   */
  lemma RingFoldIsJavaArithmetic(op: ArithOp, a: Peg, b: Peg)
    requires op.Add? || op.Sub? || op.Mul?
    requires Arith(op, a, b).Folded?
    ensures var c := Arith(op, a, b).value;
      Value(c) % Modulus(c) ==
        (match op
         case Add => Value(a) + Value(b)
         case Sub => Value(a) - Value(b)
         case Mul => Value(a) * Value(b)) % Modulus(c)
  {
  }

  /** `long op int` and `long op long` never wrap: where they return, the result is exact. */
  lemma LongLeftOperandIsExact(op: ArithOp, a: Peg, b: Peg)
    requires op.Add? || op.Sub? || op.Mul?
    requires a.Long? && IsNumber(b) && Arith(op, a, b).Folded?
    ensures var c := Arith(op, a, b).value;
      Value(c) ==
        (match op
         case Add => Value(a) + Value(b)
         case Sub => Value(a) - Value(b)
         case Mul => Value(a) * Value(b))
  {
  }

  /** `(+ 1l (+ 2 3))` folds to `6l`: the inner `int` sum is promoted. */
  lemma MixedWidthExample()
    ensures Plus(Num(JavaInt(2)), Num(JavaInt(3))) == Folded(Num(JavaInt(5)))
    ensures Plus(Long(JavaLong(1)), Num(JavaInt(5))) == Folded(Long(JavaLong(6)))
    ensures Plus(Num(JavaInt(1)), Long(JavaLong(5))) == Folded(Long(JavaLong(6)))
  {
  }

  /** `Peg::div` returns `error` for every numeric zero divisor, whatever the dividend; a non-numeric divisor gives no constant. */
  lemma DivisionByZeroIsError(a: Peg, b: Peg)
    ensures IsNumericZero(b) ==> Div(a, b) == Folded(ErrorNode)
    ensures !IsNumber(b) ==> Div(a, b) == NoFold
    ensures Div(a, b).Folded? && Div(a, b).value == ErrorNode <==> IsNumericZero(b)
  {
  }

  /** `nequal` is the negation of `equal`, and both are defined on exactly the same pairs: two numbers or two booleans. */
  lemma NequalNegatesEqual(a: Peg, b: Peg)
    ensures Equal(a, b).Folded? <==> (IsNumber(a) && IsNumber(b)) || (a.Bool? && b.Bool?)
    ensures Equal(a, b).NoFold? <==> Nequal(a, b).NoFold?
    ensures Equal(a, b).Folded? ==> Nequal(a, b) == Folded(Bool(!Equal(a, b).value.b))
    ensures !Equal(a, b).Panics? && !Nequal(a, b).Panics?
  {
  }

  /** `equal` is symmetric, reflexive on constants, and agrees with the cross-width `PartialEq` of primitives.rs. */
  lemma EqualIsAnEquivalence(a: Peg, b: Peg)
    ensures Equal(a, b) == Equal(b, a)
    ensures IsConst(a) ==> Equal(a, a) == Folded(Bool(true))
    ensures a.Num? && b.Long? ==> Equal(a, b) == Folded(Bool(IntEqLong(a.n, b.l)))
    ensures a.Long? && b.Num? ==> Equal(a, b) == Folded(Bool(LongEqInt(a.l, b.n)))
  {
  }

  /** The orderings are defined exactly on pairs of numbers, compare their values, and `lt`/`gt`, `le`/`ge` are mirror images. */
  lemma OrderingsCompareValues(o: Ordering, a: Peg, b: Peg)
    ensures Compare(o, a, b).Folded? <==> IsNumber(a) && IsNumber(b)
    ensures Compare(o, a, b).Folded? ==> Compare(o, a, b).value == Bool(Holds(o, Value(a), Value(b)))
    ensures Compare(Less, a, b) == Compare(Greater, b, a)
    ensures Compare(LessEq, a, b) == Compare(GreaterEq, b, a)
    ensures !Compare(o, a, b).Panics?
  {
  }

  /** Boolean connectives fold only on two booleans and never on numbers. */
  lemma ConnectivesOnlyFoldBooleans(a: Peg, b: Peg)
    ensures And(a, b).Folded? <==> a.Bool? && b.Bool?
    ensures Or(a, b).Folded? <==> a.Bool? && b.Bool?
    ensures And(a, b).Folded? ==> And(a, b).value == Bool(a.b && b.b) && Or(a, b).value == Bool(a.b || b.b)
  {
  }

  /** Negation preserves width, negates the value, and panics exactly on the minimum of the width. */
  lemma NegNegates(a: Peg)
    ensures Neg(a).Folded? ==> IsNumber(a) && Neg(a).value.Num? == a.Num? && Value(Neg(a).value) == -Value(a)
    ensures Neg(a).Panics? <==> a == Num(INT_MIN) || a == Long(LONG_MIN)
    ensures Neg(a).NoFold? <==> !IsNumber(a)
  {
  }

  /** `int & int` and friends act on the 32-bit two's complement patterns. */
  lemma BitwiseFoldsActOnPatterns(op: ArithOp, x: JavaInt, y: JavaInt)
    requires op.BitAnd? || op.BitOr? || op.BitXor?
    ensures Arith(op, Num(x), Num(y)).Folded?
    ensures Unsigned(Value(Arith(op, Num(x), Num(y)).value), 32) ==
      Bits(BitOpOf(op), Unsigned(x.v as int, 32), Unsigned(y.v as int, 32), 32)
  {
  }

  /** An `int` shift by a distance outside `0..32` panics instead of being masked as Java would (section 15.19 of the Java Language Specification). */
  lemma ShiftDistanceIsNotMasked()
    ensures LShift(Num(JavaInt(1)), Num(JavaInt(32))) == Panics
    ensures SRShift(Num(JavaInt(1)), Num(JavaInt(-1))) == Panics
    ensures LShift(Num(JavaInt(1)), Num(JavaInt(31))) == Folded(Num(INT_MIN))
  {
    Pow2Values();
  }
}
