/**
 * Java `int` and `long` values and the operator implementations of
 * cornelius/src/primitives.rs.
 *
 * Rust panics in a debug build when an unwrapped operation overflows, when
 * a division or remainder has a zero divisor, and when a shift distance is
 * outside `0..bits`.  Those panics are the preconditions below: the `*Defined`
 * predicates say exactly when an operator returns.
 */
module Primitives {
  import opened Wrappers
  import Decimal

  const TWO_31: int := 0x8000_0000
  const TWO_32: int := 0x1_0000_0000
  const TWO_63: int := 0x8000_0000_0000_0000
  const TWO_64: int := 0x1_0000_0000_0000_0000

  newtype i32 = x: int | -0x8000_0000 <= x < 0x8000_0000
  newtype i64 = x: int | -0x8000_0000_0000_0000 <= x < 0x8000_0000_0000_0000

  predicate InI32(x: int) { -TWO_31 <= x < TWO_31 }
  predicate InI64(x: int) { -TWO_63 <= x < TWO_63 }

  /** A Java `int`, kept as a Rust `i32`. */
  datatype JavaInt = JavaInt(v: i32)
  /** A Java `long`, kept as a Rust `i64`. */
  datatype JavaLong = JavaLong(v: i64)

  const INT_MIN: JavaInt := JavaInt(-0x8000_0000)
  const INT_MAX: JavaInt := JavaInt(0x7fff_ffff)
  const LONG_MIN: JavaLong := JavaLong(-0x8000_0000_0000_0000)
  const LONG_MAX: JavaLong := JavaLong(0x7fff_ffff_ffff_ffff)

  // ---------------------------------------------------------------------
  // Integer helpers
  // ---------------------------------------------------------------------

  function Pow2(n: nat): (p: nat)
    ensures p >= 1
  {
    if n == 0 then 1 else 2 * Pow2(n - 1)
  }

  lemma Pow2Values()
    ensures Pow2(31) == TWO_31 && Pow2(32) == TWO_32
    ensures Pow2(63) == TWO_63 && Pow2(64) == TWO_64
  {
    Pow2Values32();
    Pow2Add(32, 31);
    Pow2Add(32, 32);
  }

  lemma Pow2Values32()
    ensures Pow2(31) == TWO_31 && Pow2(32) == TWO_32
  {
    assert Pow2(8) == 256;
    Pow2Add(8, 8);
    Pow2Add(16, 16);
    assert Pow2(32) == 2 * Pow2(31);
  }

  function Abs(x: int): nat {
    if x < 0 then -x else x
  }

  lemma {:induction false} Pow2Add(a: nat, b: nat)
    ensures Pow2(a + b) == Pow2(a) * Pow2(b)
  {
    if a > 0 {
      Pow2Add(a - 1, b);
      assert Pow2(a + b) == 2 * Pow2(a - 1 + b);
    }
  }

  lemma MulMono(a: int, b: int, c: int)
    requires 0 <= a <= b && c >= 0
    ensures a * c <= b * c
  {
  }

  lemma MulNonPos(a: int, b: int)
    requires a >= 0 && b <= 0
    ensures a * b <= 0
  {
  }

  /** Quotient and remainder are determined by the division identity. */
  lemma ModUnique(h: int, p: int, q: int, s: int)
    requires p >= 1 && 0 <= s < p && h == p * q + s
    ensures h / p == q && h % p == s
  {
    var q', s' := h / p, h % p;
    assert h == p * q' + s';
    var d := q - q';
    assert p * d == s' - s;
    if d >= 1 {
      MulMono(1, d, p);
    } else if d <= -1 {
      MulMono(1, -d, p);
    }
  }

  /** The `i32` with the same low-order 32 bits as `x` (two's complement truncation). */
  function Wrap32(x: int): (r: i32)
    ensures (r as int) % TWO_32 == x % TWO_32
    ensures InI32(x) ==> r as int == x
  {
    var m := x % TWO_32;
    if m < TWO_31 then m as i32 else (m - TWO_32) as i32
  }

  /** The `i64` with the same low-order 64 bits as `x`. */
  function Wrap64(x: int): (r: i64)
    ensures (r as int) % TWO_64 == x % TWO_64
    ensures InI64(x) ==> r as int == x
  {
    var m := x % TWO_64;
    if m < TWO_63 then m as i64 else (m - TWO_63 - TWO_63) as i64
  }

  /** Division rounding toward zero, as Rust's and Java's `/` do. */
  function TruncDiv(a: int, b: int): int
    requires b != 0
  {
    if (a < 0) == (b < 0) then Abs(a) / Abs(b) else -(Abs(a) / Abs(b))
  }

  /** Remainder of `TruncDiv`: it takes the sign of the dividend. */
  function TruncRem(a: int, b: int): (r: int)
    requires b != 0
    ensures a == b * TruncDiv(a, b) + r
    ensures Abs(r) < Abs(b)
    ensures r != 0 ==> (r < 0 <==> a < 0)
  {
    var q0 := Abs(a) / Abs(b);
    var r0 := Abs(a) % Abs(b);
    assert Abs(a) == Abs(b) * q0 + r0;
    if a < 0 then
      assert b * TruncDiv(a, b) == -(Abs(b) * q0);
      -r0
    else
      assert b * TruncDiv(a, b) == Abs(b) * q0;
      r0
  }

  lemma FloorDivBounds(x: int, p: int)
    requires p >= 1
    ensures p * (x / p) <= x < p * (x / p) + p
    ensures x >= 0 ==> 0 <= x / p <= x
    ensures x < 0 ==> x <= x / p < 0
  {
    if x < 0 {
      var q := x / p;
      assert q < 0;
      assert x < p * (q + 1);
      MulNonPos(p - 1, q + 1);
      assert p * (q + 1) == (p - 1) * (q + 1) + (q + 1);
    }
  }

  // ---------------------------------------------------------------------
  // Two's complement bit patterns
  // ---------------------------------------------------------------------

  /** The unsigned reading of the low `w` bits of a two's complement value. */
  function Unsigned(x: int, w: nat): (u: nat)
    ensures u < Pow2(w)
  {
    x % Pow2(w)
  }

  /** The signed reading of a `w+1`-bit pattern. */
  function Signed(u: nat, w: nat): int {
    if u < Pow2(w) then u else u - 2 * Pow2(w)
  }

  lemma SignedUnsigned(x: int, w: nat)
    requires -(Pow2(w) as int) <= x < Pow2(w)
    ensures Signed(Unsigned(x, w + 1), w) == x
  {
    var P := Pow2(w + 1);
    assert P == 2 * Pow2(w);
    if x < 0 { ModUnique(x, P, -1, x + P); } else { ModUnique(x, P, 0, x); }
  }

  lemma UnsignedSigned(u: nat, w: nat)
    requires u < Pow2(w + 1)
    ensures Unsigned(Signed(u, w), w + 1) == u
  {
    var P := Pow2(w + 1);
    assert P == 2 * Pow2(w);
    if u < Pow2(w) { ModUnique(u, P, 0, u); } else { ModUnique(u - P, P, -1, u); }
  }

  datatype BitOp = And | Or | Xor

  function Bit(op: BitOp, p: nat, q: nat): nat
    requires p < 2 && q < 2
  {
    match op
    case And => if p == 1 && q == 1 then 1 else 0
    case Or => if p == 1 || q == 1 then 1 else 0
    case Xor => if p != q then 1 else 0
  }

  /** `op` applied bit by bit to the low `w` bits of `x` and `y`. */
  function Bits(op: BitOp, x: nat, y: nat, w: nat): (r: nat)
    ensures r < Pow2(w)
  {
    if w == 0 then 0 else 2 * Bits(op, x / 2, y / 2, w - 1) + Bit(op, x % 2, y % 2)
  }

  lemma {:induction false} BitsCommute(op: BitOp, x: nat, y: nat, w: nat)
    ensures Bits(op, x, y, w) == Bits(op, y, x, w)
  {
    if w > 0 {
      BitsCommute(op, x / 2, y / 2, w - 1);
    }
  }

  lemma {:induction false} BitsAssociate(op: BitOp, x: nat, y: nat, z: nat, w: nat)
    ensures Bits(op, Bits(op, x, y, w), z, w) == Bits(op, x, Bits(op, y, z, w), w)
  {
    if w > 0 {
      var xy, yz := Bits(op, x, y, w), Bits(op, y, z, w);
      assert xy / 2 == Bits(op, x / 2, y / 2, w - 1) && xy % 2 == Bit(op, x % 2, y % 2);
      assert yz / 2 == Bits(op, y / 2, z / 2, w - 1) && yz % 2 == Bit(op, y % 2, z % 2);
      BitsAssociate(op, x / 2, y / 2, z / 2, w - 1);
    }
  }

  /** The operation only sees the low `w` bits of its operands. */
  lemma {:induction false} BitsLowOnly(op: BitOp, x: nat, y: nat, w: nat)
    ensures Bits(op, x, y, w) == Bits(op, x % Pow2(w), y % Pow2(w), w)
  {
    if w > 0 {
      BitsLowOnly(op, x / 2, y / 2, w - 1);
      HalveMod(x, w);
      HalveMod(y, w);
    }
  }

  lemma HalveMod(x: nat, w: nat)
    requires w > 0
    ensures (x % Pow2(w)) / 2 == (x / 2) % Pow2(w - 1)
    ensures (x % Pow2(w)) % 2 == x % 2
  {
      var p := Pow2(w - 1);
      assert Pow2(w) == 2 * p;
      var q, r := x / (2 * p), x % (2 * p);
      assert x == 2 * p * q + r;
      assert x == 2 * (p * q + r / 2) + r % 2;
      var h := x / 2;
      assert h == p * q + r / 2;
      assert r % 2 == x % 2;
      assert r / 2 < p;
      ModUnique(h, p, q, r / 2);
  }

  /** The `w`-bit mask of all ones is a one bit after the `w - 1`-bit mask. */
  lemma MaskHalves(w: nat)
    requires w > 0
    ensures (Pow2(w) - 1) / 2 == Pow2(w - 1) - 1 && (Pow2(w) - 1) % 2 == 1
  {
    var p := Pow2(w - 1);
    assert Pow2(w) - 1 == 2 * (p - 1) + 1;
  }

  /** A number is twice its half plus its low bit. */
  lemma Recombine(n: nat, half: nat, low: nat, r: nat)
    requires half == n / 2 && low == n % 2 && r == 2 * half + low
    ensures r == n
  {
  }

  /** `x & -1 == x` on `w` bits. */
  lemma {:induction false} BitsAndAllOnes(x: nat, w: nat)
    ensures Bits(And, x, Pow2(w) - 1, w) == x % Pow2(w)
  {
    if w > 0 {
      var m, m2 := Pow2(w) - 1, Pow2(w - 1) - 1;
      MaskHalves(w);
      var r, rest, b := Bits(And, x, m, w), Bits(And, x / 2, m2, w - 1), x % 2;
      assert r == 2 * rest + Bit(And, b, 1);
      assert Bit(And, b, 1) == b;
      BitsAndAllOnes(x / 2, w - 1);
      HalveMod(x, w);
      Recombine(x % Pow2(w), rest, b, r);
    }
  }

  /** `x | -1 == -1` on `w` bits. */
  lemma {:induction false} BitsOrAllOnes(x: nat, w: nat)
    ensures Bits(Or, x, Pow2(w) - 1, w) == Pow2(w) - 1
  {
    if w > 0 {
      var m, m2 := Pow2(w) - 1, Pow2(w - 1) - 1;
      MaskHalves(w);
      var r, rest := Bits(Or, x, m, w), Bits(Or, x / 2, m2, w - 1);
      assert r == 2 * rest + Bit(Or, x % 2, 1);
      assert Bit(Or, x % 2, 1) == 1;
      BitsOrAllOnes(x / 2, w - 1);
      Recombine(m, m2, 1, r);
    }
  }

  /** All zeros: `x & 0 == 0` and `x | 0 == x` on `w` bits. */
  lemma {:induction false} BitsZero(x: nat, w: nat)
    ensures Bits(And, x, 0, w) == 0
    ensures Bits(Or, x, 0, w) == x % Pow2(w)
  {
    if w > 0 {
      BitsZero(x / 2, w - 1);
      HalveMod(x, w);
      assert x % Pow2(w) == 2 * ((x % Pow2(w)) / 2) + (x % Pow2(w)) % 2;
    }
  }

  /** `&`, `|`, `^` on `i32`: the operation on the two's complement bit patterns. */
  function Bitwise32(op: BitOp, a: i32, b: i32): (r: i32)
    ensures Unsigned(r as int, 32) == Bits(op, Unsigned(a as int, 32), Unsigned(b as int, 32), 32)
  {
    var u := Bits(op, Unsigned(a as int, 32), Unsigned(b as int, 32), 32);
    Pow2Values();
    UnsignedSigned(u, 31);
    Signed(u, 31) as i32
  }

  /** `&`, `|`, `^` on `i64`. */
  function Bitwise64(op: BitOp, a: i64, b: i64): (r: i64)
    ensures Unsigned(r as int, 64) == Bits(op, Unsigned(a as int, 64), Unsigned(b as int, 64), 64)
  {
    var u := Bits(op, Unsigned(a as int, 64), Unsigned(b as int, 64), 64);
    Pow2Values();
    UnsignedSigned(u, 63);
    Signed(u, 63) as i64
  }

  // ---------------------------------------------------------------------
  // Operators
  // ---------------------------------------------------------------------

  /** The binary operators implemented in primitives.rs. */
  datatype ArithOp = Add | Sub | Mul | Div | Rem | Shl | Shr | BitAnd | BitOr | BitXor

  function BitOpOf(op: ArithOp): BitOp
    requires op.BitAnd? || op.BitOr? || op.BitXor?
  {
    match op
    case BitAnd => And
    case BitOr => Or
    case BitXor => Xor
  }

  /** Sign extension of an `int` to a `long` (`promote_to_java_long`). */
  function Promote(a: JavaInt): (r: JavaLong)
    ensures r.v as int == a.v as int
  {
    JavaLong(a.v as int as i64)
  }

  function IsZeroInt(a: JavaInt): (z: bool)
    ensures z <==> a == JavaInt(0)
  {
    a.v == 0
  }

  function IsZeroLong(a: JavaLong): (z: bool)
    ensures z <==> a == JavaLong(0)
  {
    a.v == 0
  }

  /** `JavaLong == JavaInt`: compare the sign-extended value. */
  function LongEqInt(a: JavaLong, b: JavaInt): (e: bool)
    ensures e <==> a == Promote(b)
  {
    b.v as int as i64 == a.v
  }

  /** `JavaInt == JavaLong`: compare the sign-extended value. */
  function IntEqLong(a: JavaInt, b: JavaLong): (e: bool)
    ensures e <==> Promote(a) == b
  {
    b.v == a.v as int as i64
  }

  lemma CrossWidthEqualitySymmetric(a: JavaInt, b: JavaLong)
    ensures IntEqLong(a, b) == LongEqInt(b, a)
    ensures IntEqLong(JavaInt(0), JavaLong(0)) && LongEqInt(JavaLong(0), JavaInt(0))
  {
  }

  /** When `int op int` returns (the others wrap or are total). */
  predicate IntIntDefined(op: ArithOp, a: JavaInt, b: JavaInt) {
    match op
    case Div => b.v != 0
    case Rem => b.v != 0 && !(a == INT_MIN && b.v == -1)
    case Shl => 0 <= b.v < 32
    case Shr => 0 <= b.v < 32
    case _ => true
  }

  /**
   * `int op int`.  Addition, subtraction, multiplication and division go
   * through `Wrapping`; remainder and the shifts are the raw `i32` operators.
   */
  function IntInt(op: ArithOp, a: JavaInt, b: JavaInt): (r: JavaInt)
    requires IntIntDefined(op, a, b)
    ensures op.Add? ==> r.v as int % TWO_32 == (a.v as int + b.v as int) % TWO_32
    ensures op.Sub? ==> r.v as int % TWO_32 == (a.v as int - b.v as int) % TWO_32
    ensures op.Mul? ==> r.v as int % TWO_32 == (a.v as int * b.v as int) % TWO_32
    ensures op.Div? ==> if a == INT_MIN && b.v == -1 then r == INT_MIN else r.v as int == TruncDiv(a.v as int, b.v as int)
    ensures op.Rem? ==> a.v as int == b.v as int * TruncDiv(a.v as int, b.v as int) + r.v as int
    ensures op.Shl? ==> r.v as int % TWO_32 == (a.v as int * Pow2(b.v as int)) % TWO_32
    ensures op.Shr? ==> Pow2(b.v as int) * r.v as int <= a.v as int < Pow2(b.v as int) * (r.v as int + 1)
  {
    var x, y := a.v as int, b.v as int;
    match op
    case Add => JavaInt(Wrap32(x + y))
    case Sub => JavaInt(Wrap32(x - y))
    case Mul => JavaInt(Wrap32(x * y))
    case Div => IntDiv(a, b)
    case Rem => JavaInt(TruncRem(x, y) as i32)
    case Shl => JavaInt(Wrap32(x * Pow2(y)))
    case Shr => JavaInt(FloorShift(x, y) as i32)
    case BitAnd => JavaInt(Bitwise32(And, a.v, b.v))
    case BitOr => JavaInt(Bitwise32(Or, a.v, b.v))
    case BitXor => JavaInt(Bitwise32(Xor, a.v, b.v))
  }

  /** `Wrapping(a) / Wrapping(b)` on `i32`: truncating division that maps `MIN / -1` back to `MIN`. */
  function IntDiv(a: JavaInt, b: JavaInt): (r: JavaInt)
    requires b.v != 0
    ensures if a == INT_MIN && b.v == -1 then r == INT_MIN else r.v as int == TruncDiv(a.v as int, b.v as int)
  {
    var x, y := a.v as int, b.v as int;
    if a == INT_MIN && y == -1 then
      // the quotient 2^31 wraps to -2^31
      assert TruncDiv(x, y) == TWO_31;
      JavaInt(Wrap32(TruncDiv(x, y)))
    else
      DivInRange(x, y, TWO_31);
      JavaInt(TruncDiv(x, y) as i32)
  }

  /** Arithmetic right shift: division by `2^d` rounding toward negative infinity. */
  function FloorShift(x: int, d: nat): (r: int)
    ensures Pow2(d) * r <= x < Pow2(d) * (r + 1)
    ensures x >= 0 ==> 0 <= r <= x
    ensures x < 0 ==> x <= r < 0
  {
    FloorDivBounds(x, Pow2(d));
    x / Pow2(d)
  }

  /** `((x as u32) >> d) as i32`: a logical right shift of the 32-bit pattern. */
  function UShr32(a: JavaInt, d: nat): (r: JavaInt)
    requires d < 32
    ensures Unsigned(r.v as int, 32) == Unsigned(a.v as int, 32) / Pow2(d)
    ensures a.v >= 0 ==> r.v as int == FloorShift(a.v as int, d)
    ensures d > 0 ==> r.v >= 0
  {
    var q := ShiftedPattern(a.v as int, d);
    LogicalShiftFacts(a.v as int, d);
    JavaInt(Signed(q, 31) as i32)
  }

  /** `((-8i32 as u32) >> 1) as i32` is 2147483644. */
  lemma UShr32Example()
    ensures UShr32(JavaInt(-8), 1) == JavaInt(0x7FFF_FFFC)
  {
    Pow2Values();
    assert Pow2(1) == 2;
    ModUnique(-8, TWO_32, -1, TWO_32 - 8);
    ModUnique(TWO_32 - 8, 2, 0x7FFF_FFFC, 0);
    var r := UShr32(JavaInt(-8), 1);
    assert r.v >= 0;
    ModUnique(r.v as int, TWO_32, 0, r.v as int);
  }

  /** The 32-bit pattern of `x` shifted right by `d`, with zeros shifted in. */
  function ShiftedPattern(x: int, d: nat): (q: nat)
    ensures q == Unsigned(x, 32) / Pow2(d)
    ensures q <= Unsigned(x, 32)
  {
    FloorDivBounds(Unsigned(x, 32), Pow2(d));
    Unsigned(x, 32) / Pow2(d)
  }

  lemma LogicalShiftFacts(x: int, d: nat)
    requires InI32(x) && d < 32
    ensures InI32(Signed(ShiftedPattern(x, d), 31))
    ensures Unsigned(Signed(ShiftedPattern(x, d), 31), 32) == ShiftedPattern(x, d)
    ensures x >= 0 ==> Signed(ShiftedPattern(x, d), 31) == FloorShift(x, d)
    ensures d > 0 ==> Signed(ShiftedPattern(x, d), 31) >= 0
  {
    Pow2Values();
    var u := Unsigned(x, 32);
    var q := ShiftedPattern(x, d);
    assert 0 <= q <= u < TWO_32;
    UnsignedSigned(q, 31);
    if x >= 0 {
      ModUnique(x, TWO_32, 0, x);
      assert u == x;
    }
    if d > 0 {
      QuotientHalves(u, d);
    }
  }

  lemma QuotientHalves(u: nat, d: nat)
    requires 0 < d && u < TWO_32
    ensures u / Pow2(d) < TWO_31
  {
    var q := u / Pow2(d);
    FloorDivBounds(u, Pow2(d));
    MulMono(2, Pow2(d), q);
  }

  /** Truncating division stays in range except for `MIN / -1`. */
  lemma DivInRange(x: int, y: int, half: int)
    requires y != 0 && half > 0 && -half <= x < half
    ensures !(x == -half && y == -1) ==> -half <= (if (x < 0) == (y < 0) then Abs(x) / Abs(y) else -(Abs(x) / Abs(y))) < half
  {
      var q := Abs(x) / Abs(y);
      FloorDivBounds(Abs(x), Abs(y));
      if Abs(y) == 1 {
        assert q == Abs(x);
      } else {
        assert Abs(y) * q <= Abs(x);
        MulMono(2, Abs(y), q);
      }
  }

  /** When `long op long` returns: the unwrapped `i64` result must not overflow. */
  predicate LongLongDefined(op: ArithOp, a: JavaLong, b: JavaLong) {
    var x, y := a.v as int, b.v as int;
    match op
    case Add => InI64(x + y)
    case Sub => InI64(x - y)
    case Mul => InI64(x * y)
    case Div => y != 0 && !(a == LONG_MIN && y == -1)
    case Rem => y != 0 && !(a == LONG_MIN && y == -1)
    case Shl => 0 <= y < 64
    case Shr => 0 <= y < 64
    case _ => true
  }

  /**
   * `long op long`.  Each arithmetic operator computes the raw `i64` result
   * and only then wraps it, so the raw result must already be in range.
   */
  function LongLong(op: ArithOp, a: JavaLong, b: JavaLong): (r: JavaLong)
    requires LongLongDefined(op, a, b)
    ensures op.Add? ==> r.v as int == a.v as int + b.v as int
    ensures op.Sub? ==> r.v as int == a.v as int - b.v as int
    ensures op.Mul? ==> r.v as int == a.v as int * b.v as int
    ensures op.Div? ==> r.v as int == TruncDiv(a.v as int, b.v as int)
    ensures op.Rem? ==> a.v as int == b.v as int * TruncDiv(a.v as int, b.v as int) + r.v as int
    ensures op.Shl? ==> r.v as int % TWO_64 == (a.v as int * Pow2(b.v as int)) % TWO_64
    ensures op.Shr? ==> Pow2(b.v as int) * r.v as int <= a.v as int < Pow2(b.v as int) * (r.v as int + 1)
  {
    var x, y := a.v as int, b.v as int;
    match op
    case Add => JavaLong((x + y) as i64)
    case Sub => JavaLong((x - y) as i64)
    case Mul => JavaLong((x * y) as i64)
    case Div =>
      DivInRange(x, y, TWO_63);
      JavaLong(TruncDiv(x, y) as i64)
    case Rem => JavaLong(TruncRem(x, y) as i64)
    case Shl => JavaLong(Wrap64(x * Pow2(y)))
    case Shr => JavaLong(FloorShift(x, y) as i64)
    case BitAnd => JavaLong(Bitwise64(And, a.v, b.v))
    case BitOr => JavaLong(Bitwise64(Or, a.v, b.v))
    case BitXor => JavaLong(Bitwise64(Xor, a.v, b.v))
  }

  predicate LongIntDefined(op: ArithOp, a: JavaLong, b: JavaInt) {
    LongLongDefined(op, a, Promote(b))
  }

  /** `long op int`: the `int` is sign-extended and the raw `i64` operator applied. */
  function LongInt(op: ArithOp, a: JavaLong, b: JavaInt): (r: JavaLong)
    requires LongIntDefined(op, a, b)
  {
    LongLong(op, a, Promote(b))
  }

  /** When `int op long` returns: only division, remainder and shifts can panic. */
  predicate IntLongDefined(op: ArithOp, a: JavaInt, b: JavaLong) {
    var y := b.v as int;
    match op
    case Div => y != 0
    case Rem => y != 0
    case Shl => 0 <= y < 64
    case Shr => 0 <= y < 64
    case _ => true
  }

  /**
   * `int op long`.  Unlike `long op int`, addition, subtraction,
   * multiplication and division wrap the sign-extended operands.
   */
  function IntLong(op: ArithOp, a: JavaInt, b: JavaLong): (r: JavaLong)
    requires IntLongDefined(op, a, b)
    ensures op.Add? ==> r.v as int % TWO_64 == (a.v as int + b.v as int) % TWO_64
    ensures op.Sub? ==> r.v as int % TWO_64 == (a.v as int - b.v as int) % TWO_64
    ensures op.Mul? ==> r.v as int % TWO_64 == (a.v as int * b.v as int) % TWO_64
  {
    var x, y := a.v as int, b.v as int;
    match op
    case Add => JavaLong(Wrap64(x + y))
    case Sub => JavaLong(Wrap64(x - y))
    case Mul => JavaLong(Wrap64(x * y))
    case Div =>
      DivInRange(x, y, TWO_63);
      JavaLong(Wrap64(TruncDiv(x, y)))
    case Rem => LongLong(Rem, Promote(a), b)
    case Shl => LongLong(Shl, Promote(a), b)
    case Shr => LongLong(Shr, Promote(a), b)
    case BitAnd => LongLong(BitAnd, Promote(a), b)
    case BitOr => LongLong(BitOr, Promote(a), b)
    case BitXor => LongLong(BitXor, Promote(a), b)
  }

  /** Binary numeric promotion: wherever `long op long` returns, `int op long` gives the same result on the promoted `int`. */
  lemma IntLongPromotes(op: ArithOp, a: JavaInt, b: JavaLong)
    requires LongLongDefined(op, Promote(a), b)
    ensures IntLongDefined(op, a, b)
    ensures IntLong(op, a, b) == LongLong(op, Promote(a), b)
  {
  }

  /** `int op int` is the low 32 bits of `long op long` on the promoted operands for the ring operators. */
  lemma IntIntIsLowBitsOfLong(op: ArithOp, a: JavaInt, b: JavaInt)
    requires op.Add? || op.Sub? || op.Mul?
    ensures LongLongDefined(op, Promote(a), Promote(b))
    ensures IntInt(op, a, b).v == Wrap32(LongLong(op, Promote(a), Promote(b)).v as int)
  {
    var x, y := a.v as int, b.v as int;
    if op.Mul? {
      assert -TWO_31 * TWO_31 <= x * y <= TWO_31 * TWO_31 by {
        MulBounds(x, y, TWO_31);
      }
    }
  }

  lemma MulBounds(x: int, y: int, h: int)
    requires h >= 0 && -h <= x <= h && -h <= y <= h
    ensures -(h * h) <= x * y <= h * h
  {
      MulMono(Abs(x), h, Abs(y));
      MulMono(Abs(y), h, h);
      assert Abs(x) * Abs(y) == Abs(y) * Abs(x);
      assert x * y == Abs(x) * Abs(y) || x * y == -(Abs(x) * Abs(y));
  }

  /**
   * The asymmetry between the two mixed-width additions: `int + long` wraps
   * where `long + int` on the same values does not return.
   */
  lemma MixedAdditionAsymmetry()
    ensures IntLongDefined(Add, JavaInt(1), LONG_MAX)
    ensures IntLong(Add, JavaInt(1), LONG_MAX) == LONG_MIN
    ensures !LongIntDefined(Add, LONG_MAX, JavaInt(1))
  {
  }

  /** Java's `int` division: `MIN / -1` wraps back to `MIN` (JLS section 15.17.2). */
  lemma IntDivisionOverflowWraps()
    ensures IntIntDefined(Div, INT_MIN, JavaInt(-1))
    ensures IntInt(Div, INT_MIN, JavaInt(-1)) == INT_MIN
    ensures !IntIntDefined(Rem, INT_MIN, JavaInt(-1))
  {
  }

  /** Unary minus on `int`: the raw `i32` negation, which overflows on `MIN`. */
  function IntNeg(a: JavaInt): (r: JavaInt)
    requires a != INT_MIN
    ensures r.v as int == -(a.v as int)
  {
    JavaInt(-a.v)
  }

  /** Unary minus on `long`: the raw `i64` negation. */
  function LongNeg(a: JavaLong): (r: JavaLong)
    requires a != LONG_MIN
    ensures r.v as int == -(a.v as int)
  {
    JavaLong(-a.v)
  }

  // ---------------------------------------------------------------------
  // Text
  // ---------------------------------------------------------------------

  /** `JavaInt::from_str`: Rust's `i32` parser, an optional sign then decimal digits in range. */
  function ParseJavaInt(s: string): (r: Result<JavaInt, string>)
    ensures r.Success? <==> Decimal.ParseSigned(s).Some? && InI32(Decimal.ParseSigned(s).value)
    ensures r.Success? ==> r.value.v as int == Decimal.ParseSigned(s).value
  {
    match Decimal.ParseSigned(s)
    case Some(n) =>
      if InI32(n) then Success(JavaInt(n as i32)) else Failure("Error parsing as i32")
    case None => Failure("Error parsing as i32")
  }

  /** `JavaLong::from_str`: strip one trailing `l`/`L`, then Rust's `i64` parser. */
  function ParseJavaLong(s: string): (r: Result<JavaLong, string>)
    ensures r.Success? <==> |s| > 0 && (s[|s| - 1] == 'l' || s[|s| - 1] == 'L')
                            && Decimal.ParseSigned(s[..|s| - 1]).Some? && InI64(Decimal.ParseSigned(s[..|s| - 1]).value)
    ensures r.Success? ==> |s| > 1 && Decimal.ParseSigned(s[..|s| - 1]) == Some(r.value.v as int)
  {
    if |s| > 0 && (s[|s| - 1] == 'l' || s[|s| - 1] == 'L') then
      match Decimal.ParseSigned(s[..|s| - 1])
      case Some(n) =>
        if InI64(n) then Success(JavaLong(n as i64)) else Failure("Error parsing as i64")
      case None => Failure("Error parsing as i64")
    else Failure("JavaLong literals must end with `l` or `L`")
  }

  /** `Display` for `JavaInt`. */
  function ShowInt(a: JavaInt): string {
    Decimal.IntToString(a.v as int)
  }

  /** `Display` for `JavaLong`: the digits alone, without the `l` suffix. */
  function ShowLong(a: JavaLong): string {
    Decimal.IntToString(a.v as int)
  }

  lemma ParseShowInt(a: JavaInt)
    ensures ParseJavaInt(ShowInt(a)) == Success(a)
  {
    Decimal.SignedRoundTrip(a.v as int);
  }

  lemma ParseShowLong(a: JavaLong)
    ensures ParseJavaLong(ShowLong(a) + "l") == Success(a)
    ensures ParseJavaLong(ShowLong(a)).Failure?
  {
    var s := ShowLong(a) + "l";
    assert s[..|s| - 1] == ShowLong(a);
    Decimal.SignedRoundTrip(a.v as int);
    var t := ShowLong(a);
    assert t[|t| - 1] != 'l' && t[|t| - 1] != 'L' by {
      assert Decimal.IsDigit(Decimal.NatToString(Abs(a.v as int))[|Decimal.NatToString(Abs(a.v as int))| - 1]);
      if a.v < 0 {
        assert t == "-" + Decimal.NatToString(-(a.v as int));
      }
    }
  }
}
