/**
 * The pieces of `java.lang` that the serializer's string handling relies
 * on: exceptions as values, `String.trim`, `String.toLowerCase`,
 * `String.split` with a one-character pattern, `Integer.parseInt` and
 * `Integer.decode`.  Strings are sequences of characters; only ASCII
 * letters and digits get the special treatment the JDK gives them.
 */
module JavaLang {
  import opened Wrappers
  import opened Primitives
  import opened Decimal
  import Text

  datatype ExceptionKind =
    | IllegalState | IllegalArgument | NullPointer | IndexOutOfBounds | NumberFormat | Runtime

  /** A thrown exception: its class and `getMessage()`, which is `null` for the no-argument constructors. */
  datatype Exception = Exception(kind: ExceptionKind, message: Option<string>)

  function Throw(kind: ExceptionKind, message: string): Exception {
    Exception(kind, Some(message))
  }

  /** What a Java call that may throw produces: a value or an exception. */
  datatype Outcome<+T> = Returns(value: T) | Throws(exc: Exception) {
    predicate IsFailure() { Throws? }

    function PropagateFailure<U>(): Outcome<U>
      requires Throws?
    {
      Throws(exc)
    }

    function Extract(): T
      requires Returns?
    {
      value
    }
  }

  // ---------------------------------------------------------------- trim

  /** `String.trim` removes characters at or below the space character. */
  predicate Blank(c: char) {
    c <= ' '
  }

  predicate AllBlank(s: string) {
    forall i :: 0 <= i < |s| ==> Blank(s[i])
  }

  /** The number of leading blank characters. */
  function LeadingBlanks(s: string): (n: nat)
    ensures n <= |s|
    ensures AllBlank(s[..n])
    ensures n < |s| ==> !Blank(s[n])
  {
    if s == [] || !Blank(s[0]) then 0
    else
      var m := LeadingBlanks(s[1..]);
      assert s[..m + 1] == [s[0]] + s[1..][..m];
      m + 1
  }

  /** The length of `s` without its trailing blank characters. */
  function TrailingEnd(s: string): (n: nat)
    ensures n <= |s|
    ensures AllBlank(s[n..])
    ensures n > 0 ==> !Blank(s[n - 1])
  {
    if s == [] || !Blank(s[|s| - 1]) then |s|
    else
      var m := TrailingEnd(s[..|s| - 1]);
      assert forall i :: 0 <= i < |s| - m - 1 ==> s[m..][i] == s[..|s| - 1][m..][i];
      m
  }

  /**
   * `s.trim()`: the middle of `s` between its leading and trailing blanks;
   * the result is empty or starts and ends with a non-blank character.
   */
  function Trim(s: string): (r: string)
    ensures r == [] || (!Blank(r[0]) && !Blank(r[|r| - 1]))
    ensures r == [] <==> AllBlank(s)
    ensures |r| <= |s|
  {
    var i := LeadingBlanks(s);
    if i == |s| then
      assert s[..i] == s;
      ""
    else
      var j := TrailingEnd(s);
      assert !Blank(s[i]);
      s[i..j]
  }

  /** Trimming text without blanks at its ends changes nothing. */
  lemma TrimKeeps(s: string)
    requires s == [] || (!Blank(s[0]) && !Blank(s[|s| - 1]))
    ensures Trim(s) == s
  {
    if s != [] {
      assert LeadingBlanks(s) == 0;
      assert TrailingEnd(s) == |s|;
      assert s[0..|s|] == s;
    }
  }

  /** `trim` is idempotent. */
  lemma TrimIdempotent(s: string)
    ensures Trim(Trim(s)) == Trim(s)
  {
    TrimKeeps(Trim(s));
  }

  /** Blanks around a trimmed text are exactly what `trim` removes. */
  lemma {:induction false} TrimAround(p: string, t: string, q: string)
    requires AllBlank(p) && AllBlank(q)
    requires t == [] || (!Blank(t[0]) && !Blank(t[|t| - 1]))
    ensures Trim(p + t + q) == t
  {
    var s := p + t + q;
    if t == [] {
      assert s == p + q;
      assert AllBlank(s) by {
        forall i | 0 <= i < |s| ensures Blank(s[i]) {
          if i < |p| { assert s[i] == p[i]; } else { assert s[i] == q[i - |p|]; }
        }
      }
    } else {
      var n := LeadingBlanks(s);
      assert s[|p|] == t[0];
      assert forall k :: 0 <= k < |p| ==> s[k] == p[k];
      assert n == |p|;
      var e := TrailingEnd(s);
      assert s[|p| + |t| - 1] == t[|t| - 1];
      assert forall k :: |p| + |t| <= k < |s| ==> s[k] == q[k - |p| - |t|];
      assert e == |p| + |t|;
      assert s[|p|..|p| + |t|] == t;
    }
  }

  // ---------------------------------------------------------------- toLowerCase

  /** `Character.toLowerCase` on the ASCII capitals; other characters are kept. */
  function LowerChar(c: char): (d: char)
    ensures !('A' <= d <= 'Z')
  {
    if 'A' <= c <= 'Z' then (c as int + 32) as char else c
  }

  /** `s.toLowerCase()`, position by position. */
  function ToLowerCase(s: string): (r: string)
    ensures |r| == |s|
    ensures forall i :: 0 <= i < |s| ==> r[i] == LowerChar(s[i])
  {
    seq(|s|, i requires 0 <= i < |s| => LowerChar(s[i]))
  }

  /** Lower-casing twice is lower-casing once. */
  lemma ToLowerCaseIdempotent(s: string)
    ensures ToLowerCase(ToLowerCase(s)) == ToLowerCase(s)
  {
    var r := ToLowerCase(s);
    assert forall i :: 0 <= i < |r| ==> LowerChar(r[i]) == r[i];
  }

  // ---------------------------------------------------------------- split

  function Is(c: char): char -> bool {
    x => x == c
  }

  /** The pieces without the empty strings at the end. */
  function DropTrailingEmpty(ps: seq<string>): (r: seq<string>)
    ensures |r| <= |ps| && r == ps[..|r|]
    ensures r == [] || r[|r| - 1] != ""
    ensures forall i :: |r| <= i < |ps| ==> ps[i] == ""
  {
    if ps == [] || ps[|ps| - 1] != "" then ps
    else DropTrailingEmpty(ps[..|ps| - 1])
  }

  /**
   * `s.split(c)` for a pattern matching the one character `c`: a string
   * without `c` comes back whole; otherwise the pieces between the
   * occurrences of `c`, with trailing empty pieces removed.
   */
  function Split(s: string, c: char): (r: seq<string>)
    ensures c !in s ==> r == [s]
    ensures c in s ==> r == [] || r[|r| - 1] != ""
    ensures forall i :: 0 <= i < |r| ==> c !in r[i]
  {
    if c !in s then [s]
    else
      var ps := Text.Split(s, Is(c));
      var r := DropTrailingEmpty(ps);
      assert forall i :: 0 <= i < |r| ==> r[i] == ps[i] && Text.NoneIn(ps[i], Is(c));
      r
  }

  /** Splitting what was joined with `c` gives back the pieces, when the last one is not empty. */
  lemma SplitJoin(ps: seq<string>, c: char)
    requires |ps| >= 2 && ps[|ps| - 1] != ""
    requires forall i :: 0 <= i < |ps| ==> c !in ps[i]
    ensures Split(Text.Join(ps, c), c) == ps
  {
    forall i | 0 <= i < |ps| ensures Text.NoneIn(ps[i], Is(c)) {
      assert forall k :: 0 <= k < |ps[i]| ==> ps[i][k] in ps[i];
    }
    Text.SplitJoin(ps, c, Is(c));
    var s := Text.Join(ps, c);
    assert s == ps[0] + [c] + Text.Join(ps[1..], c);
    assert s[|ps[0]|] == c;
  }

  /** Splitting what was joined gives back the pieces even after one trailing empty piece, which the split drops. */
  lemma SplitJoinTrailing(ps: seq<string>, c: char)
    requires |ps| >= 1 && ps[|ps| - 1] != ""
    requires forall i :: 0 <= i < |ps| ==> c !in ps[i]
    ensures Split(Text.Join(ps + [""], c), c) == ps
  {
    var qs := ps + [""];
    forall i | 0 <= i < |qs| ensures Text.NoneIn(qs[i], Is(c)) {
      assert forall k :: 0 <= k < |qs[i]| ==> qs[i][k] in qs[i];
    }
    Text.SplitJoin(qs, c, Is(c));
    var s := Text.Join(qs, c);
    assert qs[1..] == ps[1..] + [""];
    assert s == qs[0] + [c] + Text.Join(qs[1..], c);
    assert s[|qs[0]|] == c;
    assert qs[..|qs| - 1] == ps;
  }

  // ---------------------------------------------------------------- searching and slicing

  /** `s.indexOf(c)`: the first position of `c`, or -1. */
  function IndexOfChar(s: string, c: char): (r: int)
    ensures -1 <= r < |s|
    ensures r == -1 <==> c !in s
    ensures r >= 0 ==> s[r] == c && c !in s[..r]
  {
    if s == [] then -1
    else if s[0] == c then 0
    else
      var k := IndexOfChar(s[1..], c);
      if k == -1 then -1
      else
        assert s[..k + 1] == [s[0]] + s[1..][..k];
        k + 1
  }

  /** The first occurrence is where `c` stands with none before it. */
  lemma IndexOfCharAt(s: string, c: char, k: nat)
    requires k < |s| && s[k] == c && c !in s[..k]
    ensures IndexOfChar(s, c) == k
  {
  }

  /** `s.lastIndexOf(c)`: the last position of `c`, or -1. */
  function LastIndexOfChar(s: string, c: char): (r: int)
    ensures -1 <= r < |s|
    ensures r == -1 <==> c !in s
    ensures r >= 0 ==> s[r] == c && c !in s[r + 1..]
  {
    if s == [] then -1
    else if s[|s| - 1] == c then |s| - 1
    else
      var k := LastIndexOfChar(s[..|s| - 1], c);
      if k == -1 then
        assert s == s[..|s| - 1] + [s[|s| - 1]];
        -1
      else
        assert s[k + 1..] == s[..|s| - 1][k + 1..] + [s[|s| - 1]];
        k
  }

  /** `s.substring(b, e)`: StringIndexOutOfBoundsException unless `0 <= b <= e <= s.length()`. */
  function Substring(s: string, b: int, e: int): (r: Outcome<string>)
    ensures 0 <= b <= e <= |s| <==> r.Returns?
    ensures r.Returns? ==> r.value == s[b..e]
    ensures r.Throws? ==> r.exc.kind == IndexOutOfBounds
  {
    if 0 <= b <= e <= |s| then Returns(s[b..e])
    else Throws(Exception(IndexOutOfBounds, None))
  }

  // ---------------------------------------------------------------- integers

  /** `Integer.parseInt(s)`: optional sign, decimal digits, and a value that fits in an `int`. */
  function ParseInt(s: string): (r: Outcome<i32>)
    ensures r.Returns? <==> ParseSigned(s).Some? && InI32(ParseSigned(s).value)
    ensures r.Returns? ==> r.value as int == ParseSigned(s).value
    ensures r.Throws? ==> r.exc.kind == NumberFormat
  {
    match ParseSigned(s)
    case Some(v) =>
      if InI32(v) then Returns(v as i32) else Throws(Throw(NumberFormat, s))
    case None => Throws(Throw(NumberFormat, s))
  }

  /** `Integer.toString` followed by `Integer.parseInt` gives the number back. */
  lemma ParseIntRoundTrip(v: i32)
    ensures ParseInt(IntToString(v as int)) == Returns(v)
  {
    SignedRoundTrip(v as int);
  }

  /** The value of `c` as a digit in `radix` (`Character.digit` on ASCII), if it is one. */
  function RadixDigit(c: char, radix: nat): (r: Option<nat>)
    ensures r.Some? ==> r.value < radix
  {
    var d :=
      if '0' <= c <= '9' then c as int - '0' as int
      else if 'a' <= c <= 'z' then c as int - 'a' as int + 10
      else if 'A' <= c <= 'Z' then c as int - 'A' as int + 10
      else 36;
    if d < radix then Some(d as nat) else None
  }

  predicate AllRadixDigits(s: string, radix: nat) {
    forall i :: 0 <= i < |s| ==> RadixDigit(s[i], radix).Some?
  }

  function RadixValue(s: string, radix: nat): nat
    requires AllRadixDigits(s, radix)
  {
    if s == [] then 0
    else RadixValue(s[..|s| - 1], radix) * radix + RadixDigit(s[|s| - 1], radix).value
  }

  /** Decimal digits mean the same in radix 10 as `DigitsValue` says. */
  lemma {:induction false} DecimalRadix(s: string)
    requires AllDigits(s)
    ensures AllRadixDigits(s, 10) && RadixValue(s, 10) == DigitsValue(s)
  {
    if s != [] {
      DecimalRadix(s[..|s| - 1]);
    }
  }

  /** The radix prefix `Integer.decode` recognises after the sign, and its length. */
  function RadixPrefix(t: string): (r: (nat, nat))
    ensures r.1 <= |t|
  {
    if |t| >= 2 && t[0] == '0' && (t[1] == 'x' || t[1] == 'X') then (16, 2)
    else if |t| >= 1 && t[0] == '#' then (16, 1)
    else if |t| >= 2 && t[0] == '0' then (8, 1)
    else (10, 0)
  }

  /**
   * `Integer.decode(s)`: an optional sign, a radix prefix (`0x`, `0X` or `#`
   * for hexadecimal, a leading `0` for octal), then at least one digit of
   * that radix and no second sign; the signed value must fit in an `int`,
   * so `-0x80000000` decodes and `0x80000000` does not.
   */
  function Decode(s: string): (r: Outcome<i32>)
    ensures r.Throws? ==> r.exc.kind == NumberFormat
    ensures s == [] ==> r.Throws?
  {
    if s == [] then Throws(Throw(NumberFormat, "Zero length string"))
    else
      var negative := s[0] == '-';
      var t := if s[0] == '-' || s[0] == '+' then s[1..] else s;
      var (radix, skip) := RadixPrefix(t);
      var digits := t[skip..];
      if digits != [] && (digits[0] == '-' || digits[0] == '+') then
        Throws(Throw(NumberFormat, "Sign character in wrong position"))
      else if digits == [] || !AllRadixDigits(digits, radix) then Throws(Throw(NumberFormat, s))
      else
        var v: int := if negative then -(RadixValue(digits, radix) as int) else RadixValue(digits, radix);
        if InI32(v) then Returns(v as i32) else Throws(Throw(NumberFormat, s))
  }

  /** Canonical decimal text decodes to its value, as `parseInt` reads it. */
  lemma DecodeDecimal(v: i32)
    ensures Decode(IntToString(v as int)) == Returns(v)
  {
    var s := IntToString(v as int);
    var m := if v < 0 then -(v as int) else v as int;
    var digits := NatToString(m);
    if v < 0 {
      assert s[1..] == digits;
    }
    assert RadixPrefix(digits) == (10, 0) by {
      if |digits| >= 2 { assert digits[0] != '0'; }
      assert !IsDigit('#') && !IsDigit('x');
    }
    assert digits[0..] == digits;
    DecimalRadix(digits);
    NatToStringRoundTrip(m);
  }

  /**
   * Decimal digits alone decode exactly when their value is below 2^31;
   * after a minus sign, exactly when it is at most 2^31.  So the digits of
   * 2^31 decode only as the negative literal.
   */
  lemma DecodeDecimalRange(n: nat)
    ensures Decode(NatToString(n)).Returns? <==> n < TWO_31
    ensures Decode("-" + NatToString(n)).Returns? <==> n <= TWO_31
    ensures n < TWO_31 ==> Decode(NatToString(n)) == Returns(n as i32)
    ensures n <= TWO_31 ==> Decode("-" + NatToString(n)) == Returns((-(n as int)) as i32)
  {
    var digits := NatToString(n);
    assert RadixPrefix(digits) == (10, 0) by {
      if |digits| >= 2 { assert digits[0] != '0'; }
      assert !IsDigit('#') && !IsDigit('x');
    }
    assert digits[0..] == digits;
    assert ("-" + digits)[1..] == digits;
    DecimalRadix(digits);
    NatToStringRoundTrip(n);
  }

  /** Hexadecimal text: `0x1f` is 31. */
  lemma DecodeHex()
    ensures Decode("0x1f") == Returns(31)
  {
    var d := "0x1f"[2..];
    assert d == "1f" && d[..1] == "1" && d[..1][..0] == "";
    assert RadixValue(d, 16) == 31;
  }

  /** A leading zero means octal, and the sign comes first: `-010` is -8, while `08` is not a number. */
  lemma DecodeOctal()
    ensures Decode("-010") == Returns(-8)
    ensures Decode("08").Throws?
  {
    var d := "-010"[1..][1..];
    assert "-010"[1..] == "010" && d == "10" && d[..1] == "1" && d[..1][..0] == "";
    assert RadixValue(d, 8) == 8;
    assert "08"[1..] == "8";
    assert RadixDigit('8', 8).None?;
  }

  /** A second sign is rejected. */
  lemma DecodeSecondSign()
    ensures Decode("+-1").Throws?
  {
    assert "+-1"[1..] == "-1";
  }

  /** `0x80000000` is 2^31: it decodes only with a minus sign in front. */
  lemma DecodeRangeEdge()
    ensures Decode("-0x80000000") == Returns(-0x8000_0000)
    ensures Decode("0x80000000").Throws?
  {
    assert "-0x80000000"[1..] == "0x80000000";
    assert "0x80000000"[2..] == "80000000";
    HexEdgeValue();
  }

  /** The digits `80000000` read in base 16. */
  lemma HexEdgeValue()
    ensures RadixValue("80000000", 16) == 0x8000_0000
  {
    var h := "80000000";
    assert h[..1] == "8" && h[..1][..0] == "";
    assert RadixValue(h[..1], 16) == 8;
    assert h[..2][..1] == h[..1];
    assert RadixValue(h[..2], 16) == 0x80;
    assert h[..3][..2] == h[..2];
    assert RadixValue(h[..3], 16) == 0x800;
    assert h[..4][..3] == h[..3];
    assert RadixValue(h[..4], 16) == 0x8000;
    assert h[..5][..4] == h[..4];
    assert RadixValue(h[..5], 16) == 0x8_0000;
    assert h[..6][..5] == h[..5];
    assert RadixValue(h[..6], 16) == 0x80_0000;
    assert h[..7][..6] == h[..6];
    assert RadixValue(h[..7], 16) == 0x800_0000;
    assert h[..7] == h[..|h| - 1];
  }
}
