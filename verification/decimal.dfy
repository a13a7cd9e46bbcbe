/**
 * Decimal text: the digit strings that Rust's `str::parse` and Java's
 * `Integer.parseInt` accept, and the canonical rendering that Rust's
 * `Display` and Java's `%d` produce.  Only ASCII digits are modelled.
 */
module Decimal {
  import opened Wrappers

  predicate IsDigit(c: char) {
    '0' <= c <= '9'
  }

  predicate AllDigits(s: string) {
    forall i :: 0 <= i < |s| ==> IsDigit(s[i])
  }

  function DigitValue(c: char): (d: nat)
    requires IsDigit(c)
    ensures d < 10
  {
    (c as int - '0' as int) as nat
  }

  function DigitChar(d: nat): (c: char)
    requires d < 10
    ensures IsDigit(c) && DigitValue(c) == d
  {
    ('0' as int + d) as char
  }

  /** The value of a digit string read most-significant digit first. */
  function DigitsValue(s: string): nat
    requires AllDigits(s)
  {
    if |s| == 0 then 0 else DigitsValue(s[..|s| - 1]) * 10 + DigitValue(s[|s| - 1])
  }

  /** The shortest decimal rendering of `n` (no sign, no leading zeros). */
  function NatToString(n: nat): (s: string)
    ensures |s| > 0 && AllDigits(s)
    ensures |s| > 1 ==> s[0] != '0'
  {
    if n < 10 then [DigitChar(n)] else NatToString(n / 10) + [DigitChar(n % 10)]
  }

  lemma {:induction false} NatToStringRoundTrip(n: nat)
    ensures DigitsValue(NatToString(n)) == n
    decreases n
  {
    var s := NatToString(n);
    if n >= 10 {
      NatToStringRoundTrip(n / 10);
      assert s[..|s| - 1] == NatToString(n / 10);
    }
  }

  /** Rendering of a signed integer: a minus sign in front of the magnitude. */
  function IntToString(i: int): (s: string)
    ensures |s| > 0
    ensures i < 0 <==> s[0] == '-'
  {
    if i < 0 then "-" + NatToString(-i) else NatToString(i)
  }

  /** Text accepted by Rust's signed `parse` and Java's `Integer.parseInt`: an optional sign then one or more digits. */
  function ParseSigned(s: string): (r: Option<int>)
    ensures r.Some? ==> |s| > 0
    ensures r.Some? && s[0] != '-' ==> r.value >= 0
  {
    if |s| > 0 && (s[0] == '-' || s[0] == '+') then
      var body := s[1..];
      if |body| > 0 && AllDigits(body) then
        var magnitude: int := DigitsValue(body);
        Some(if s[0] == '-' then -magnitude else magnitude)
      else None
    else if |s| > 0 && AllDigits(s) then Some(DigitsValue(s))
    else None
  }

  /** Text accepted by Rust's unsigned `parse`: an optional `+` then one or more digits. */
  function ParseUnsigned(s: string): (r: Option<nat>)
    ensures r.Some? ==> |s| > 0 && s[0] != '-'
  {
    if |s| > 0 && s[0] == '+' then
      var body := s[1..];
      if |body| > 0 && AllDigits(body) then Some(DigitsValue(body)) else None
    else if |s| > 0 && AllDigits(s) then Some(DigitsValue(s))
    else None
  }

  lemma SignedRoundTrip(i: int)
    ensures ParseSigned(IntToString(i)) == Some(i)
  {
    var s := IntToString(i);
    if i < 0 {
      assert s[1..] == NatToString(-i);
      NatToStringRoundTrip(-i);
    } else {
      NatToStringRoundTrip(i);
    }
  }

  lemma UnsignedRoundTrip(n: nat)
    ensures ParseUnsigned(NatToString(n)) == Some(n)
  {
    NatToStringRoundTrip(n);
  }

  const U32Bound: nat := 0x1_0000_0000

  /** Rust's `str::parse::<u32>`: unsigned decimal text whose value fits in 32 bits. */
  function ParseU32(t: string): (r: Option<nat>)
    ensures r.Some? ==> r.value < U32Bound
  {
    match ParseUnsigned(t)
    case Some(n) => if n < U32Bound then Some(n) else None
    case None => None
  }

  lemma U32RoundTrip(n: nat)
    requires n < U32Bound
    ensures ParseU32(NatToString(n)) == Some(n)
  {
    UnsignedRoundTrip(n);
  }
}
