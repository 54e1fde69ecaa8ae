/** Decimal numbers in protocol headers: what the printer writes and what `atoi` reads back. */
module Decimal {
  import opened Base

  const INT32_MAX := 0x7FFF_FFFF
  const TWO_32 := 0x1_0000_0000
  const TWO_63 := 0x8000_0000_0000_0000

  predicate IsSpace(c: byte) { c == SPACE || 9 <= c <= 13 }

  predicate IsDigit(c: byte) { 48 <= c <= 57 }

  function SkipSpaces(s: bytes): bytes {
    if s != [] && IsSpace(s[0]) then SkipSpaces(s[1..]) else s
  }

  function Magnitude(s: bytes, acc: nat): nat {
    if s != [] && IsDigit(s[0]) then Magnitude(s[1..], 10 * acc + (s[0] - 48)) else acc
  }

  function Signed(s: bytes): int {
    if s != [] && s[0] == MINUS then 0 - Magnitude(s[1..], 0)
    else if s != [] && s[0] == PLUS then Magnitude(s[1..], 0)
    else Magnitude(s, 0)
  }

  /** The 64-bit result of strtol, which saturates. */
  function Saturate(v: int): int {
    if v >= TWO_63 then TWO_63 - 1 else if v < -TWO_63 then -TWO_63 else v
  }

  /** Two's complement truncation to 32 bits. */
  function Int32(v: int): (r: int)
    ensures -INT32_MAX - 1 <= r <= INT32_MAX
    ensures -INT32_MAX - 1 <= v <= INT32_MAX ==> r == v
    ensures (r - v) % TWO_32 == 0
  {
    var u := v % TWO_32;
    if u > INT32_MAX then u - TWO_32 else u
  }

  /** atoi over the memory that starts at s. */
  function Atoi(s: bytes): int {
    Int32(Saturate(Signed(SkipSpaces(s))))
  }

  /**
   * `ParseInt32(buf, 1, -1)` where buf holds `line` and `beyond` is the memory after it:
   * atoi is not told where the line ends.
   */
  function ParseInt32(line: bytes, beyond: bytes): (r: int)
    ensures -INT32_MAX - 1 <= r <= INT32_MAX
  {
    if |line| <= 1 then 0 else Atoi((line + beyond)[1..])
  }

  function Digits(n: nat): (s: bytes)
    ensures |s| >= 1
    ensures n > 0 ==> s[0] != 48
    ensures forall i :: 0 <= i < |s| ==> IsDigit(s[i])
  {
    if n < 10 then [48 + n] else Digits(n / 10) + [48 + n % 10]
  }

  lemma {:induction false} MagnitudeOfDigits(n: nat, rest: bytes)
    ensures Magnitude(Digits(n) + rest, 0) == Magnitude(rest, n)
  {
    if n < 10 {
      assert (Digits(n) + rest)[1..] == rest;
    } else {
      var d: bytes := [48 + n % 10];
      assert Digits(n) + rest == Digits(n / 10) + (d + rest);
      MagnitudeOfDigits(n / 10, d + rest);
      assert (d + rest)[1..] == rest;
    }
  }

  /** atoi gives back the printed number whatever memory follows the line ending. */
  lemma AtoiOfDigits(n: nat, rest: bytes)
    requires n <= INT32_MAX
    ensures Atoi(Digits(n) + CRLF + rest) == n
  {
    var s := Digits(n) + (CRLF + rest);
    assert Digits(n) + CRLF + rest == s;
    MagnitudeOfDigits(n, CRLF + rest);
    assert s[0] == Digits(n)[0];
  }

  /** A sign in front of the digits, or none. */
  predicate Sign(sign: bytes) {
    sign == [] || sign == [PLUS] || sign == [MINUS]
  }

  /**
   * Any number, with spaces and a sign in front: it is kept modulo 2^32, and what does not fit into 64 bits is
   * -1 when positive and 0 when negative.
   */
  lemma AtoiOfNumber(spaces: bytes, sign: bytes, n: nat, rest: bytes)
    requires Sign(sign) && forall i :: 0 <= i < |spaces| ==> IsSpace(spaces[i])
    ensures var v := if sign == [MINUS] then 0 - n else n;
      var r := Atoi(spaces + (sign + (Digits(n) + CRLF + rest)));
      if v >= TWO_63 then r == -1
      else if v < 0 - TWO_63 then r == 0
      else -INT32_MAX - 1 <= r <= INT32_MAX && (r - v) % TWO_32 == 0
  {
    var v: int := if sign == [MINUS] then 0 - n else n;
    SignedNumber(sign, n, rest);
    SkipAll(spaces, sign + (Digits(n) + CRLF + rest));
    TruncatedIs(v);
    hide Signed, SkipSpaces, Digits, Int32, Saturate, IsSpace;
  }

  lemma SignedNumber(sign: bytes, n: nat, rest: bytes)
    requires Sign(sign)
    ensures var s := sign + (Digits(n) + CRLF + rest);
      && Signed(s) == (if sign == [MINUS] then 0 - n else n)
      && s != [] && !IsSpace(s[0])
  {
    var text := Digits(n) + (CRLF + rest);
    assert Digits(n) + CRLF + rest == text;
    assert text[0] == Digits(n)[0];
    MagnitudeOfDigits(n, CRLF + rest);
    hide Digits;
    if sign == [] {
      assert sign + text == text;
    } else {
      assert (sign + text)[1..] == text;
    }
  }

  /** What is left of a number that does not fit. */
  lemma TruncatedIs(v: int)
    ensures v >= TWO_63 ==> Int32(Saturate(v)) == -1
    ensures v < 0 - TWO_63 ==> Int32(Saturate(v)) == 0
    ensures 0 - TWO_63 <= v < TWO_63 ==> Saturate(v) == v
  {
  }

  lemma {:induction false} SkipAll(spaces: bytes, s: bytes)
    requires forall i :: 0 <= i < |spaces| ==> IsSpace(spaces[i])
    requires s != [] && !IsSpace(s[0])
    ensures SkipSpaces(spaces + s) == s
    decreases |spaces|
  {
    if spaces == [] {
      assert spaces + s == s;
    } else {
      assert (spaces + s)[1..] == spaces[1..] + s;
      SkipAll(spaces[1..], s);
    }
  }
}
