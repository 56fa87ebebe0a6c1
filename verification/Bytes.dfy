/** Byte strings: the parts of `str` and integer parsing that the HTTP code
    calls, with UTF-8 well-formedness and Unicode white space written out. */
module Bytes {
  import opened Common

  type byte = b: int | 0 <= b < 256
  type bytes = seq<byte>

  const CR: byte := 13
  const LF: byte := 10
  const SEMICOLON: byte := 59
  const CRLF: bytes := [13, 10]

  /** Largest `usize` and `u64` of a 64-bit target. */
  const USIZE_MAX: nat := 0xFFFF_FFFF_FFFF_FFFF

  predicate Continuation(b: byte) { 0x80 <= b <= 0xBF }

  /** Length of the well-formed UTF-8 character at the front, 0 if there is none. */
  function Utf8CharLength(s: bytes): (n: nat)
    ensures n <= |s|
  {
    if |s| >= 1 && s[0] < 0x80 then 1
    else if |s| >= 2 && 0xC2 <= s[0] <= 0xDF && Continuation(s[1]) then 2
    else if |s| >= 3 && Continuation(s[2])
            && ((s[0] == 0xE0 && 0xA0 <= s[1] <= 0xBF)
                || (s[0] == 0xED && 0x80 <= s[1] <= 0x9F)
                || ((0xE1 <= s[0] <= 0xEC || 0xEE <= s[0] <= 0xEF) && Continuation(s[1]))) then 3
    else if |s| >= 4 && Continuation(s[2]) && Continuation(s[3])
            && ((s[0] == 0xF0 && 0x90 <= s[1] <= 0xBF)
                || (s[0] == 0xF4 && 0x80 <= s[1] <= 0x8F)
                || (0xF1 <= s[0] <= 0xF3 && Continuation(s[1]))) then 4
    else 0
  }

  predicate ValidUtf8(s: bytes)
    decreases |s|
  {
    s == [] || (Utf8CharLength(s) > 0 && ValidUtf8(s[Utf8CharLength(s)..]))
  }

  predicate IsAscii(s: bytes) { forall i :: 0 <= i < |s| ==> s[i] < 0x80 }

  lemma {:induction false} AsciiPrefixIsNeutral(a: bytes, b: bytes)
    requires IsAscii(a)
    ensures ValidUtf8(a + b) == ValidUtf8(b)
    decreases |a|
  {
    if a == [] {
      assert a + b == b;
    } else {
      AsciiPrefixIsNeutral(a[1..], b);
      assert (a + b)[1..] == a[1..] + b;
    }
  }

  /** Length of the white-space character at position `i`, 0 if there is none. */
  function SpaceAt(s: bytes, i: nat): (n: nat)
    ensures n > 0 ==> i + n <= |s|
  {
    if i + 1 <= |s| && (9 <= s[i] <= 13 || s[i] == 32) then 1
    else if i + 2 <= |s| && s[i] == 0xC2 && (s[i + 1] == 0x85 || s[i + 1] == 0xA0) then 2
    else if i + 3 <= |s| && s[i] == 0xE1 && s[i + 1] == 0x9A && s[i + 2] == 0x80 then 3
    else if i + 3 <= |s| && s[i] == 0xE2 && s[i + 1] == 0x80
            && (0x80 <= s[i + 2] <= 0x8A || s[i + 2] == 0xA8 || s[i + 2] == 0xA9 || s[i + 2] == 0xAF) then 3
    else if i + 3 <= |s| && s[i] == 0xE2 && s[i + 1] == 0x81 && s[i + 2] == 0x9F then 3
    else if i + 3 <= |s| && s[i] == 0xE3 && s[i + 1] == 0x80 && s[i + 2] == 0x80 then 3
    else 0
  }

  /** Length of the white-space character at the end, 0 if there is none. */
  function SpaceAtEnd(s: bytes): (n: nat)
    ensures n <= |s|
  {
    if |s| >= 1 && SpaceAt(s, |s| - 1) == 1 then 1
    else if |s| >= 2 && SpaceAt(s, |s| - 2) == 2 then 2
    else if |s| >= 3 && SpaceAt(s, |s| - 3) == 3 then 3
    else 0
  }

  function TrimStart(s: bytes): bytes
    decreases |s|
  {
    if SpaceAt(s, 0) == 0 then s else TrimStart(s[SpaceAt(s, 0)..])
  }

  function TrimEnd(s: bytes): bytes
    decreases |s|
  {
    if SpaceAtEnd(s) == 0 then s else TrimEnd(s[..|s| - SpaceAtEnd(s)])
  }

  function Trim(s: bytes): bytes { TrimEnd(TrimStart(s)) }

  /** The text before the first separator, all of it without one. */
  function Before(s: bytes, separator: byte): bytes {
    if s == [] || s[0] == separator then [] else [s[0]] + Before(s[1..], separator)
  }

  function Digit(b: byte): Option<nat> {
    if 48 <= b <= 57 then Some(b - 48)
    else if 97 <= b <= 102 then Some(b - 87)
    else if 65 <= b <= 70 then Some(b - 55)
    else None
  }

  /** The number a run of digits stands for. */
  function Digits(s: bytes, radix: nat): Option<nat> {
    if s == [] then Some(0)
    else match (Digits(s[..|s| - 1], radix), Digit(s[|s| - 1]))
      case (Some(high), Some(low)) => if low < radix then Some(high * radix + low) else None
      case (_, _) => None
  }

  /** `from_str_radix` of an unsigned type: one optional plus sign, at least
      one digit, no overflow. */
  function ParseUnsigned(s: bytes, radix: nat, max: nat): Option<nat> {
    var digits := if s != [] && s[0] == 43 then s[1..] else s;
    if digits == [] then None
    else match Digits(digits, radix)
      case Some(n) => if n <= max then Some(n) else None
      case None => None
  }

  function HexDigit(n: nat): byte
    requires n < 16
  {
    if n < 10 then 48 + n else 87 + n
  }

  function HexOf(n: nat): bytes {
    if n < 16 then [HexDigit(n)] else HexOf(n / 16) + [HexDigit(n % 16)]
  }

  predicate IsHexDigits(s: bytes) {
    forall i :: 0 <= i < |s| ==> 48 <= s[i] <= 57 || 65 <= s[i] <= 70 || 97 <= s[i] <= 102
  }

  lemma {:induction false} HexRoundTrip(n: nat)
    ensures HexOf(n) != [] && IsHexDigits(HexOf(n))
    ensures Digits(HexOf(n), 16) == Some(n)
    decreases n
  {
    if n < 16 {
      assert HexOf(n)[..0] == [];
    } else {
      HexRoundTrip(n / 16);
      assert HexOf(n)[..|HexOf(n)| - 1] == HexOf(n / 16);
    }
  }

  // ---------------------------------------------------------------------
  // Line ends.
  // ---------------------------------------------------------------------

  predicate CrlfAt(s: bytes, i: nat) { i + 1 < |s| && s[i] == CR && s[i + 1] == LF }

  predicate NoCrlf(s: bytes) { forall i: nat :: i < |s| ==> !CrlfAt(s, i) }

  function FirstCrlfFrom(s: bytes, from: nat): (r: Option<nat>)
    requires from <= |s|
    ensures r.None? ==> forall i: nat :: from <= i < |s| ==> !CrlfAt(s, i)
    ensures r.Some? ==> from <= r.value && CrlfAt(s, r.value) && forall i: nat :: from <= i < r.value ==> !CrlfAt(s, i)
    decreases |s| - from
  {
    if from == |s| then None
    else if CrlfAt(s, from) then Some(from)
    else FirstCrlfFrom(s, from + 1)
  }

  /** `windows(2).position(..)`: where the first CRLF starts. */
  function FirstCrlf(s: bytes): (r: Option<nat>)
    ensures r.None? <==> NoCrlf(s)
    ensures r.Some? ==> CrlfAt(s, r.value) && forall i: nat :: i < r.value ==> !CrlfAt(s, i)
  {
    FirstCrlfFrom(s, 0)
  }

  /** A line without CRLF is what precedes the first CRLF, whatever follows. */
  lemma LineEndsAtFirstCrlf(line: bytes, rest: bytes)
    requires NoCrlf(line)
    ensures FirstCrlf(line + CRLF + rest) == Some(|line|)
    ensures (line + CRLF + rest)[..|line|] == line
    ensures (line + CRLF + rest)[|line| + 2..] == rest
  {
    var s := line + CRLF + rest;
    assert CrlfAt(s, |line|);
    forall i: nat | i < |line|
      ensures !CrlfAt(s, i)
    {
      assert !CrlfAt(line, i);
    }
  }

  /** Cutting a line at or before its CR leaves no CRLF. */
  lemma CutLineHasNoCrlf(line: bytes, p: bytes)
    requires NoCrlf(line) && p <= line + [CR]
    ensures NoCrlf(p)
  {
    forall i: nat | i < |p|
      ensures !CrlfAt(p, i)
    {
      assert i < |line| ==> !CrlfAt(line, i);
    }
  }
}
