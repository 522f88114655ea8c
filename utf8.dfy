/** UTF-8 as the line encoder sees it: the number of bytes each character
    takes (Go's `utf8.RuneLen`), the bytes themselves (section 3 of RFC 3629),
    and the byte length of a whole line (Go's `len(s)`). */
module Utf8 {

  newtype byte = x: int | 0 <= x < 256

  /** Code points below this are encoded in one byte: the ASCII range. */
  const RuneSelf: int := 0x80

  /** The number of bytes of `c` in UTF-8, by the length table of section 3
      of RFC 3629. A Dafny `char` is a Unicode scalar value, so the `-1` that
      Go returns for surrogates and values past U+10FFFF cannot arise. */
  function RuneLen(c: char): (w: nat)
    ensures 1 <= w <= 4
    ensures w == 1 <==> c as int < RuneSelf
  {
    if c as int < 0x80 then 1
    else if c as int < 0x800 then 2
    else if c as int < 0x10000 then 3
    else 4
  }

  predicate IsContinuation(b: byte) {
    0x80 <= b < 0xC0
  }

  /** The UTF-8 bytes of one character: a lead byte whose high bits announce
      the length (0xxxxxxx, 110xxxxx, 1110xxxx, 11110xxx) followed by
      continuation bytes 10xxxxxx, the code point's bits spread over the x's. */
  function EncodeRune(c: char): (b: seq<byte>)
    ensures |b| == RuneLen(c)
    ensures |b| == 1 ==> b[0] < 0x80
    ensures |b| == 2 ==> 0xC0 <= b[0] < 0xE0
    ensures |b| == 3 ==> 0xE0 <= b[0] < 0xF0
    ensures |b| == 4 ==> 0xF0 <= b[0] < 0xF8
    ensures forall i | 1 <= i < |b| :: IsContinuation(b[i])
  {
    // n is split into six-bit groups: n == ((q3 * 64 + r2) * 64 + r1) * 64 + r0
    var n := c as int;
    var q1, r0 := n / 64, n % 64;
    var q2, r1 := q1 / 64, q1 % 64;
    var q3, r2 := q2 / 64, q2 % 64;
    if n < 0x80 then
      [n as byte]
    else if n < 0x800 then
      [(0xC0 + q1) as byte, (0x80 + r0) as byte]
    else if n < 0x10000 then
      [(0xE0 + q2) as byte, (0x80 + r1) as byte, (0x80 + r0) as byte]
    else
      [(0xF0 + q3) as byte, (0x80 + r2) as byte, (0x80 + r1) as byte, (0x80 + r0) as byte]
  }

  /** Decoding the bytes of a character gives the character back. */
  lemma DecodeEncodeRune(c: char)
    ensures DecodeRune(EncodeRune(c)) == c as int
  {
    var n := c as int;
    var q1, r0 := n / 64, n % 64;
    var q2, r1 := q1 / 64, q1 % 64;
    var q3, r2 := q2 / 64, q2 % 64;
    assert n == q1 * 64 + r0;
    assert q1 == q2 * 64 + r1;
    assert q2 == q3 * 64 + r2;
  }

  /** The code point carried by the bytes of one character: the lead byte's
      payload bits followed by six bits from each continuation byte. */
  function DecodeRune(b: seq<byte>): int
    requires 1 <= |b| <= 4
  {
    if |b| == 1 then b[0] as int
    else if |b| == 2 then (b[0] as int - 0xC0) * 64 + Six(b[1])
    else if |b| == 3 then (b[0] as int - 0xE0) * 4096 + Six(b[1]) * 64 + Six(b[2])
    else (b[0] as int - 0xF0) * 262144 + Six(b[1]) * 4096 + Six(b[2]) * 64 + Six(b[3])
  }

  /** The six payload bits of a continuation byte. */
  function Six(b: byte): int {
    b as int - 0x80
  }

  /** Go's `len(s)`: the number of bytes of the line in UTF-8. */
  function ByteLen(s: string): nat
  {
    if s == [] then 0 else RuneLen(s[0]) + ByteLen(s[1..])
  }

  /** The UTF-8 bytes of a whole line. */
  function Bytes(s: string): seq<byte>
  {
    if s == [] then [] else EncodeRune(s[0]) + Bytes(s[1..])
  }

  /** ByteLen is the length of the line's UTF-8 encoding. */
  lemma {:induction false} ByteLenIsEncodedLength(s: string)
    ensures ByteLen(s) == |Bytes(s)|
  {
    if s != [] {
      ByteLenIsEncodedLength(s[1..]);
    }
  }

  predicate IsAscii(s: string) {
    forall i | 0 <= i < |s| :: s[i] as int < RuneSelf
  }

  /** A line takes at least one byte per character, and exactly one byte per
      character precisely when every character is ASCII: this is the test
      `len(s) == utf8.RuneCountInString(s)` of the fast path. */
  lemma {:induction false} FastPathIffAscii(s: string)
    ensures ByteLen(s) >= |s|
    ensures ByteLen(s) == |s| <==> IsAscii(s)
  {
    if s != [] {
      FastPathIffAscii(s[1..]);
      assert IsAscii(s) <==> s[0] as int < RuneSelf && IsAscii(s[1..]) by {
        if s[0] as int < RuneSelf && IsAscii(s[1..]) {
          forall i | 0 <= i < |s| ensures s[i] as int < RuneSelf {
            if i > 0 { assert s[i] == s[1..][i - 1]; }
          }
        }
      }
    }
  }
}
