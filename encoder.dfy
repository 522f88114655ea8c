/** The line encoder of zsh-unicode-fix (`encodeString`): a line is copied
    unchanged when it is pure ASCII; otherwise each ASCII character is kept
    and every other character is replaced by an ANSI-C quoted escape,
    `$'\uHHHH'` for characters of two or three UTF-8 bytes and `$'\UH...'`
    for characters of four. */
module Encoder {
  import opened Hexadecimal
  import opened Utf8

  /** The two format strings of the encoder: `$'\u%04X'` and `$'\U%X'`. */
  datatype Form = Short | Long

  /** `fmt.Fprintf(&sb, fmtstr, r)` with one of the two format strings. */
  function Escape(form: Form, n: nat): string
  {
    var digits := if form == Short then PadHex(n, 4) else Hex(n);
    (if form == Short then "$'\\u" else "$'\\U") + digits + "'"
  }

  /** An escape is its prefix, the code point in upper-case hexadecimal
      (zero padded to four digits for the short form, the minimal rendering
      for the long form) and the closing quote. */
  lemma EscapeShape(form: Form, n: nat)
    ensures var r := Escape(form, n);
      |r| >= 6 && r[|r| - 1] == '\'' &&
      r[..4] == (if form == Short then "$'\\u" else "$'\\U") &&
      AllHex(r[4..|r| - 1]) && Value(r[4..|r| - 1]) == n &&
      (form == Short ==> |r| - 5 == if n < 0x10000 then 4 else |Hex(n)|) &&
      (form == Long ==> r[4..|r| - 1] == Hex(n))
  {
    var digits := if form == Short then PadHex(n, 4) else Hex(n);
    var prefix := if form == Short then "$'\\u" else "$'\\U";
    var r := Escape(form, n);
    assert r == prefix + digits + "'";
    assert r[..4] == prefix && r[4..|r| - 1] == digits;
    HexCorrect(n);
    if form == Short {
      PadHexCorrect(n, 4);
      HexLength(n, 4);
    }
  }

  /** What the loop body appends for one character: the character itself
      when it takes one byte, the short escape for two or three bytes and
      the long escape otherwise. */
  function Fragment(c: char): string
  {
    match RuneLen(c)
    case 1 => [c]
    case 2 | 3 => Escape(Short, c as int)
    case _ => Escape(Long, c as int)
  }

  /** The concatenation of `f(c)` over the characters `c` of `s`, in order. */
  function ConcatMap(f: char -> string, s: string): string
  {
    if s == [] then [] else ConcatMap(f, s[..|s| - 1]) + f(s[|s| - 1])
  }

  /** The slow path: the fragments of the characters of `s`, in order. */
  function EncodeRunes(s: string): string
  {
    ConcatMap(Fragment, s)
  }

  /** `encodeString`: the fast path returns an all-single-byte line as it
      is; every other line takes the slow path. */
  function EncodeString(s: string): string
  {
    if ByteLen(s) == |s| then s else EncodeRunes(s)
  }

  /** Go's `strings.Builder`: a buffer that is only ever appended to. */
  class Builder {
    var buf: string

    constructor ()
      ensures buf == []
    {
      buf := [];
    }

    /** `sb.WriteRune(r)` */
    method WriteRune(c: char)
      modifies this
      ensures buf == old(buf) + [c]
    {
      buf := buf + [c];
    }

    /** The text `fmt.Fprintf(&sb, ...)` writes into the buffer. */
    method WriteString(t: string)
      modifies this
      ensures buf == old(buf) + t
    {
      buf := buf + t;
    }

    /** `sb.String()` */
    function String(): string
      reads this
    {
      buf
    }
  }

  /** `encodeString` as the source runs it: the fast-path test, then one
      pass over the characters appending to a builder. */
  method Encode(s: string) returns (r: string)
    ensures r == EncodeString(s)
  {
    if ByteLen(s) == |s| {
      // s contains only one-byte characters
      return s;
    }
    var sb := new Builder();
    for i := 0 to |s|
      invariant sb.buf == EncodeRunes(s[..i])
    {
      assert s[..i + 1][..i] == s[..i];
      var c := s[i];
      var form: Form;
      match RuneLen(c) {
        case 1 =>
          sb.WriteRune(c);
          continue;
        case 2 | 3 =>
          form := Short;
        case _ =>
          form := Long;
      }
      sb.WriteString(Escape(form, c as int));
    }
    assert s[..|s|] == s;
    r := sb.String();
  }

  // ----- What one character becomes -----

  /** A one-byte character is appended literally. */
  lemma LiteralFragment(c: char)
    requires c as int < RuneSelf
    ensures Fragment(c) == [c]
  {
  }

  /** A character of two or three bytes (U+0080 to U+FFFF) becomes
      `$'\u` + four upper-case hexadecimal digits + `'`, the digits denoting
      the code point. */
  lemma ShortFragment(c: char)
    requires 0x80 <= c as int < 0x10000
    ensures |Fragment(c)| == 9
    ensures Fragment(c)[..4] == "$'\\u" && Fragment(c)[8] == '\''
    ensures AllHex(Fragment(c)[4..8]) && Value(Fragment(c)[4..8]) == c as int
  {
    EscapeShape(Short, c as int);
  }

  /** A character of four bytes (U+10000 to U+10FFFF) becomes `$'\U` + the
      minimal upper-case hexadecimal rendering of the code point (five or
      six digits, the first not 0) + `'`. */
  lemma LongFragment(c: char)
    requires c as int >= 0x10000
    ensures var f := Fragment(c);
      (|f| == 10 || |f| == 11) && f[..4] == "$'\\U" && f[|f| - 1] == '\'' &&
      AllHex(f[4..|f| - 1]) && f[4] != '0' && Value(f[4..|f| - 1]) == c as int
  {
    var n := c as int;
    EscapeShape(Long, n);
    HexCorrect(n);
    HexLength(n, 4);
    HexLength(n, 6);
    var f := Fragment(c);
    assert f[4..|f| - 1] == Hex(n);
    assert f[4] == Hex(n)[0];
  }

  // ----- The whole line -----

  /** Encoding distributes over concatenation: each character is encoded on
      its own and the fragments keep the input order. */
  lemma {:induction false} ConcatMapAppend(f: char -> string, a: string, b: string)
    ensures ConcatMap(f, a + b) == ConcatMap(f, a) + ConcatMap(f, b)
    decreases |b|
  {
    if b != [] {
      var ab, p := a + b, b[..|b| - 1];
      assert ab[..|ab| - 1] == a + p && ab[|ab| - 1] == b[|b| - 1];
      ConcatMapAppend(f, a, p);
    } else {
      assert a + b == a;
    }
  }

  lemma EncodeRunesAppend(a: string, b: string)
    ensures EncodeRunes(a + b) == EncodeRunes(a) + EncodeRunes(b)
  {
    ConcatMapAppend(Fragment, a, b);
  }

  /** The slow path leaves an ASCII line as it is. */
  lemma {:induction false} EncodeRunesAscii(s: string)
    requires IsAscii(s)
    ensures EncodeRunes(s) == s
  {
    if s != [] {
      var p := s[..|s| - 1];
      assert IsAscii(p);
      EncodeRunesAscii(p);
      assert s == p + [s[|s| - 1]];
    }
  }

  /** The fast path is only an optimisation: the result is the same as if
      every line took the slow path. */
  lemma FastPathIsOptimization(s: string)
    ensures EncodeString(s) == EncodeRunes(s)
  {
    FastPathIffAscii(s);
    if ByteLen(s) == |s| {
      EncodeRunesAscii(s);
    }
  }

  /** A line is returned unchanged exactly when it is pure ASCII. */
  lemma UnchangedIffAscii(s: string)
    ensures EncodeString(s) == s <==> IsAscii(s)
  {
    FastPathIffAscii(s);
    if EncodeString(s) == s {
      EncodeIsAscii(s);
    }
  }

  /** Every character of an escape is ASCII. */
  lemma {:induction false} FragmentIsAscii(c: char)
    ensures IsAscii(Fragment(c))
  {
    var f := Fragment(c);
    if RuneLen(c) != 1 {
      EscapeShape(if RuneLen(c) <= 3 then Short else Long, c as int);
      forall i | 0 <= i < |f| ensures f[i] as int < RuneSelf {
        if 4 <= i < |f| - 1 {
          assert f[i] == f[4..|f| - 1][i - 4];
        }
      }
    }
  }

  /** The output of the encoder is pure ASCII, whatever the line. */
  lemma {:induction false} EncodeIsAscii(s: string)
    ensures IsAscii(EncodeString(s))
  {
    FastPathIsOptimization(s);
    EncodeRunesIsAscii(s);
  }

  lemma {:induction false} EncodeRunesIsAscii(s: string)
    ensures IsAscii(EncodeRunes(s))
  {
    if s != [] {
      EncodeRunesIsAscii(s[..|s| - 1]);
      FragmentIsAscii(s[|s| - 1]);
      var a, b := EncodeRunes(s[..|s| - 1]), Fragment(s[|s| - 1]);
      forall i | 0 <= i < |a + b| ensures (a + b)[i] as int < RuneSelf {
        if i >= |a| { assert (a + b)[i] == b[i - |a|]; }
      }
    }
  }

  /** Encoding is idempotent: an encoded line goes through unchanged. */
  lemma Idempotent(s: string)
    ensures EncodeString(EncodeString(s)) == EncodeString(s)
  {
    EncodeIsAscii(s);
    FastPathIffAscii(EncodeString(s));
  }

  /** Worked example: an empty line and a pure ASCII line are returned
      as they are. */
  lemma ExampleAscii()
    ensures EncodeString("") == ""
    ensures EncodeString("hello") == "hello"
  {
  }

  /** The escape of U+00E9 (`é`, two bytes): short form, four digits. */
  lemma FragmentE9()
    ensures Fragment('\U{E9}') == "$'\\u00E9'"
  {
    assert Hex(14) == "E";
    assert Hex(0xE9) == "E9";
    assert PadHex(0xE9, 4) == "00E9";
  }

  /** The escape of U+1F600 (four bytes): long form, no padding. */
  lemma Fragment1F600()
    ensures Fragment('\U{1F600}') == "$'\\U1F600'"
  {
    assert Hex(1) == "1";
    assert Hex(31) == "1F";
    assert Hex(502) == "1F6";
    assert Hex(8032) == "1F60";
    assert Hex(0x1F600) == "1F600";
  }

  /** Encoding a line followed by one more character. */
  lemma EncodeRunesSnoc(p: string, c: char)
    ensures EncodeRunes(p + [c]) == EncodeRunes(p) + Fragment(c)
  {
    assert (p + [c])[..|p|] == p;
  }

  /** Worked example: `café` becomes `caf$'\u00E9'`. */
  lemma ExampleCafe()
    ensures EncodeString("caf\U{E9}") == "caf$'\\u00E9'"
  {
    var s := "caf\U{E9}";
    assert s == "caf" + ['\U{E9}'];
    assert ByteLen(s) == 5;
    EncodeRunesSnoc("caf", '\U{E9}');
    EncodeRunesAscii("caf");
    FragmentE9();
    calc {
      EncodeString(s);
      EncodeRunes(s);
      EncodeRunes("caf") + Fragment('\U{E9}');
      "caf" + "$'\\u00E9'";
    }
  }

  /** Worked example: a line with U+1F600 gets `$'\U1F600'` for it. */
  lemma ExampleEmoji()
    ensures EncodeString("a\U{1F600}") == "a$'\\U1F600'"
  {
    var s := "a\U{1F600}";
    assert s == "a" + ['\U{1F600}'];
    assert ByteLen(s) == 5;
    EncodeRunesSnoc("a", '\U{1F600}');
    EncodeRunesAscii("a");
    Fragment1F600();
    calc {
      EncodeString(s);
      EncodeRunes(s);
      EncodeRunes("a") + Fragment('\U{1F600}');
      "a" + "$'\\U1F600'";
    }
  }
}
