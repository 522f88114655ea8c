/** Reading back the escapes in the shape the encoder writes them:
    `$'\uHHHH'` (exactly four upper-case hexadecimal digits) and `$'\UH...'`
    (one to eight upper-case digits) stand for the character with that code
    point. A shell's ANSI-C quoting accepts more (fewer digits after `\u`,
    lower-case digits); this reader does not. Reading an encoded line this
    way gives the original line back, provided the line had no `$` of its
    own. */
module AnsiC {
  import opened Hexadecimal
  import opened Utf8
  import opened Encoder

  datatype Option<T> = None | Some(value: T)

  /** The first `'` at or after position `i`, or `|t|` when there is none. */
  function QuoteIndex(t: string, i: nat): (j: nat)
    requires i <= |t|
    ensures i <= j <= |t|
    ensures j < |t| ==> t[j] == '\''
    ensures forall k | i <= k < j :: t[k] != '\''
    decreases |t| - i
  {
    if i == |t| || t[i] == '\'' then i else QuoteIndex(t, i + 1)
  }

  /** The code points a Dafny `char` (a Unicode scalar value) can hold. */
  predicate IsScalar(v: int) {
    0 <= v < 0xD800 || 0xE000 <= v < 0x110000
  }

  function Prepend(c: char, rest: Option<string>): Option<string> {
    match rest
    case None => None
    case Some(r) => Some([c] + r)
  }

  /** Reads an encoded line back: a character other than `$` stands for
      itself; a `$` must open one of the two escapes, whose digits must name
      a Unicode scalar value. Anything else is not the encoder's output. */
  function Unquote(t: string): Option<string>
    decreases |t|
  {
    if t == [] then
      Some([])
    else if t[0] != '$' then
      Prepend(t[0], Unquote(t[1..]))
    else if |t| < 4 || t[1] != '\'' || t[2] != '\\' || (t[3] != 'u' && t[3] != 'U') then
      None
    else
      var j := QuoteIndex(t, 4);
      var digits := t[4..j];
      if j == |t| || !AllHex(digits) then None
      else if t[3] == 'u' && |digits| != 4 then None
      else if t[3] == 'U' && !(1 <= |digits| <= 8) then None
      else if !IsScalar(Value(digits)) then None
      else Prepend(Value(digits) as char, Unquote(t[j + 1..]))
  }

  /** Reading an escape `$'\` + `x` + digits + `'` followed by more text
      gives the character the digits name followed by whatever the rest
      reads as. */
  lemma UnquoteEscape(x: char, digits: string, c: char, t: string)
    requires x == 'u' || x == 'U'
    requires AllHex(digits) && Value(digits) == c as int
    requires if x == 'u' then |digits| == 4 else 1 <= |digits| <= 8
    ensures Unquote("$'\\" + [x] + digits + "'" + t) == Prepend(c, Unquote(t))
  {
    var u := "$'\\" + [x] + digits + "'" + t;
    var e := 4 + |digits|;
    assert u[..4] == "$'\\" + [x];
    assert u[4..e] == digits;
    forall k | 4 <= k < e ensures u[k] != '\'' {
      assert u[k] == digits[k - 4];
    }
    assert u[e] == '\'';
    assert QuoteIndex(u, 4) == e;
    assert u[e + 1..] == t;
  }

  /** Reading one fragment followed by more text gives back its character
      followed by whatever the rest reads as. */
  lemma UnquoteFragment(c: char, t: string)
    requires c != '$'
    ensures Unquote(Fragment(c) + t) == Prepend(c, Unquote(t))
  {
    var n := c as int;
    HexCorrect(n);
    match RuneLen(c)
    case 1 =>
      assert ([c] + t)[1..] == t;
    case 2 | 3 =>
      PadHexCorrect(n, 4);
      HexLength(n, 4);
      assert Fragment(c) == Escape(Short, n) == "$'\\u" + PadHex(n, 4) + "'";
      assert "$'\\u" == "$'\\" + ['u'];
      UnquoteEscape('u', PadHex(n, 4), c, t);
    case _ =>
      HexLength(n, 8);
      assert Fragment(c) == Escape(Long, n) == "$'\\U" + Hex(n) + "'";
      assert "$'\\U" == "$'\\" + ['U'];
      UnquoteEscape('U', Hex(n), c, t);
  }

  /** The slow path reads back as the original line when the line has no `$`. */
  lemma {:induction false} UnquoteEncodeRunes(s: string)
    requires '$' !in s
    ensures Unquote(EncodeRunes(s)) == Some(s)
    decreases |s|
  {
    if s != [] {
      var c, rest := s[0], s[1..];
      assert s == [c] + rest;
      EncodeRunesAppend([c], rest);
      EncodeRunesSnoc([], c);
      assert [] + [c] == [c];
      assert EncodeRunes([]) == [];
      assert EncodeRunes(s) == Fragment(c) + EncodeRunes(rest);
      UnquoteEncodeRunes(rest);
      UnquoteFragment(c, EncodeRunes(rest));
    }
  }

  /** Round trip: reading an encoded line back gives the line itself,
      for every line without a `$`. */
  lemma RoundTrip(s: string)
    requires '$' !in s
    ensures Unquote(EncodeString(s)) == Some(s)
  {
    FastPathIsOptimization(s);
    UnquoteEncodeRunes(s);
  }

  /** Without the restriction to lines free of `$` the round trip fails: the
      ASCII line `$'\u00E9'` is left as it is, and `é` encodes to the same
      text, so the encoder is not injective. */
  lemma DollarBreaksRoundTrip()
    ensures "$'\\u00E9'" != "\U{E9}"
    ensures EncodeString("$'\\u00E9'") == EncodeString("\U{E9}")
  {
    var ascii := "$'\\u00E9'";
    FastPathIffAscii(ascii);
    assert EncodeString(ascii) == ascii;
    EncodeRunesSnoc([], '\U{E9}');
    assert [] + ['\U{E9}'] == "\U{E9}";
    assert EncodeRunes([]) == [];
    FragmentE9();
  }
}
