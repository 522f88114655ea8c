# zsh-unicode-fix line encoder, in Dafny

zsh-unicode-fix reads text line by line and writes each line back in an
ASCII-only form that zsh and bash read through ANSI-C quoting. The work is
done by one function, `encodeString` (main.go:57-83):

- a line whose byte length equals its character count (pure ASCII) is
  returned as it is;
- otherwise each character of one UTF-8 byte is copied, each character of
  two or three bytes becomes `$'\uHHHH'` (`%04X`: four upper-case hex digits)
  and each longer character becomes `$'\UH...'` (`%X`: the minimal number of
  upper-case hex digits).

This project models that function and proves what its rules promise.

- `hex.dfy`, module `Hexadecimal`: the `%X` rendering (`Hex`), the
  zero-padded `%0<width>X` rendering (`PadHex`), and `Value`, which reads
  hex digits back as a number.
- `utf8.dfy`, module `Utf8`: the width of a character (`RuneLen`, after
  Go's `utf8.RuneLen`) by the length table in section 3 of RFC 3629. It also
  holds the bytes of a character (`EncodeRune`) and the byte length of a line
  (`ByteLen`, Go's `len(s)`).
- `encoder.dfy`, module `Encoder`: the pure specification `EncodeString`
  (fast path, then `EncodeRunes`, the fragments of the characters in
  order). It also holds the `Builder` class that stands for Go's
  `strings.Builder`. The method `Encode` runs the source's loop over the
  characters, appending to a `Builder`, and is proved equal to
  `EncodeString`.
- `ansic.dfy`, module `AnsiC`: `Unquote`, which reads the two escape forms
  in the exact shape the encoder writes them. With it, encoding is shown to lose nothing for
  lines without a `$`, and a counterexample shows why a `$` breaks this.

A line is a Dafny `string`. A Dafny `char` is a Unicode scalar value
(U+0000 to U+D7FF and U+E000 to U+10FFFF), which is exactly what Go's
`[]rune(s)` yields for valid UTF-8. So no precondition on the input is
needed, and the `-1` that `utf8.RuneLen` returns for other values cannot
arise.

Two facts about the code that the model keeps:

- The long form uses the minimal number of digits (`%X`, main.go:76), not a
  fixed eight.
- The width of a character comes from its code point
  (`utf8.RuneLen(r)`, main.go:67).

## Model

| member | source | states |
|---|---|---|
| `Encoder.Encode` | main.go:57-83 | The method (fast-path test, then a loop appending each character's fragment to a builder) returns exactly `EncodeString(s)` |
| `Encoder.Builder.constructor` | main.go:63 | A new builder is empty |
| `Encoder.Builder.WriteRune` | main.go:69 | `sb.WriteRune(r)` appends the character to the buffer and changes nothing else |
| `Encoder.Builder.WriteString` | main.go:79 | The text written by `fmt.Fprintf(&sb, ...)` is appended to the buffer |
| `Utf8.RuneLen` | main.go:67 | A character takes 1 to 4 bytes, and exactly 1 when it is below U+0080 |
| `Utf8.EncodeRune` | main.go:58 | The UTF-8 bytes of a character: as many as `RuneLen` says, the lead byte announcing the length, the others continuation bytes |
| `Utf8.DecodeEncodeRune` | main.go:58 | The bytes of a character decode back to its code point |
| `Utf8.ByteLenIsEncodedLength` | main.go:58 | `ByteLen(s)`, the sum of the widths, is the length of the line's UTF-8 bytes (Go's `len(s)`) |
| `Utf8.FastPathIffAscii` | main.go:58 | The byte length is at least the character count, and equals it exactly when every character is below U+0080 |
| `Hexadecimal.Digit` | main.go:73 | Each value below 16 has one upper-case digit that reads back as that value |
| `Hexadecimal.HexCorrect` | main.go:76 | `%X` gives upper-case hex digits that read back as `n`, with no leading zero unless `n` is 0, and no more digits than `n` needs |
| `Hexadecimal.HexUnique` | main.go:76 | Every digit string without a leading zero is the `%X` rendering of its value, so the minimal rendering is unique |
| `Hexadecimal.HexLength` | main.go:73-76 | `%X` uses at most `k` digits exactly when `n < 16^k` |
| `Hexadecimal.PadHexCorrect` | main.go:73 | `%04X` gives zeros followed by the `%X` digits, 4 digits unless more are needed, still reading back as `n` |
| `Hexadecimal.ValueLeadingZeros` | main.go:73 | Leading zeros do not change the value the digits denote |
| `Encoder.EscapeShape` | main.go:72-79 | An escape is `$'\u` or `$'\U`, upper-case hex digits that denote the code point, and `'`; the short form has 4 digits below U+10000, the long form has exactly the `%X` digits |
| `Encoder.LiteralFragment` | main.go:68-70 | A one-byte character is appended literally |
| `Encoder.ShortFragment` | main.go:72-73 | U+0080 to U+FFFF becomes `$'\u` + exactly 4 upper-case hex digits denoting the code point + `'` |
| `Encoder.LongFragment` | main.go:75-76 | U+10000 and above becomes `$'\U` + 5 or 6 upper-case hex digits, the first not 0, denoting the code point + `'` |
| `Encoder.ConcatMapAppend` | main.go:65-82 | Concatenating per-character results distributes over concatenation of the input |
| `Encoder.EncodeRunesAppend` | main.go:65-82 | Encoding a concatenation is the concatenation of the encodings: each character is encoded on its own, in input order |
| `Encoder.EncodeRunesSnoc` | main.go:65-80 | One more character at the end adds its fragment at the end |
| `Encoder.EncodeRunesAscii` | main.go:68-70 | The per-character pass leaves an ASCII line unchanged |
| `Encoder.FastPathIsOptimization` | main.go:58-61 | The fast path gives the same result as the per-character pass, so it is only an optimisation |
| `Encoder.UnchangedIffAscii` | main.go:4-6 | A line is returned unchanged exactly when it is pure ASCII |
| `Encoder.FragmentIsAscii` | main.go:66-79 | Every fragment consists of ASCII characters only |
| `Encoder.EncodeRunesIsAscii` | main.go:63-82 | The output of the per-character pass is pure ASCII |
| `Encoder.EncodeIsAscii` | main.go:57-83 | The encoder's output is pure ASCII for every line |
| `Encoder.Idempotent` | main.go:57-83 | Encoding an encoded line returns it unchanged |
| `Encoder.ExampleAscii` | main.go:58-61 | The empty line and `hello` are returned as they are |
| `Encoder.FragmentE9` | main.go:72-73 | U+00E9 becomes `$'\u00E9'` |
| `Encoder.Fragment1F600` | main.go:75-76 | U+1F600 becomes `$'\U1F600'` |
| `Encoder.ExampleCafe` | main.go:57-83 | `café` becomes `caf$'\u00E9'` |
| `Encoder.ExampleEmoji` | main.go:57-83 | `a` followed by U+1F600 becomes `a$'\U1F600'` |
| `AnsiC.UnquoteEscape` | main.go:7-8 | Reading `$'\u` + 4 digits + `'` (or `$'\U` + 1 to 8 digits + `'`) gives the character the digits denote, then the rest |
| `AnsiC.UnquoteFragment` | main.go:66-79 | Reading the fragment of any character other than `$` gives back that character, then the rest |
| `AnsiC.UnquoteEncodeRunes` | main.go:63-82 | Reading the per-character pass's output gives back the line, when the line has no `$` |
| `AnsiC.RoundTrip` | main.go:57-83 | Reading the encoder's output gives back the line, for every line without `$` |
| `AnsiC.DollarBreaksRoundTrip` | main.go:58-61 | The ASCII line `$'\u00E9'` and the line `é` encode to the same text, so the encoder is not injective on lines with `$` |

## Left out

- `main` and `run` (main.go:41-55) are not modelled. They cover reading lines with `bufio.Scanner` (including its token-size limit), printing each encoded line with a newline, and the `ERROR: ` diagnostic on a read failure. All of this is I/O.
- Go's decoding of malformed UTF-8 (each stray byte becomes U+FFFD in `[]rune(s)` and counts as one rune in `utf8.RuneCountInString`) is not modelled. The input is a sequence of already-decoded scalar values. One consequence is not captured: in Go, a line made only of stray bytes of 0x80 or above passes the fast-path test and is returned unchanged, so its output is not ASCII. The ASCII-output and idempotence lemmas hold for valid input only.
- The `-1` result of `utf8.RuneLen` (surrogates, values past U+10FFFF) is not modelled: a Dafny `char` cannot hold such values.
- `fmt.Fprintf` is not modelled as a foreign call. Only the two verbs used, `%04X` and `%X` on a code point, are modelled (`PadHex`, `Hex`).
- The output is modelled as characters rather than bytes. Every output character is ASCII (`EncodeIsAscii`), so the two views agree.
- `AnsiC.Unquote` reads only the two escape forms the encoder writes, each closed by its own `'`. It is not a full model of the shell's ANSI-C quoting: other backslash escapes are not covered, and neither is how digits are read when more text follows inside the same quotes. The shell also reads `\u` with one to four digits and accepts lower-case digits after `\u` and `\U`; `Unquote` accepts exactly four upper-case digits after `\u` and only upper-case digits after `\U`.
