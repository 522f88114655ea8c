/** Upper-case hexadecimal rendering of natural numbers, as Go's `fmt` verbs
    `%X` and `%0<width>X` produce it, and the reading of such digits back
    into a number. */
module Hexadecimal {

  /** The sixteen upper-case hexadecimal digits. */
  predicate IsHexDigit(c: char) {
    '0' <= c <= '9' || 'A' <= c <= 'F'
  }

  predicate AllHex(s: string) {
    forall i | 0 <= i < |s| :: IsHexDigit(s[i])
  }

  /** The value of one digit. */
  function DigitValue(c: char): (d: nat)
    requires IsHexDigit(c)
    ensures d < 16
  {
    if c <= '9' then c as int - '0' as int else c as int - 'A' as int + 10
  }

  /** The digit for a value below 16; it reads back as that value. */
  function Digit(d: nat): (c: char)
    requires d < 16
    ensures IsHexDigit(c) && DigitValue(c) == d
  {
    if d < 10 then ('0' as int + d) as char else ('A' as int + d - 10) as char
  }

  /** Each digit is the rendering of its own value. */
  lemma DigitOfValue(c: char)
    requires IsHexDigit(c)
    ensures Digit(DigitValue(c)) == c
  {
  }

  function Pow16(k: nat): (p: nat)
    ensures p >= 1
  {
    if k == 0 then 1 else 16 * Pow16(k - 1)
  }

  lemma {:induction false} Pow16Monotone(a: nat, b: nat)
    requires a <= b
    ensures Pow16(a) <= Pow16(b)
  {
    if a < b {
      Pow16Monotone(a, b - 1);
    }
  }

  /** The number a string of hexadecimal digits denotes, most significant
      digit first; the empty string denotes 0. */
  function Value(s: string): nat
    requires AllHex(s)
  {
    if s == [] then 0 else 16 * Value(s[..|s| - 1]) + DigitValue(s[|s| - 1])
  }

  /** `k` digits denote a number below 16^k. */
  lemma {:induction false} ValueBound(s: string)
    requires AllHex(s)
    ensures Value(s) < Pow16(|s|)
  {
    if s != [] {
      ValueBound(s[..|s| - 1]);
    }
  }

  /** `%X`: the shortest upper-case rendering of `n`. */
  function Hex(n: nat): string
    decreases n
  {
    if n < 16 then [Digit(n)] else Hex(n / 16) + [Digit(n % 16)]
  }

  /** The `%X` rendering reads back as `n`, has no leading zero (only 0
      itself is written "0"), and uses exactly as many digits as `n` needs:
      16^(|r|-1) <= n < 16^|r| once n >= 16. */
  lemma {:induction false} HexCorrect(n: nat)
    ensures var r := Hex(n);
      AllHex(r) && Value(r) == n && 1 <= |r| &&
      (r[0] == '0' <==> n == 0) &&
      n < Pow16(|r|) && (|r| > 1 ==> Pow16(|r| - 1) <= n)
    decreases n
  {
    var r := Hex(n);
    if n >= 16 {
      HexCorrect(n / 16);
      assert r[..|r| - 1] == Hex(n / 16);
      assert r[0] == Hex(n / 16)[0];
    }
    ValueBound(r);
  }

  function Zeros(k: nat): (z: string)
    ensures |z| == k && forall i | 0 <= i < k :: z[i] == '0'
  {
    seq(k, _ => '0')
  }

  /** Leading zeros do not change the value a string denotes. */
  lemma {:induction false} ValueLeadingZeros(k: nat, s: string)
    requires AllHex(s)
    ensures AllHex(Zeros(k) + s) && Value(Zeros(k) + s) == Value(s)
  {
    var t := Zeros(k) + s;
    if s == [] {
      assert t == Zeros(k);
      if k > 0 {
        assert t[..|t| - 1] == Zeros(k - 1) + s;
        ValueLeadingZeros(k - 1, s);
        assert Value(t) == 16 * Value(Zeros(k - 1) + s) + DigitValue('0');
      }
    } else {
      assert t[..|t| - 1] == Zeros(k) + s[..|s| - 1];
      ValueLeadingZeros(k, s[..|s| - 1]);
    }
  }

  /** `%0<width>X`: the `%X` rendering padded on the left with zeros up to
      `width` digits; a longer rendering is kept whole. */
  function PadHex(n: nat, width: nat): string
  {
    var h := Hex(n);
    if |h| < width then Zeros(width - |h|) + h else h
  }

  /** The padded rendering still reads back as `n`; it is `width` digits
      long unless `%X` needs more, and consists of zeros followed by the
      `%X` rendering. */
  lemma PadHexCorrect(n: nat, width: nat)
    ensures var r := PadHex(n, width);
      AllHex(r) && Value(r) == n &&
      |r| == (if |Hex(n)| < width then width else |Hex(n)|) &&
      r[|r| - |Hex(n)|..] == Hex(n) &&
      forall i | 0 <= i < |r| - |Hex(n)| :: r[i] == '0'
  {
    var h := Hex(n);
    HexCorrect(n);
    if |h| < width {
      ValueLeadingZeros(width - |h|, h);
    }
  }

  /** The `%X` rendering of `n` takes at most `k` digits exactly when
      n < 16^k. */
  lemma HexLength(n: nat, k: nat)
    requires k >= 1
    ensures |Hex(n)| <= k <==> n < Pow16(k)
  {
    var r := Hex(n);
    HexCorrect(n);
    if |r| <= k {
      Pow16Monotone(|r|, k);
    } else {
      Pow16Monotone(k, |r| - 1);
    }
  }

  /** A nonempty digit string whose first digit is not 0 denotes at least
      16^(|s|-1). */
  lemma {:induction false} ValueLowerBound(s: string)
    requires AllHex(s) && |s| >= 1 && s[0] != '0'
    ensures Value(s) >= Pow16(|s| - 1)
  {
    if |s| > 1 {
      var p := s[..|s| - 1];
      assert p[0] == s[0];
      ValueLowerBound(p);
    } else {
      assert DigitValue(s[0]) != 0 by {
        DigitOfValue(s[0]);
      }
    }
  }

  /** Uniqueness of the minimal rendering: every digit string without a
      leading zero (other than "0" itself) is the `%X` rendering of the
      number it denotes. */
  lemma {:induction false} HexUnique(s: string)
    requires AllHex(s) && |s| >= 1 && (|s| > 1 ==> s[0] != '0')
    ensures Hex(Value(s)) == s
  {
    var last := s[|s| - 1];
    DigitOfValue(last);
    if |s| > 1 {
      var p := s[..|s| - 1];
      assert p[0] == s[0];
      ValueLowerBound(p);
      ValueBound(p);
      var v := Value(s);
      assert v / 16 == Value(p) && v % 16 == DigitValue(last);
      HexUnique(p);
      assert s == p + [last];
    }
  }
}
