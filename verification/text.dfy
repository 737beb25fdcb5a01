/** Character and string primitives of the .NET base library that the modelled
    code relies on: `char.IsWhiteSpace`, `string.IsNullOrWhiteSpace`, the
    whitespace trim, ASCII case mapping, `string.Split(char)` and the decimal
    rendering and parsing of 32-bit integers.
 */
module Text {
  import opened Wrappers

  // ---------------------------------------------------------------------------
  // Whitespace

  /** `char.IsWhiteSpace`: the Unicode space, line and paragraph separators
      (categories Zs, Zl, Zp) plus U+0009..U+000D and U+0085. The regular
      expression class `\s` denotes the same set. */
  predicate IsWhiteSpace(c: char) {
    var n := c as int;
    || (9 <= n <= 13)
    || n == 0x20 || n == 0x85 || n == 0xA0 || n == 0x1680
    || (0x2000 <= n <= 0x200A)
    || n == 0x2028 || n == 0x2029 || n == 0x202F || n == 0x205F || n == 0x3000
  }

  /** Every character of `s` is whitespace (true of the empty string). */
  predicate IsBlank(s: string) {
    forall i :: 0 <= i < |s| ==> IsWhiteSpace(s[i])
  }

  /** One non-whitespace character makes a string non-blank. */
  lemma NotBlankAt(s: string, i: nat)
    requires i < |s| && !IsWhiteSpace(s[i])
    ensures !IsBlank(s)
  {
  }

  /** `string.IsNullOrWhiteSpace`, which the source calls `IsNullOrBlank`. */
  predicate IsNullOrBlank(s: Option<string>) {
    s.None? || IsBlank(s.value)
  }

  function TrimEnd(s: string): (r: string)
    ensures |r| <= |s| && r == s[..|r|]
    ensures IsBlank(s[|r|..])
    ensures |r| > 0 ==> !IsWhiteSpace(r[|r| - 1])
  {
    if |s| > 0 && IsWhiteSpace(s[|s| - 1]) then TrimEnd(s[..|s| - 1]) else s
  }

  /** The number of whitespace characters `s` starts with. */
  function LeadingBlank(s: string): (n: nat)
    ensures n <= |s| && IsBlank(s[..n])
    ensures n < |s| ==> !IsWhiteSpace(s[n])
  {
    if |s| > 0 && IsWhiteSpace(s[0]) then
      var n := 1 + LeadingBlank(s[1..]);
      assert s[..n] == [s[0]] + s[1..][..n - 1];
      n
    else 0
  }

  /** The whitespace trim the source performs with the regular expression
      `\A\s*(.*?)\s*\Z`: leading and trailing whitespace removed, the middle
      kept as it is. */
  function Trim(s: string): (r: string)
    ensures LeadingBlank(s) + |r| <= |s|
    ensures r == s[LeadingBlank(s)..LeadingBlank(s) + |r|]
    ensures IsBlank(s[LeadingBlank(s) + |r|..])
    ensures |r| > 0 ==> !IsWhiteSpace(r[0]) && !IsWhiteSpace(r[|r| - 1])
    ensures |r| == 0 <==> IsBlank(s)
  {
    var k := LeadingBlank(s);
    var r := TrimEnd(s[k..]);
    assert |r| == 0 ==> IsBlank(s) by {
      if |r| == 0 {
        assert s == s[..k] + s[k..];
      }
    }
    r
  }

  /** Text that neither starts nor ends with whitespace is its own trim; in
      particular trimming twice is trimming once. */
  lemma TrimOfTrimmed(t: string)
    requires |t| == 0 || (!IsWhiteSpace(t[0]) && !IsWhiteSpace(t[|t| - 1]))
    ensures Trim(t) == t
  {
    if |t| > 0 {
      assert LeadingBlank(t) == 0;
      assert t[0..] == t;
      assert TrimEnd(t) == t;
    }
  }

  // ---------------------------------------------------------------------------
  // ASCII character classes and case mapping

  predicate IsAsciiUpper(c: char) { 'A' <= c <= 'Z' }
  predicate IsAsciiLower(c: char) { 'a' <= c <= 'z' }
  predicate IsAsciiDigit(c: char) { '0' <= c <= '9' }
  predicate IsAsciiLetterOrDigit(c: char) { IsAsciiUpper(c) || IsAsciiLower(c) || IsAsciiDigit(c) }

  /** `char.IsUpper` (Unicode category Lu) for characters up to U+00FF:
      `A-Z`, U+00C0-U+00D6 and U+00D8-U+00DE. */
  predicate IsUpper(c: char) {
    IsAsciiUpper(c) || (0xC0 <= c as int <= 0xDE && c as int != 0xD7)
  }

  /** `char.IsLetterOrDigit` for characters up to U+00FF: the ASCII letters
      and digits, U+00AA, U+00B5, U+00BA, and U+00C0-U+00FF except the
      signs U+00D7 and U+00F7. */
  predicate IsLetterOrDigit(c: char) {
    IsAsciiLetterOrDigit(c) || c as int == 0xAA || c as int == 0xB5 || c as int == 0xBA
    || (0xC0 <= c as int <= 0xFF && c as int != 0xD7 && c as int != 0xF7)
  }

  function ToLowerAscii(c: char): (r: char)
    ensures !IsAsciiUpper(r)
    ensures IsAsciiUpper(c) || r == c
  {
    if IsAsciiUpper(c) then (c as int + 32) as char else c
  }

  function ToUpperAscii(c: char): (r: char)
    ensures !IsAsciiLower(r)
    ensures IsAsciiLower(c) || r == c
  {
    if IsAsciiLower(c) then (c as int - 32) as char else c
  }

  function LowerAscii(s: string): (r: string)
    ensures |r| == |s|
    ensures forall i :: 0 <= i < |s| ==> r[i] == ToLowerAscii(s[i])
  {
    seq(|s|, i requires 0 <= i < |s| => ToLowerAscii(s[i]))
  }

  /** Ordinal case-insensitive equality, on the ASCII letters. */
  predicate EqualsIgnoreCase(a: string, b: string) {
    LowerAscii(a) == LowerAscii(b)
  }

  // ---------------------------------------------------------------------------
  // Splitting on one separator character

  /** No character of `p` is `sep`. */
  predicate NoSep(p: string, sep: char) {
    forall j :: 0 <= j < |p| ==> p[j] != sep
  }

  /** `s.Split(sep)`: the pieces between separators, empty pieces included, so
      `n` separators always give `n + 1` pieces. */
  function Split(s: string, sep: char): (r: seq<string>)
    ensures |r| >= 1
    ensures forall i :: 0 <= i < |r| ==> NoSep(r[i], sep)
    ensures JoinWith(r, sep) == s
    decreases |s|
  {
    if |s| == 0 then [""]
    else
      var rest := Split(s[1..], sep);
      if s[0] == sep then [""] + rest
      else
        var r := [[s[0]] + rest[0]] + rest[1..];
        assert r[1..] == rest[1..];
        r
  }

  /** `string.Join(sep, pieces)`: the inverse of `Split`. */
  function JoinWith(pieces: seq<string>, sep: char): string
    requires |pieces| >= 1
  {
    if |pieces| == 1 then pieces[0] else pieces[0] + [sep] + JoinWith(pieces[1..], sep)
  }

  /** The last piece of `s.Split(sep)`: what follows the last separator. */
  function LastPiece(s: string, sep: char): string {
    var pieces := Split(s, sep);
    pieces[|pieces| - 1]
  }

  lemma {:induction false} SplitNoSep(p: string, sep: char)
    requires NoSep(p, sep)
    ensures Split(p, sep) == [p]
    decreases |p|
  {
    if |p| > 0 {
      SplitNoSep(p[1..], sep);
      assert [p[0]] + p[1..] == p;
    }
  }

  lemma {:induction false} SplitAfterPiece(p: string, sep: char, t: string)
    requires NoSep(p, sep)
    ensures Split(p + [sep] + t, sep) == [p] + Split(t, sep)
    decreases |p|
  {
    var s := p + [sep] + t;
    if |p| == 0 {
      assert s[1..] == t;
    } else {
      SplitAfterPiece(p[1..], sep, t);
      assert s[1..] == p[1..] + [sep] + t;
      assert [p[0]] + p[1..] == p;
    }
  }

  /** Splitting undoes joining whenever no piece holds the separator. */
  lemma {:induction false} JoinSplit(pieces: seq<string>, sep: char)
    requires |pieces| >= 1
    requires forall i :: 0 <= i < |pieces| ==> NoSep(pieces[i], sep)
    ensures Split(JoinWith(pieces, sep), sep) == pieces
    decreases |pieces|
  {
    if |pieces| == 1 {
      SplitNoSep(pieces[0], sep);
    } else {
      JoinSplit(pieces[1..], sep);
      SplitAfterPiece(pieces[0], sep, JoinWith(pieces[1..], sep));
      assert [pieces[0]] + pieces[1..] == pieces;
    }
  }

  // ---------------------------------------------------------------------------
  // Decimal integers

  const Int32Min: int := -0x8000_0000
  const Int32Max: int := 0x7FFF_FFFF

  predicate IsInt32(n: int) { Int32Min <= n <= Int32Max }

  function DigitChar(d: nat): (c: char)
    requires d < 10
    ensures IsAsciiDigit(c)
  {
    ('0' as int + d) as char
  }

  function DigitValue(c: char): (d: nat)
    requires IsAsciiDigit(c)
    ensures d < 10 && DigitChar(d) == c
  {
    c as int - '0' as int
  }

  predicate AllDigits(s: string) {
    forall i :: 0 <= i < |s| ==> IsAsciiDigit(s[i])
  }

  /** The shortest decimal rendering of a natural number. */
  function Digits(n: nat): (r: string)
    ensures |r| >= 1 && AllDigits(r)
    ensures |r| > 1 ==> r[0] != '0'
    decreases n
  {
    if n < 10 then [DigitChar(n)] else Digits(n / 10) + [DigitChar(n % 10)]
  }

  /** The value of a string of decimal digits, read left to right. */
  function DigitsValue(s: string): nat
    requires AllDigits(s)
    decreases |s|
  {
    if |s| == 0 then 0 else DigitsValue(s[..|s| - 1]) * 10 + DigitValue(s[|s| - 1])
  }

  lemma {:induction false} DigitsValueOfDigits(n: nat)
    ensures DigitsValue(Digits(n)) == n
    decreases n
  {
    var r := Digits(n);
    if n >= 10 {
      DigitsValueOfDigits(n / 10);
      assert r[..|r| - 1] == Digits(n / 10);
    }
  }

  /** `int.ToString()` in the invariant culture: an optional `-` then the
      shortest decimal digits. */
  function IntText(i: int): (r: string)
    ensures |r| >= 1
    ensures i < 0 <==> r[0] == '-'
    ensures i >= 0 ==> AllDigits(r)
    ensures i < 0 ==> AllDigits(r[1..]) && |r| >= 2
  {
    if i < 0 then "-" + Digits(-i) else Digits(i)
  }

  /** `int.Parse` applied to a string of ASCII digits with an optional leading
      minus sign, the only strings the template parser hands it: an empty
      string, a lone sign or any other character is a `FormatException`, a
      value outside the 32-bit range an `OverflowException`. */
  function ParseInt32(s: string): (r: Outcome<int>)
    ensures r.Returns? ==> IsInt32(r.value)
  {
    if |s| > 0 && s[0] == '-' then
      if |s| == 1 || !AllDigits(s[1..]) then Throws(FormatException)
      else
        var v := -(DigitsValue(s[1..]) as int);
        if IsInt32(v) then Returns(v) else Throws(OverflowException)
    else if |s| == 0 || !AllDigits(s) then Throws(FormatException)
    else
      var v := DigitsValue(s);
      if IsInt32(v) then Returns(v) else Throws(OverflowException)
  }

  /** Parsing reads back every 32-bit value the rendering writes, and
      overflows on every other. */
  lemma ParseIntText(i: int)
    ensures IsInt32(i) ==> ParseInt32(IntText(i)) == Returns(i)
    ensures !IsInt32(i) ==> ParseInt32(IntText(i)) == Throws(OverflowException)
  {
    if i < 0 {
      DigitsValueOfDigits(-i);
      assert IntText(i)[1..] == Digits(-i);
    } else {
      DigitsValueOfDigits(i);
    }
  }
}
