/** The string helpers of `StringExtensions` that are in this model: the blank
    and case-insensitive matching tests, the minimal HTML attribute encoder,
    the URL segment cleaner, line-break normalisation, trimming to a length,
    English ordinals, camel case, the ASCII cleaner, the wide-character test
    and the expiry comparison.

    Case mapping (`ToLowerInvariant`, `ToUpperInvariant`, `OrdinalIgnoreCase`)
    is modelled on the ASCII letters only. The classifications `char.IsUpper`
    and `char.IsLetterOrDigit` follow Unicode up to U+00FF and count no
    character above it.
 */
module StringExtensions {
  import opened Wrappers
  import opened Text

  // ---------------------------------------------------------------------------
  // Blank test

  /** `IsNullOrBlank` is `string.IsNullOrWhiteSpace`: null, or nothing left
      once the whitespace is trimmed. */
  lemma BlankIffTrimEmpty(s: Option<string>)
    ensures IsNullOrBlank(s) <==> s.None? || Trim(s.value) == ""
  {
  }

  /** `IfNullOrBlank`: the replacement `value` when `input` is null or blank,
      `input` itself otherwise. */
  function IfNullOrBlank(input: Option<string>, value: Option<string>): (r: Option<string>)
    ensures r == input || r == value
    ensures r == input <==> !IsNullOrBlank(input) || input == value
  {
    if IsNullOrBlank(input) then value else input
  }

  /** With a non-blank replacement the result is never null or blank, and
      applying the replacement twice changes nothing. */
  lemma IfNullOrBlankNotBlank(input: Option<string>, value: Option<string>)
    requires !IsNullOrBlank(value)
    ensures !IsNullOrBlank(IfNullOrBlank(input, value))
    ensures IfNullOrBlank(IfNullOrBlank(input, value), value) == IfNullOrBlank(input, value)
  {
  }

  /** `IfNullOrBlank(input, func)`: the function's value at a null or blank
      `input`, `input` itself otherwise. */
  function IfNullOrBlankCall(input: Option<string>, func: Option<string> -> Option<string>): (r: Option<string>)
    ensures r == input || r == func(input)
    ensures !IsNullOrBlank(input) ==> r == input
  {
    if IsNullOrBlank(input) then func(input) else input
  }

  /** `IfNotNullOrBlank(input, func)`: the function's value at an `input`
      that is neither null nor blank, `input` itself otherwise. */
  function IfNotNullOrBlank(input: Option<string>, func: Option<string> -> Option<string>): (r: Option<string>)
    ensures r == input || r == func(input)
    ensures IsNullOrBlank(input) ==> r == input
  {
    if IsNullOrBlank(input) then input else func(input)
  }

  /** Of the two, exactly one applies the function: together they cover every
      input once. The function form with a constant function is the value
      form. */
  lemma BlankBranchesComplement(input: Option<string>, func: Option<string> -> Option<string>, value: Option<string>)
    ensures IsNullOrBlank(input) ==>
      IfNullOrBlankCall(input, func) == func(input) && IfNotNullOrBlank(input, func) == input
    ensures !IsNullOrBlank(input) ==>
      IfNullOrBlankCall(input, func) == input && IfNotNullOrBlank(input, func) == func(input)
    ensures IfNullOrBlankCall(input, _ => value) == IfNullOrBlank(input, value)
  {
  }

  // ---------------------------------------------------------------------------
  // Case-insensitive matching

  /** `t` occurs in `s` starting at position `i`. */
  predicate OccursAt(s: string, t: string, i: int) {
    0 <= i <= |s| - |t| && s[i..i + |t|] == t
  }

  /** Ordinal `string.Contains`, scanning from the left. */
  predicate Contains(s: string, t: string)
    decreases |s|
  {
    (|t| <= |s| && s[..|t|] == t) || (|s| > 0 && Contains(s[1..], t))
  }

  /** The scan finds exactly the occurrences. */
  lemma {:induction false} ContainsIff(s: string, t: string)
    ensures Contains(s, t) <==> exists i :: OccursAt(s, t, i)
    decreases |s|
  {
    if |s| == 0 {
      if |t| == 0 {
        assert OccursAt(s, t, 0);
      }
    } else {
      ContainsIff(s[1..], t);
      if exists i :: OccursAt(s, t, i) {
        var i :| OccursAt(s, t, i);
        if i > 0 {
          assert s[1..][i - 1..i - 1 + |t|] == s[i..i + |t|];
          assert OccursAt(s[1..], t, i - 1);
        } else {
          assert s[..|t|] == t;
        }
      }
      if Contains(s, t) {
        if |t| <= |s| && s[..|t|] == t {
          assert OccursAt(s, t, 0);
        } else {
          var i :| OccursAt(s[1..], t, i);
          assert s[i + 1..i + 1 + |t|] == s[1..][i..i + |t|];
          assert OccursAt(s, t, i + 1);
        }
      }
    }
  }

  lemma LowerSlice(s: string, i: int, j: int)
    requires 0 <= i <= j <= |s|
    ensures LowerAscii(s)[i..j] == LowerAscii(s[i..j])
  {
  }

  lemma LowerAppend(a: string, b: string)
    ensures LowerAscii(a + b) == LowerAscii(a) + LowerAscii(b)
  {
  }

  /** Either argument null or empty. */
  predicate NoOperands(str: Option<string>, value: Option<string>) {
    str.None? || str.value == "" || value.None? || value.value == ""
  }

  /** `Has`: false when either string is null or empty; otherwise whether the
      lower-cased `value` occurs in the lower-cased `str`. */
  function Has(str: Option<string>, value: Option<string>): (r: bool)
    ensures NoOperands(str, value) ==> !r
    ensures r <==> (!NoOperands(str, value)
                    && exists i :: OccursAt(LowerAscii(str.value), LowerAscii(value.value), i))
  {
    if NoOperands(str, value) then false
    else
      ContainsIff(LowerAscii(str.value), LowerAscii(value.value));
      Contains(LowerAscii(str.value), LowerAscii(value.value))
  }

  /** `StartsAs`: false when either string is null or empty; otherwise whether
      `str` begins with `value`, ignoring case. Such a `str` also `Has` it. */
  function StartsAs(str: Option<string>, value: Option<string>): (r: bool)
    ensures NoOperands(str, value) ==> !r
    ensures r ==> OccursAt(LowerAscii(str.value), LowerAscii(value.value), 0)
    ensures r ==> Has(str, value)
  {
    if NoOperands(str, value) then false
    else
      var s, v := str.value, value.value;
      var r := |v| <= |s| && EqualsIgnoreCase(s[..|v|], v);
      if r then LowerSlice(s, 0, |v|); assert OccursAt(LowerAscii(s), LowerAscii(v), 0); r
      else r
  }

  /** `EndsAs`: false when either string is null or empty; otherwise whether
      `str` ends with `value`, ignoring case. Such a `str` also `Has` it. */
  function EndsAs(str: Option<string>, value: Option<string>): (r: bool)
    ensures NoOperands(str, value) ==> !r
    ensures r ==> OccursAt(LowerAscii(str.value), LowerAscii(value.value), |str.value| - |value.value|)
    ensures r ==> Has(str, value)
  {
    if NoOperands(str, value) then false
    else
      var s, v := str.value, value.value;
      var r := |v| <= |s| && EqualsIgnoreCase(s[|s| - |v|..], v);
      if r then
        LowerSlice(s, |s| - |v|, |s|);
        assert OccursAt(LowerAscii(s), LowerAscii(v), |s| - |v|);
        r
      else r
  }

  /** `Is`: ordinal case-insensitive equality; null equals only null. */
  predicate Is(input: Option<string>, comparand: Option<string>) {
    if input.None? || comparand.None? then input == comparand
    else EqualsIgnoreCase(input.value, comparand.value)
  }

  /** `Is` is an equivalence, and on non-empty text it is `StartsAs` with
      the lengths equal. */
  lemma IsEquivalence(a: Option<string>, b: Option<string>, c: Option<string>)
    ensures Is(a, a)
    ensures Is(a, b) ==> Is(b, a)
    ensures Is(a, b) && Is(b, c) ==> Is(a, c)
    ensures !NoOperands(a, b) ==> (Is(a, b) <==> StartsAs(a, b) && |a.value| == |b.value|)
  {
    if !NoOperands(a, b) && StartsAs(a, b) && |a.value| == |b.value| {
      assert a.value[..|b.value|] == a.value;
    }
  }

  /** A string that begins (ends) with a case variant of a non-empty `value`
      `StartsAs` (`EndsAs`) it. */
  lemma StartsAsEndsAs(p: string, value: string, rest: string)
    requires EqualsIgnoreCase(p, value) && |value| > 0
    ensures StartsAs(Some(p + rest), Some(value))
    ensures EndsAs(Some(rest + p), Some(value))
  {
    assert (p + rest)[..|value|] == p;
    assert (rest + p)[|rest + p| - |value|..] == p;
  }

  // ---------------------------------------------------------------------------
  // HTML attribute encoding

  /** The replacement of one character: only `"`, `&` and `<` change. */
  function AttributeEntity(c: char): string {
    match c
    case '"' => "&quot;"
    case '&' => "&amp;"
    case '<' => "&lt;"
    case _ => [c]
  }

  /** Neither a quote nor an opening angle bracket. */
  predicate AttributeSafe(s: string) {
    forall i :: 0 <= i < |s| ==> s[i] != '"' && s[i] != '<'
  }

  function EncodeAttribute(s: string): (r: string)
    ensures AttributeSafe(r)
    ensures |r| >= |s|
    decreases |s|
  {
    if |s| == 0 then "" else AttributeEntity(s[0]) + EncodeAttribute(s[1..])
  }

  /** `HtmlAttributeEncode`: null stays null; the output holds no quote and no
      opening angle bracket. */
  function HtmlAttributeEncode(str: Option<string>): (r: Option<string>)
    ensures r.None? <==> str.None?
    ensures r.Some? ==> AttributeSafe(r.value) && |r.value| >= |str.value|
  {
    match str
    case None => None
    case Some(s) => Some(EncodeAttribute(s))
  }

  /** The inverse: the three entities back to their characters, every other
      character as it is. */
  function DecodeAttribute(s: string): string
    decreases |s|
  {
    if |s| == 0 then ""
    else if |s| >= 6 && s[..6] == "&quot;" then "\"" + DecodeAttribute(s[6..])
    else if |s| >= 5 && s[..5] == "&amp;" then "&" + DecodeAttribute(s[5..])
    else if |s| >= 4 && s[..4] == "&lt;" then "<" + DecodeAttribute(s[4..])
    else [s[0]] + DecodeAttribute(s[1..])
  }

  lemma DecodeQuot(rest: string)
    ensures DecodeAttribute("&quot;" + rest) == "\"" + DecodeAttribute(rest)
  {
    var e := "&quot;" + rest;
    assert e[..6] == "&quot;" && e[6..] == rest;
  }

  lemma DecodeAmp(rest: string)
    ensures DecodeAttribute("&amp;" + rest) == "&" + DecodeAttribute(rest)
  {
    var e := "&amp;" + rest;
    assert e[1] == 'a';
    assert e[..5] == "&amp;" && e[5..] == rest;
  }

  lemma DecodeLt(rest: string)
    ensures DecodeAttribute("&lt;" + rest) == "<" + DecodeAttribute(rest)
  {
    var e := "&lt;" + rest;
    assert e[1] == 'l';
    assert e[..4] == "&lt;" && e[4..] == rest;
  }

  lemma DecodePlain(c: char, rest: string)
    requires c != '&'
    ensures DecodeAttribute([c] + rest) == [c] + DecodeAttribute(rest)
  {
    var e := [c] + rest;
    assert e[0] == c && e[1..] == rest;
  }

  /** Decoding one encoded character then the rest. */
  lemma DecodeEntity(c: char, rest: string)
    ensures DecodeAttribute(AttributeEntity(c) + rest) == [c] + DecodeAttribute(rest)
  {
    if c == '"' {
      DecodeQuot(rest);
    } else if c == '&' {
      DecodeAmp(rest);
    } else if c == '<' {
      DecodeLt(rest);
    } else {
      DecodePlain(c, rest);
    }
  }

  /** Encoding loses nothing: decoding gives the original text back. */
  lemma {:induction false} DecodeEncodeAttribute(s: string)
    ensures DecodeAttribute(EncodeAttribute(s)) == s
    decreases |s|
  {
    if |s| > 0 {
      DecodeEncodeAttribute(s[1..]);
      DecodeEntity(s[0], EncodeAttribute(s[1..]));
      assert [s[0]] + s[1..] == s;
    }
  }

  /** Text without `"`, `&` and `<` is left as it is. */
  lemma {:induction false} EncodeKeepsPlain(s: string)
    requires forall i :: 0 <= i < |s| ==> s[i] != '"' && s[i] != '&' && s[i] != '<'
    ensures HtmlAttributeEncode(Some(s)) == Some(s)
    decreases |s|
  {
    if |s| > 0 {
      EncodeKeepsPlain(s[1..]);
      assert [s[0]] + s[1..] == s;
    }
  }

  // ---------------------------------------------------------------------------
  // URL-friendly segments

  /** The source's `hyphenation` variable: 0 (`Normal`), 1 (an explicit `-` or
      `_` was just written, `Explicit`) and 2 (a hyphen is owed before the
      next word character, `Pending`). */
  datatype Hyphenation = Normal | Explicit | Pending

  /** The characters that are written out: ASCII letters and digits, `&`
      and `+`. */
  predicate IsUrlWordChar(c: char) {
    IsAsciiLetterOrDigit(c) || c == '&' || c == '+'
  }

  /** The characters the output is made of. */
  predicate IsUrlChar(c: char) {
    IsAsciiLetterOrDigit(c) || c == '_' || c == '-'
  }

  /** A character that is dropped and owes a hyphen. */
  predicate IsUrlBreak(c: char) {
    !IsUrlWordChar(c) && c != '_' && c != '-' && c != '\''
  }

  predicate UrlText(s: string) {
    forall i :: 0 <= i < |s| ==> IsUrlChar(s[i])
  }

  /** One character: what is appended and the next hyphenation state. */
  function UrlStep(c: char, h: Hyphenation): (r: (string, Hyphenation))
    ensures UrlText(r.0)
  {
    if IsUrlWordChar(c) then
      var lead := if h == Pending then "-" else "";
      if c == '&' then (lead + "and", Pending)
      else if c == '+' then (lead + "plus", Pending)
      else (lead + [c], Normal)
    else if c == '_' || c == '-' then ([c], Explicit)
    else if c == '\'' then ("", h)
    else ("", if h != Explicit then Pending else h)
  }

  function UrlFrom(s: string, h: Hyphenation): (r: string)
    ensures UrlText(r)
    decreases |s|
  {
    if |s| == 0 then ""
    else
      var (out, h') := UrlStep(s[0], h);
      out + UrlFrom(s[1..], h')
  }

  function HyphenationAfter(s: string, h: Hyphenation): Hyphenation
    decreases |s|
  {
    if |s| == 0 then h else HyphenationAfter(s[1..], UrlStep(s[0], h).1)
  }

  /** `MakeUrlFriendly`: `""` for null; otherwise only ASCII letters, digits,
      `_` and `-` are written. */
  function MakeUrlFriendly(str: Option<string>): (r: string)
    ensures str.None? ==> r == ""
    ensures UrlText(r)
  {
    match str
    case None => ""
    case Some(s) => UrlFrom(s, Normal)
  }

  /** The cleaner reads its input left to right: a split input is the output
      of the first part followed by that of the second, from the state the
      first part leaves. */
  lemma {:induction false} UrlFromAppend(p: string, q: string, h: Hyphenation)
    ensures UrlFrom(p + q, h) == UrlFrom(p, h) + UrlFrom(q, HyphenationAfter(p, h))
    ensures HyphenationAfter(p + q, h) == HyphenationAfter(q, HyphenationAfter(p, h))
    decreases |p|
  {
    if |p| > 0 {
      var h' := UrlStep(p[0], h).1;
      UrlFromAppend(p[1..], q, h');
      assert (p + q)[0] == p[0] && (p + q)[1..] == p[1..] + q;
    } else {
      assert p + q == q;
    }
  }

  /** Text that is already URL-friendly passes through unchanged. */
  lemma {:induction false} UrlFromUrlText(s: string, h: Hyphenation)
    requires UrlText(s) && h != Pending
    ensures UrlFrom(s, h) == s
    decreases |s|
  {
    if |s| > 0 {
      var (out, h') := UrlStep(s[0], h);
      assert out == [s[0]] && h' != Pending;
      UrlFromUrlText(s[1..], h');
      assert [s[0]] + s[1..] == s;
    }
  }

  /** Cleaning twice is cleaning once. */
  lemma MakeUrlFriendlyIdempotent(s: Option<string>)
    ensures MakeUrlFriendly(Some(MakeUrlFriendly(s))) == MakeUrlFriendly(s)
  {
    UrlFromUrlText(MakeUrlFriendly(s), Normal);
  }

  /** A leading apostrophe writes nothing and keeps the state. */
  lemma UrlApostrophe(q: string, h: Hyphenation)
    ensures UrlFrom("'" + q, h) == UrlFrom(q, h)
  {
    var s := "'" + q;
    assert s[0] == '\'' && s[1..] == q;
    assert UrlStep('\'', h) == ("", h);
  }

  /** An apostrophe is ignored as if it were not there. */
  lemma UrlDropsApostrophe(p: string, q: string)
    ensures MakeUrlFriendly(Some(p + "'" + q)) == MakeUrlFriendly(Some(p + q))
  {
    assert p + "'" + q == p + ("'" + q);
    UrlFromAppend(p, "'" + q, Normal);
    UrlFromAppend(p, q, Normal);
    UrlApostrophe(q, HyphenationAfter(p, Normal));
  }

  /** A run of break characters writes nothing; it owes a hyphen unless an
      explicit separator came just before it. */
  lemma {:induction false} UrlBreakRun(b: string, h: Hyphenation)
    requires |b| > 0 && forall i :: 0 <= i < |b| ==> IsUrlBreak(b[i])
    ensures UrlFrom(b, h) == ""
    ensures HyphenationAfter(b, h) == if h == Explicit then Explicit else Pending
    decreases |b|
  {
    if |b| > 1 {
      UrlBreakRun(b[1..], UrlStep(b[0], h).1);
    }
  }

  /** The state after a non-empty text is set by its last character. */
  lemma HyphenationAfterLast(p: string, h: Hyphenation)
    requires |p| > 0
    ensures HyphenationAfter(p, h) == UrlStep(p[|p| - 1], HyphenationAfter(p[..|p| - 1], h)).1
  {
    UrlFromAppend(p[..|p| - 1], [p[|p| - 1]], h);
    assert p[..|p| - 1] + [p[|p| - 1]] == p;
  }

  /** Break characters at the end of the input are dropped. */
  lemma UrlTrailingBreaksDropped(p: string, b: string)
    requires |b| > 0 && forall i :: 0 <= i < |b| ==> IsUrlBreak(b[i])
    ensures MakeUrlFriendly(Some(p + b)) == MakeUrlFriendly(Some(p))
  {
    UrlFromAppend(p, b, Normal);
    UrlBreakRun(b, HyphenationAfter(p, Normal));
  }

  /** Break characters between two word characters become one hyphen, placed
      just before the second. */
  lemma UrlBreaksBecomeHyphen(p: string, b: string, a: char)
    requires |p| > 0 && IsAsciiLetterOrDigit(p[|p| - 1]) && IsAsciiLetterOrDigit(a)
    requires |b| > 0 && forall i :: 0 <= i < |b| ==> IsUrlBreak(b[i])
    ensures MakeUrlFriendly(Some(p + b + [a])) == MakeUrlFriendly(Some(p)) + "-" + [a]
  {
    HyphenationAfterLast(p, Normal);
    UrlFromAppend(p, b + [a], Normal);
    UrlFromAppend(b, [a], HyphenationAfter(p, Normal));
    UrlBreakRun(b, HyphenationAfter(p, Normal));
    assert p + b + [a] == p + (b + [a]);
  }

  /** After an explicit `-` or `_` no hyphen is added, however many break
      characters follow. */
  lemma UrlSeparatorSuppressesHyphen(p: string, b: string, a: char)
    requires |p| > 0 && (p[|p| - 1] == '-' || p[|p| - 1] == '_') && IsAsciiLetterOrDigit(a)
    requires forall i :: 0 <= i < |b| ==> IsUrlBreak(b[i])
    ensures MakeUrlFriendly(Some(p + b + [a])) == MakeUrlFriendly(Some(p)) + [a]
  {
    var h := HyphenationAfter(p, Normal);
    HyphenationAfterLast(p, Normal);
    assert h == Explicit;
    UrlFromAppend(p, b + [a], Normal);
    assert p + b + [a] == p + (b + [a]);
    if |b| > 0 {
      UrlFromAppend(b, [a], h);
      UrlBreakRun(b, h);
    } else {
      assert b + [a] == [a];
    }
    assert UrlFrom([a], Explicit) == [a];
  }

  lemma UrlCons(c: char, s: string, h: Hyphenation)
    ensures UrlFrom([c] + s, h) == UrlStep(c, h).0 + UrlFrom(s, UrlStep(c, h).1)
  {
    assert ([c] + s)[0] == c && ([c] + s)[1..] == s;
  }

  lemma UrlTailB()
    ensures UrlFrom(" b", Pending) == "-b"
  {
    UrlCons('b', "", Pending);
    assert "b" == ['b'] + "";
    UrlCons(' ', "b", Pending);
    assert " b" == [' '] + "b";
  }

  lemma UrlTailAndB()
    ensures UrlFrom(" & b", Normal) == "-and-b"
  {
    UrlTailB();
    UrlCons('&', " b", Pending);
    assert "& b" == ['&'] + " b";
    UrlCons(' ', "& b", Normal);
    assert " & b" == [' '] + "& b";
  }

  /** `&` becomes a word that owes a hyphen to the word after it; a hyphen
      is written before it only when one is owed already. */
  lemma UrlAndExample()
    ensures MakeUrlFriendly(Some("a & b")) == "a-and-b"
  {
    UrlTailAndB();
    UrlCons('a', " & b", Normal);
    assert "a & b" == ['a'] + " & b";
  }

  /** Each `+` is the word `plus`; the second owes the first a hyphen. */
  lemma UrlPlusExample()
    ensures MakeUrlFriendly(Some("C++")) == "Cplus-plus"
  {
    assert UrlFrom("+", Pending) == "-plus" by {
      UrlCons('+', "", Pending);
      assert "+" == ['+'] + "";
    }
    assert UrlFrom("++", Normal) == "plus-plus" by {
      UrlCons('+', "+", Normal);
      assert "++" == ['+'] + "+";
    }
    UrlCons('C', "++", Normal);
    assert "C++" == ['C'] + "++";
  }

  // ---------------------------------------------------------------------------
  // Line breaks

  /** Ordinal `string.Replace`: every occurrence of `pattern`, found left to
      right without overlap, replaced by `repl`. */
  function Replace(s: string, pattern: string, repl: string): string
    requires |pattern| > 0
    decreases |s|
  {
    if |pattern| <= |s| && s[..|pattern|] == pattern then repl + Replace(s[|pattern|..], pattern, repl)
    else if |s| == 0 then ""
    else [s[0]] + Replace(s[1..], pattern, repl)
  }

  /** `FixLineBreaks` on a non-null text: `"\r\n"` to `"\n"`, then `"\r"` to
      `"\n"`, then `"\n"` to `replaceWith`, which removes the breaks when it is
      null. */
  function FixLineBreaksText(s: string, replaceWith: Option<string>): string {
    ReplaceBreaks(s, replaceWith.GetOr(""))
  }

  /** `FixLineBreaks`: null stays null. */
  function FixLineBreaks(inputText: Option<string>, replaceWith: Option<string>): (r: Option<string>)
    ensures r.None? <==> inputText.None?
    ensures r.Some? ==> r.value == LineBreaksTo(inputText.value, replaceWith.GetOr(""))
  {
    match inputText
    case None => None
    case Some(s) =>
      FixLineBreaksIsOnePass(s, replaceWith.GetOr(""));
      Some(FixLineBreaksText(s, replaceWith))
  }

  /** The line-break rule in one pass: each `"\r\n"`, lone `"\r"` and lone
      `"\n"` becomes `t`; every other character is kept. */
  function LineBreaksTo(s: string, t: string): string
    decreases |s|
  {
    if |s| == 0 then ""
    else if |s| >= 2 && s[0] == '\r' && s[1] == '\n' then t + LineBreaksTo(s[2..], t)
    else if s[0] == '\r' || s[0] == '\n' then t + LineBreaksTo(s[1..], t)
    else [s[0]] + LineBreaksTo(s[1..], t)
  }

  lemma ReplaceCons(c: char, s: string, pattern: string, repl: string)
    requires |pattern| == 1 && c != pattern[0]
    ensures Replace([c] + s, pattern, repl) == [c] + Replace(s, pattern, repl)
  {
    assert ([c] + s)[..1] == [c] && ([c] + s)[1..] == s;
  }

  lemma ReplaceHit(s: string, pattern: string, repl: string)
    requires |pattern| > 0
    ensures Replace(pattern + s, pattern, repl) == repl + Replace(s, pattern, repl)
  {
    assert (pattern + s)[..|pattern|] == pattern && (pattern + s)[|pattern|..] == s;
  }

  /** The three replacements of `FixLineBreaks`, in order. */
  function ReplaceBreaks(s: string, t: string): string {
    Replace(Replace(Replace(s, "\r\n", "\n"), "\r", "\n"), "\n", t)
  }

  /** A leading `"\r\n"` becomes one `t`. */
  lemma OnePassCrLf(rest: string, t: string)
    requires ReplaceBreaks(rest, t) == LineBreaksTo(rest, t)
    ensures ReplaceBreaks("\r\n" + rest, t) == LineBreaksTo("\r\n" + rest, t)
  {
    var s := "\r\n" + rest;
    assert s[2..] == rest;
    ReplaceHit(rest, "\r\n", "\n");
    ReplaceCons('\n', Replace(rest, "\r\n", "\n"), "\r", "\n");
    ReplaceHit(Replace(Replace(rest, "\r\n", "\n"), "\r", "\n"), "\n", t);
  }

  /** Where the pattern does not start, the first character is kept. */
  lemma ReplaceMiss(s: string, pattern: string, repl: string)
    requires |pattern| > 0 && |s| > 0
    requires !(|pattern| <= |s| && s[..|pattern|] == pattern)
    ensures Replace(s, pattern, repl) == [s[0]] + Replace(s[1..], pattern, repl)
  {
  }

  /** A leading character that does not start `"\r\n"` passes the first
      replacement unchanged. */
  lemma FirstReplaceCons(c: char, rest: string)
    requires !(c == '\r' && |rest| > 0 && rest[0] == '\n')
    ensures Replace([c] + rest, "\r\n", "\n") == [c] + Replace(rest, "\r\n", "\n")
  {
    var s := [c] + rest;
    var p := "\r\n";
    assert s[0] == c && s[1..] == rest;
    if |s| >= 2 {
      assert s[..2] == [c, rest[0]];
      assert p == ['\r', '\n'];
    }
    ReplaceMiss(s, p, "\n");
  }

  /** A lone `\r` or `\n` becomes one `t`; another character is kept. */
  lemma OnePassChar(c: char, rest: string, t: string)
    requires !(c == '\r' && |rest| > 0 && rest[0] == '\n')
    requires ReplaceBreaks(rest, t) == LineBreaksTo(rest, t)
    ensures ReplaceBreaks([c] + rest, t) == LineBreaksTo([c] + rest, t)
  {
    var s := [c] + rest;
    assert s[0] == c && s[1..] == rest;
    FirstReplaceCons(c, rest);
    var r1 := Replace(rest, "\r\n", "\n");
    if c == '\r' {
      ReplaceHit(r1, "\r", "\n");
      ReplaceHit(Replace(r1, "\r", "\n"), "\n", t);
    } else if c == '\n' {
      ReplaceCons('\n', r1, "\r", "\n");
      ReplaceHit(Replace(r1, "\r", "\n"), "\n", t);
    } else {
      ReplaceCons(c, r1, "\r", "\n");
      ReplaceCons(c, Replace(r1, "\r", "\n"), "\n", t);
    }
  }

  /** The three replacements in a row are the one-pass rule. */
  lemma {:induction false} FixLineBreaksIsOnePass(s: string, t: string)
    ensures ReplaceBreaks(s, t) == LineBreaksTo(s, t)
    decreases |s|
  {
    if |s| >= 2 && s[0] == '\r' && s[1] == '\n' {
      FixLineBreaksIsOnePass(s[2..], t);
      assert s == "\r\n" + s[2..];
      OnePassCrLf(s[2..], t);
    } else if |s| > 0 {
      FixLineBreaksIsOnePass(s[1..], t);
      assert s == [s[0]] + s[1..];
      OnePassChar(s[0], s[1..], t);
    }
  }

  /** With the default `"\r\n"`, a text whose breaks are fixed is left as it is
      by a second fix. */
  lemma {:induction false} FixLineBreaksIdempotent(s: string)
    ensures LineBreaksTo(LineBreaksTo(s, "\r\n"), "\r\n") == LineBreaksTo(s, "\r\n")
    decreases |s|
  {
    if |s| > 0 {
      var once := LineBreaksTo(s, "\r\n");
      if |s| >= 2 && s[0] == '\r' && s[1] == '\n' {
        FixLineBreaksIdempotent(s[2..]);
        CrLfThen(LineBreaksTo(s[2..], "\r\n"));
      } else if s[0] == '\r' || s[0] == '\n' {
        FixLineBreaksIdempotent(s[1..]);
        CrLfThen(LineBreaksTo(s[1..], "\r\n"));
      } else {
        FixLineBreaksIdempotent(s[1..]);
        var rest := LineBreaksTo(s[1..], "\r\n");
        assert once == [s[0]] + rest;
        assert once[0] == s[0] && once[1..] == rest;
      }
    }
  }

  lemma CrLfThen(rest: string)
    ensures LineBreaksTo("\r\n" + rest, "\r\n") == "\r\n" + LineBreaksTo(rest, "\r\n")
  {
    var e := "\r\n" + rest;
    assert e[0] == '\r' && e[1] == '\n' && e[2..] == rest;
  }

  /** Breaks normalised to `"\n"` leave no carriage return behind. */
  lemma {:induction false} LineBreaksToNewline(s: string)
    ensures forall i :: 0 <= i < |LineBreaksTo(s, "\n")| ==> LineBreaksTo(s, "\n")[i] != '\r'
    decreases |s|
  {
    if |s| > 0 {
      if |s| >= 2 && s[0] == '\r' && s[1] == '\n' {
        LineBreaksToNewline(s[2..]);
      } else {
        LineBreaksToNewline(s[1..]);
      }
    }
  }

  // ---------------------------------------------------------------------------
  // Trimming to a length

  /** `TrimTo(inputText, maxLen, ellipsis, ellipsisAppend)`: `""` for null;
      otherwise the whitespace-trimmed text if it fits in `maxLen`, else its
      first `maxLen` characters followed by the ellipsis (when the ellipsis is
      null or appended), else the ellipsis cut to `maxLen` (when it does not
      fit), else the text cut so that it and the ellipsis fill `maxLen`. A
      negative `maxLen` reaches `Substring` and throws. */
  function TrimTo(inputText: Option<string>, maxLen: int, ellipsis: Option<string>, ellipsisAppend: bool): (r: Outcome<string>)
    ensures inputText.None? ==> r == Returns("")
    ensures inputText.Some? ==> (r.Throws? <==> maxLen < 0)
    ensures r.Throws? ==> r.error == ArgumentOutOfRangeException
    ensures inputText.Some? && r.Returns? && (!ellipsisAppend || ellipsis.None?) ==> |r.value| <= maxLen
    ensures inputText.Some? && r.Returns? ==> |r.value| <= maxLen + |ellipsis.GetOr("")|
    ensures inputText.Some? && |Trim(inputText.value)| <= maxLen ==> r == Returns(Trim(inputText.value))
    ensures inputText.Some? && 0 <= maxLen < |Trim(inputText.value)| && (ellipsis.None? || ellipsisAppend) ==>
      r == Returns(Trim(inputText.value)[..maxLen] + ellipsis.GetOr(""))
    ensures inputText.Some? && 0 <= maxLen < |Trim(inputText.value)| && ellipsis.Some? && !ellipsisAppend ==>
      r.Returns? && |r.value| == maxLen
    ensures (inputText.Some? && 0 <= maxLen < |Trim(inputText.value)| && ellipsis.Some? && !ellipsisAppend &&
             |ellipsis.value| >= maxLen) ==> r == Returns(ellipsis.value[..maxLen])
    ensures (inputText.Some? && 0 <= maxLen < |Trim(inputText.value)| && ellipsis.Some? && !ellipsisAppend &&
             |ellipsis.value| < maxLen) ==>
      r.Returns? && r.value[..maxLen - |ellipsis.value|] == Trim(inputText.value)[..maxLen - |ellipsis.value|] &&
      r.value[maxLen - |ellipsis.value|..] == ellipsis.value
  {
    if inputText.None? then Returns("")
    else
      var txt := Trim(inputText.value);
      if |txt| <= maxLen then Returns(txt)
      else if maxLen < 0 then Throws(ArgumentOutOfRangeException)
      else if ellipsis.None? || ellipsisAppend then Returns(txt[..maxLen] + ellipsis.GetOr(""))
      else if |ellipsis.value| >= maxLen then Returns(ellipsis.value[..maxLen])
      else Returns(txt[..maxLen - |ellipsis.value|] + ellipsis.value)
  }

  /** `TrimTo(inputText, maxLen, addEllipsis)`: no ellipsis, or `"..."` fitted
      inside the limit. */
  function TrimToLength(inputText: Option<string>, maxLen: int, addEllipsis: bool): (r: Outcome<string>)
    ensures inputText.Some? && maxLen >= 0 ==> r.Returns? && |r.value| <= maxLen
  {
    TrimTo(inputText, maxLen, if addEllipsis then Some("...") else None, false)
  }

  /** A text too long for the limit is cut to exactly `maxLen` characters: the
      start of the trimmed text, then, if asked for and there is room, the
      ellipsis. */
  lemma TrimToTooLong(s: string, maxLen: int, addEllipsis: bool)
    requires 0 <= maxLen < |Trim(s)|
    ensures |TrimToLength(Some(s), maxLen, addEllipsis).value| == maxLen
    ensures !addEllipsis ==> TrimToLength(Some(s), maxLen, addEllipsis).value == Trim(s)[..maxLen]
    ensures addEllipsis && maxLen > 3 ==>
      (var r := TrimToLength(Some(s), maxLen, addEllipsis).value;
       r[..maxLen - 3] == Trim(s)[..maxLen - 3] && r[maxLen - 3..] == "...")
  {
  }

  // ---------------------------------------------------------------------------
  // Ordinals

  /** C#'s `%` on `int`: the remainder takes the sign of the dividend. */
  function Rem(a: int, b: int): (r: int)
    requires b > 0
    ensures -b < r < b
    ensures a >= 0 ==> 0 <= r
    ensures a <= 0 ==> r <= 0
  {
    if a >= 0 then a % b else -((-a) % b)
  }

  /** The suffix `ToOrdinalString` picks. */
  function OrdinalSuffix(i: int): string {
    var test := Rem(i, 100);
    if test < 10 || test > 19 then
      var d := Rem(test, 10);
      if d == 1 then "st" else if d == 2 then "nd" else if d == 3 then "rd" else "th"
    else "th"
  }

  /** `ToOrdinalString` without a formatter: the number's text, then a two-letter
      suffix. */
  function ToOrdinalString(i: int): (r: string)
    ensures |r| >= 3 && r[..|r| - 2] == IntText(i)
    ensures r[|r| - 2..] in {"st", "nd", "rd", "th"}
  {
    var r := IntText(i) + OrdinalSuffix(i);
    assert r[..|r| - 2] == IntText(i);
    r
  }

  /** English usage for non-negative numbers: `th` after 11, 12 and 13 (and
      every other number ending in 0 or 4..9), otherwise `st`, `nd`, `rd` by the
      last digit. */
  /** The last two characters of an ordinal are its suffix. */
  lemma OrdinalEndsWithSuffix(i: int)
    ensures ToOrdinalString(i)[|ToOrdinalString(i)| - 2..] == OrdinalSuffix(i)
  {
    var t := IntText(i);
    var r := t + OrdinalSuffix(i);
    assert r[|r| - 2..] == OrdinalSuffix(i);
  }

  lemma LastDigitOfLastTwo(n: nat)
    ensures (n % 100) % 10 == n % 10
  {
  }

  lemma OrdinalSuffixRule(n: nat)
    ensures ToOrdinalString(n)[|ToOrdinalString(n)| - 2..] ==
      if 11 <= n % 100 <= 13 then "th"
      else if n % 10 == 1 then "st"
      else if n % 10 == 2 then "nd"
      else if n % 10 == 3 then "rd"
      else "th"
  {
    OrdinalEndsWithSuffix(n);
    LastDigitOfLastTwo(n);
    assert Rem(n, 100) == n % 100;
    assert Rem(n % 100, 10) == n % 10;
  }

  /** Truncating remainders make every negative number end in `th`: `-1th`,
      `-2th`, `-3th`. */
  lemma NegativeOrdinalTh(i: int)
    requires i < 0
    ensures ToOrdinalString(i)[|ToOrdinalString(i)| - 2..] == "th"
  {
    OrdinalEndsWithSuffix(i);
  }

  /** The number in an ordinal reads back as that number. */
  lemma OrdinalReadsBack(i: int)
    requires IsInt32(i)
    ensures ParseInt32(ToOrdinalString(i)[..|ToOrdinalString(i)| - 2]) == Returns(i)
  {
    ParseIntText(i);
  }

  // ---------------------------------------------------------------------------
  // Camel case

  /** The ASCII letters and digits of `s`, in order. */
  function LettersAndDigits(s: string): (r: string)
    ensures forall i :: 0 <= i < |r| ==> IsLetterOrDigit(r[i])
    decreases |s|
  {
    if |s| == 0 then ""
    else if IsLetterOrDigit(s[0]) then [s[0]] + LettersAndDigits(s[1..])
    else LettersAndDigits(s[1..])
  }

  function Flush(part: string): seq<string> {
    if |part| > 0 then [part] else []
  }

  predicate PartsWellFormed(parts: seq<string>) {
    forall k :: 0 <= k < |parts| ==> |parts[k]| > 0
  }

  function Concat(parts: seq<string>): string
    decreases |parts|
  {
    if |parts| == 0 then "" else parts[0] + Concat(parts[1..])
  }

  /** The word parts of `ToCamelCase`: a character that is not a letter or
      digit ends the part, and so does a capital after a lower-case letter or
      digit; `caps` is the source's `bool? isCaps`. */
  function CamelParts(s: string, part: string, caps: Option<bool>): (r: seq<string>)
    requires forall i :: 0 <= i < |part| ==> IsLetterOrDigit(part[i])
    ensures PartsWellFormed(r)
    ensures forall k, i :: 0 <= k < |r| && 0 <= i < |r[k]| ==> IsLetterOrDigit(r[k][i])
    decreases |s|
  {
    if |s| == 0 then Flush(part)
    else
      var c := s[0];
      if !IsLetterOrDigit(c) then Flush(part) + CamelParts(s[1..], "", None)
      else if IsUpper(c) then
        if caps != Some(false) then CamelParts(s[1..], part + [c], Some(true))
        else Flush(part) + CamelParts(s[1..], [c], None)
      else CamelParts(s[1..], part + [c], Some(false))
  }

  /** A part after the first: its first character upper-cased, the rest
      lower-cased. */
  function Capitalised(part: string): (r: string)
    requires |part| > 0
    ensures |r| == |part|
  {
    [ToUpperAscii(part[0])] + LowerAscii(part[1..])
  }

  function JoinCapitalised(parts: seq<string>): string
    requires PartsWellFormed(parts)
    decreases |parts|
  {
    if |parts| == 0 then "" else Capitalised(parts[0]) + JoinCapitalised(parts[1..])
  }

  /** `ToCamelCase(value, prefixNumberWithUnderscore)`: `""` for null or for a
      text with no letter or digit; otherwise the first part lower-cased and
      the others capitalised, with `_` in front when asked for and the first
      part starts with a digit. */
  function ToCamelCase(value: Option<string>, prefixNumberWithUnderscore: bool): (r: string)
    ensures value.None? ==> r == ""
  {
    if value.None? then ""
    else
      var parts := CamelParts(value.value, "", None);
      if |parts| == 0 then ""
      else
        var lead := if prefixNumberWithUnderscore && IsAsciiDigit(parts[0][0]) then "_" else "";
        lead + LowerAscii(parts[0]) + JoinCapitalised(parts[1..])
  }

  /** `ToPascalCase`: the camel-case identifier with its first character
      upper-cased; indexing the first character of an empty identifier
      throws. */
  function ToPascalCase(s: Option<string>): (r: Outcome<string>)
    ensures r.Throws? <==> ToCamelCase(s, false) == ""
    ensures r.Throws? ==> r.error == IndexOutOfRangeException
    ensures r.Returns? ==> |r.value| == |ToCamelCase(s, false)| && !IsAsciiLower(r.value[0])
    ensures r.Returns? ==> r.value[1..] == ToCamelCase(s, false)[1..]
  {
    var x := ToCamelCase(s, false);
    if |x| == 0 then Throws(IndexOutOfRangeException)
    else Returns([ToUpperAscii(x[0])] + x[1..])
  }

  lemma {:induction false} ConcatAppend(a: seq<string>, b: seq<string>)
    ensures Concat(a + b) == Concat(a) + Concat(b)
    decreases |a|
  {
    if |a| == 0 {
      assert a + b == b;
    } else {
      ConcatAppend(a[1..], b);
      assert (a + b)[1..] == a[1..] + b;
    }
  }

  /** Ending a part adds its text in front of the rest. */
  lemma FlushThen(part: string, rest: seq<string>)
    ensures Concat(Flush(part) + rest) == part + Concat(rest)
  {
    ConcatAppend(Flush(part), rest);
    if |part| > 0 {
      assert Concat([part]) == part + Concat([]);
    }
  }

  /** A character that is not a letter or digit ends the part and is
      dropped. */
  lemma CamelLettersSkip(s: string, part: string, caps: Option<bool>)
    requires forall i :: 0 <= i < |part| ==> IsLetterOrDigit(part[i])
    requires |s| > 0 && !IsLetterOrDigit(s[0])
    requires Concat(CamelParts(s[1..], "", None)) == "" + LettersAndDigits(s[1..])
    ensures Concat(CamelParts(s, part, caps)) == part + LettersAndDigits(s)
  {
    var rest := CamelParts(s[1..], "", None);
    assert CamelParts(s, part, caps) == Flush(part) + rest;
    FlushThen(part, rest);
    assert Concat(rest) == LettersAndDigits(s[1..]);
    assert LettersAndDigits(s) == LettersAndDigits(s[1..]);
  }

  /** A capital after a lower-case letter or digit starts a new part. */
  lemma CamelLettersBreak(s: string, part: string)
    requires forall i :: 0 <= i < |part| ==> IsLetterOrDigit(part[i])
    requires |s| > 0 && IsUpper(s[0])
    requires Concat(CamelParts(s[1..], [s[0]], None)) == [s[0]] + LettersAndDigits(s[1..])
    ensures Concat(CamelParts(s, part, Some(false))) == part + LettersAndDigits(s)
  {
    FlushThen(part, CamelParts(s[1..], [s[0]], None));
    assert LettersAndDigits(s) == [s[0]] + LettersAndDigits(s[1..]);
  }

  /** Any other letter or digit extends the part. */
  lemma CamelLettersExtend(s: string, part: string, caps: Option<bool>, next: Option<bool>)
    requires forall i :: 0 <= i < |part| ==> IsLetterOrDigit(part[i])
    requires |s| > 0 && IsLetterOrDigit(s[0]) && !(IsUpper(s[0]) && caps == Some(false))
    requires next == if IsUpper(s[0]) then Some(true) else Some(false)
    requires Concat(CamelParts(s[1..], part + [s[0]], next)) == part + [s[0]] + LettersAndDigits(s[1..])
    ensures Concat(CamelParts(s, part, caps)) == part + LettersAndDigits(s)
  {
    assert CamelParts(s, part, caps) == CamelParts(s[1..], part + [s[0]], next);
    assert LettersAndDigits(s) == [s[0]] + LettersAndDigits(s[1..]);
  }

  /** The parts hold exactly the letters and digits, in order. */
  lemma {:induction false} CamelPartsLetters(s: string, part: string, caps: Option<bool>)
    requires forall i :: 0 <= i < |part| ==> IsLetterOrDigit(part[i])
    ensures Concat(CamelParts(s, part, caps)) == part + LettersAndDigits(s)
    decreases |s|
  {
    if |s| == 0 {
      FlushThen(part, []);
    } else {
      var c := s[0];
      if !IsLetterOrDigit(c) {
        CamelPartsLetters(s[1..], "", None);
        CamelLettersSkip(s, part, caps);
      } else if IsUpper(c) && caps == Some(false) {
        CamelPartsLetters(s[1..], [c], None);
        CamelLettersBreak(s, part);
      } else {
        var next := if IsUpper(c) then Some(true) else Some(false);
        CamelPartsLetters(s[1..], part + [c], next);
        CamelLettersExtend(s, part, caps, next);
      }
    }
  }

  lemma {:induction false} JoinCapitalisedLower(parts: seq<string>)
    requires PartsWellFormed(parts)
    ensures LowerAscii(JoinCapitalised(parts)) == LowerAscii(Concat(parts))
    decreases |parts|
  {
    if |parts| > 0 {
      JoinCapitalisedLower(parts[1..]);
      var p := parts[0];
      LowerAppend(Capitalised(p), JoinCapitalised(parts[1..]));
      LowerAppend(p, Concat(parts[1..]));
      assert LowerAscii(Capitalised(p)) == LowerAscii(p) by {
        assert p == [p[0]] + p[1..];
        LowerAppend([p[0]], p[1..]);
        LowerAppend([ToUpperAscii(p[0])], LowerAscii(p[1..]));
      }
    }
  }

  /** Only letters and digits are kept, all of them and in order: ignoring
      case, the camel-case text is the input's letters and digits. */
  lemma CamelCaseKeepsLettersAndDigits(s: string)
    ensures LowerAscii(ToCamelCase(Some(s), false)) == LowerAscii(LettersAndDigits(s))
  {
    var parts := CamelParts(s, "", None);
    CamelPartsLetters(s, "", None);
    assert "" + LettersAndDigits(s) == LettersAndDigits(s);
    if |parts| > 0 {
      JoinCapitalisedLower(parts[1..]);
      LowerAppend(LowerAscii(parts[0]), JoinCapitalised(parts[1..]));
      LowerAppend(parts[0], Concat(parts[1..]));
      assert "" + LowerAscii(parts[0]) == LowerAscii(parts[0]);
    }
  }

  lemma TitleParts()
    ensures CamelParts("Title", "", None) == ["Title"]
    ensures CamelParts("Title", "This", Some(false)) == ["This", "Title"]
  {
    assert CamelParts("", "Title", Some(false)) == ["Title"];
    assert "e"[1..] == "";
    assert "Titl" + ['e'] == "Title";
    assert CamelParts("e", "Titl", Some(false)) == ["Title"];
    assert "le"[1..] == "e";
    assert "Tit" + ['l'] == "Titl";
    assert CamelParts("le", "Tit", Some(false)) == ["Title"];
    assert "tle"[1..] == "le";
    assert "Ti" + ['t'] == "Tit";
    assert CamelParts("tle", "Ti", Some(false)) == ["Title"];
    assert "itle"[1..] == "tle";
    assert "T" + ['i'] == "Ti";
    assert CamelParts("itle", "T", None) == ["Title"];
    assert CamelParts("itle", "T", Some(true)) == ["Title"];
    assert "Title"[1..] == "itle";
    assert "" + ['T'] == "T";
  }

  lemma ThisParts(rest: string)
    requires CamelParts(rest, "This", Some(false)) == ["This", "Title"]
    ensures CamelParts("This" + rest, "", None) == ["This", "Title"]
  {
    assert ("s" + rest)[1..] == rest && ("s" + rest)[0] == 's';
    assert "Thi" + ['s'] == "This";
    assert CamelParts("s" + rest, "Thi", Some(false)) == ["This", "Title"];
    assert ("is" + rest)[1..] == "s" + rest && ("is" + rest)[0] == 'i';
    assert "Th" + ['i'] == "Thi";
    assert CamelParts("is" + rest, "Th", Some(false)) == ["This", "Title"];
    assert ("his" + rest)[1..] == "is" + rest && ("his" + rest)[0] == 'h';
    assert "T" + ['h'] == "Th";
    assert CamelParts("his" + rest, "T", Some(true)) == ["This", "Title"];
    assert ("This" + rest)[1..] == "his" + rest && ("This" + rest)[0] == 'T';
    assert "" + ['T'] == "T";
  }

  lemma CapitalisedTitle()
    ensures JoinCapitalised(["Title"]) == "Title"
  {
    assert Capitalised("Title") == "Title";
    assert ["Title"][1..] == [];
  }

  lemma LowerThis()
    ensures LowerAscii("This") == "this"
  {
  }

  lemma ThisTitleCamel(s: string)
    requires CamelParts(s, "", None) == ["This", "Title"]
    ensures ToCamelCase(Some(s), false) == "thisTitle"
  {
    CapitalisedTitle();
    LowerThis();
    var parts := CamelParts(s, "", None);
    assert parts[0] == "This" && parts[1..] == ["Title"];
    assert "" + "this" + "Title" == "thisTitle";
  }

  /** The examples of the source's documentation: `"ThisTitle"` and
      `"This Title"` give the same identifier. */
  lemma CamelCaseJoinedExample()
    ensures ToCamelCase(Some("ThisTitle"), false) == "thisTitle"
  {
    TitleParts();
    ThisParts("Title");
    assert "This" + "Title" == "ThisTitle";
    ThisTitleCamel("ThisTitle");
  }

  lemma CamelCaseSpacedExample()
    ensures ToCamelCase(Some("This Title"), false) == "thisTitle"
  {
    TitleParts();
    assert CamelParts(" Title", "This", Some(false)) == ["This", "Title"] by {
      assert " Title"[1..] == "Title" && " Title"[0] == ' ';
    }
    ThisParts(" Title");
    assert "This" + " Title" == "This Title";
    ThisTitleCamel("This Title");
  }

  /** A leading digit is prefixed with `_` when asked for. */
  lemma CamelCaseDigitExample()
    ensures ToCamelCase(Some("12"), true) == "_12"
  {
    assert CamelParts("12", "", None) == ["12"] by {
      assert "2"[1..] == "" && "12"[1..] == "2";
      assert "" + ['1'] == "1" && "1" + ['2'] == "12";
    }
    assert LowerAscii("12") == "12";
  }

  lemma CafeParts()
    ensures CamelParts("caf\U{E9}", "", None) == ["caf\U{E9}"]
  {
    assert CamelParts("", "caf\U{E9}", Some(false)) == ["caf\U{E9}"];
    assert "\U{E9}"[1..] == "" && "caf" + ['\U{E9}'] == "caf\U{E9}";
    assert CamelParts("\U{E9}", "caf", Some(false)) == ["caf\U{E9}"];
    assert "f\U{E9}"[1..] == "\U{E9}" && "ca" + ['f'] == "caf";
    assert CamelParts("f\U{E9}", "ca", Some(false)) == ["caf\U{E9}"];
    assert "af\U{E9}"[1..] == "f\U{E9}" && "c" + ['a'] == "ca";
    assert CamelParts("af\U{E9}", "c", Some(false)) == ["caf\U{E9}"];
    assert "caf\U{E9}"[1..] == "af\U{E9}" && "" + ['c'] == "c";
  }

  lemma CremeParts()
    ensures CamelParts("Cr\U{E8}me", "", None) == ["Cr\U{E8}me"]
  {
    assert CamelParts("", "Cr\U{E8}me", Some(false)) == ["Cr\U{E8}me"];
    assert "e"[1..] == "" && "Cr\U{E8}m" + ['e'] == "Cr\U{E8}me";
    assert CamelParts("e", "Cr\U{E8}m", Some(false)) == ["Cr\U{E8}me"];
    assert "me"[1..] == "e" && "Cr\U{E8}" + ['m'] == "Cr\U{E8}m";
    assert CamelParts("me", "Cr\U{E8}", Some(false)) == ["Cr\U{E8}me"];
    assert "\U{E8}me"[1..] == "me" && "Cr" + ['\U{E8}'] == "Cr\U{E8}";
    assert CamelParts("\U{E8}me", "Cr", Some(false)) == ["Cr\U{E8}me"];
    assert "r\U{E8}me"[1..] == "\U{E8}me" && "C" + ['r'] == "Cr";
    assert CamelParts("r\U{E8}me", "C", Some(true)) == ["Cr\U{E8}me"];
    assert "Cr\U{E8}me"[1..] == "r\U{E8}me" && "" + ['C'] == "C";
  }

  /** Accented Latin-1 letters are letters, not word breaks. */
  lemma CamelCaseAccentExample()
    ensures ToCamelCase(Some("caf\U{E9}"), false) == "caf\U{E9}"
    ensures ToCamelCase(Some("Cr\U{E8}me"), false) == "cr\U{E8}me"
  {
    CafeParts();
    CremeParts();
    assert LowerAscii("caf\U{E9}") == "caf\U{E9}";
    assert LowerAscii("Cr\U{E8}me") == "cr\U{E8}me";
    assert ["caf\U{E9}"][1..] == [] && ["Cr\U{E8}me"][1..] == [];
  }

  /** `ToPascalCase` throws exactly for null text or text without a letter
      or digit. */
  lemma PascalThrowsIff(s: Option<string>)
    ensures ToPascalCase(s).Throws? <==> s.None? || |LettersAndDigits(s.value)| == 0
  {
    if s.Some? {
      var parts := CamelParts(s.value, "", None);
      CamelPartsLetters(s.value, "", None);
      assert "" + LettersAndDigits(s.value) == LettersAndDigits(s.value);
      if |parts| > 0 {
        assert |Concat(parts)| >= |parts[0]| > 0;
        assert |ToCamelCase(s, false)| >= |LowerAscii(parts[0])|;
      }
    }
  }

  /** The documented example, in Pascal case. */
  lemma PascalCaseExample()
    ensures ToPascalCase(Some("ThisTitle")) == Returns("ThisTitle")
  {
    CamelCaseJoinedExample();
    assert "thisTitle"[1..] == "hisTitle";
    assert ['T'] + "hisTitle" == "ThisTitle";
  }

  // ---------------------------------------------------------------------------
  // ASCII cleaning

  /** The characters `ToAscii` keeps as they are: `'!'..'~'`, space, CR, LF. */
  predicate IsAsciiFriendly(c: char) {
    ('!' <= c <= '~') || c == ' ' || c == '\r' || c == '\n'
  }

  predicate AsciiFriendlyText(s: string) {
    forall i :: 0 <= i < |s| ==> IsAsciiFriendly(s[i])
  }

  /** The replacement of one character: the source's substitution table, then
      the friendly characters themselves, and nothing for any other. */
  function AsciiFor(c: char): (r: string)
    ensures AsciiFriendlyText(r)
  {
    match c as int
    case 28 => " "
    case 29 => " "
    case 160 => " "
    case 161 => "!"
    case 162 => "c"
    case 163 => "#"
    case 164 => "*"
    case 165 => "Y"
    case 166 => "|"
    case 167 => "S"
    case 168 => "-"
    case 169 => "(c)"
    case 170 => "a"
    case 171 => "<<"
    case 172 => "-"
    case 173 => "-"
    case 174 => "(R)"
    case 175 => "-"
    case 176 => "*"
    case 177 => "+/-"
    case 178 => "sq"
    case 179 => "^3"
    case 180 => "'"
    case 181 => "u"
    case 182 => ""
    case 183 => "*"
    case 184 => ","
    case 185 => "^1"
    case 186 => "*"
    case 187 => ">>"
    case 188 => "1/4"
    case 189 => "1/2"
    case 190 => "3/4"
    case 191 => "?"
    case 231 => "c"
    case 233 => "e"
    case 8202 => "-"
    case 8208 => ""
    case 8210 => "-"
    case 8211 => "-"
    case 8212 => "-"
    case 8213 => "-"
    case 8216 => "'"
    case 8217 => "'"
    case 8220 => "\""
    case 8221 => "\""
    case 8226 => "*"
    case 8230 => "..."
    case 8275 => ""
    case 8482 => "(tm)"
    case _ => if IsAsciiFriendly(c) then [c] else ""
  }

  function AsciiText(s: string): (r: string)
    ensures AsciiFriendlyText(r)
    decreases |s|
  {
    if |s| == 0 then "" else AsciiFor(s[0]) + AsciiText(s[1..])
  }

  /** `ToAscii`: null stays null; every output character is in `'!'..'~'` or is
      a space, CR or LF. */
  function ToAscii(inputText: Option<string>): (r: Option<string>)
    ensures r.None? <==> inputText.None?
    ensures r.Some? ==> AsciiFriendlyText(r.value)
  {
    match inputText
    case None => None
    case Some(s) => Some(AsciiText(s))
  }

  /** Friendly text passes through unchanged. */
  lemma {:induction false} AsciiTextKeepsFriendly(s: string)
    requires AsciiFriendlyText(s)
    ensures AsciiText(s) == s
    decreases |s|
  {
    if |s| > 0 {
      AsciiTextKeepsFriendly(s[1..]);
      assert AsciiFor(s[0]) == [s[0]];
      assert [s[0]] + s[1..] == s;
    }
  }

  /** Cleaning twice is cleaning once. */
  lemma ToAsciiIdempotent(s: Option<string>)
    ensures ToAscii(ToAscii(s)) == ToAscii(s)
  {
    if s.Some? {
      AsciiTextKeepsFriendly(AsciiText(s.value));
    }
  }

  // ---------------------------------------------------------------------------
  // Wide characters and expiry

  /** No character at or above 256 (true of null). */
  predicate NoWideChar(s: Option<string>) {
    s.None? || forall i :: 0 <= i < |s.value| ==> s.value[i] as int < 256
  }

  /** `IsAscii`: scans for a character at or above 256 and stops at the first. */
  method IsAscii(inputText: Option<string>) returns (r: bool)
    ensures r <==> NoWideChar(inputText)
  {
    if inputText.None? {
      return true;
    }
    var s := inputText.value;
    var i := 0;
    while i < |s|
      invariant 0 <= i <= |s|
      invariant forall j :: 0 <= j < i ==> s[j] as int < 256
    {
      if s[i] as int >= 256 {
        return false;
      }
      i := i + 1;
    }
    return true;
  }

  /** `ToAscii` output never holds a wide character. */
  lemma ToAsciiNoWideChar(s: Option<string>)
    ensures NoWideChar(ToAscii(s))
  {
  }

  /** `IsExpired(specificDate, givenDate)`: the first instant is before the
      second. Instants are tick counts. */
  predicate IsExpired(specificDate: int, givenDate: int) {
    specificDate < givenDate
  }

  /** Of two distinct instants exactly one has expired relative to the other;
      no instant has expired relative to itself; expiry is transitive. */
  lemma ExpiryIsStrictOrder(a: int, b: int, c: int)
    ensures !IsExpired(a, a)
    ensures a != b ==> (IsExpired(a, b) <==> !IsExpired(b, a))
    ensures IsExpired(a, b) && IsExpired(b, c) ==> IsExpired(a, c)
  {
  }
}
