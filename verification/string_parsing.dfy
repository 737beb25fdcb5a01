/** The conversions of `StringParsing` that are in this model: `ToBool`,
    `ToGuid` and `ToShortGuid`.
 */
module StringParsing {
  import opened Wrappers
  import opened Text
  import opened SystemGuid
  import opened ShortGuids

  /** `bool.TrueString` and `bool.FalseString`, which `bool.ToString()` writes. */
  function BoolText(b: bool): string {
    if b then "True" else "False"
  }

  /** `ToBool`: null for null or blank input; otherwise the untrimmed input is
      compared with `"0"` and, ignoring case, `"False"` for false, then with
      `"1"`, `"-1"` and, ignoring case, `"True"` for true; anything else is
      null. */
  function ToBool(input: Option<string>): (r: Option<bool>)
    ensures IsNullOrBlank(input) ==> r.None?
    ensures r == Some(false) <==> input.Some? && LowerAscii(input.value) in {"0", "false"}
    ensures r == Some(true) <==> input.Some? && LowerAscii(input.value) in {"1", "-1", "true"}
  {
    if input.None? then None
    else
      var s := input.value;
      var trimmed := Trim(s);
      LowerAsciiConstants();
      RecognisedText(s);
      if |trimmed| == 0 then None
      else if s == "0" || EqualsIgnoreCase(s, BoolText(false)) then Some(false)
      else if s == "1" || s == "-1" || EqualsIgnoreCase(s, BoolText(true)) then Some(true)
      else None
  }

  lemma LowerAsciiConstants()
    ensures LowerAscii("False") == "false" && LowerAscii("True") == "true"
    ensures LowerAscii("0") == "0" && LowerAscii("1") == "1" && LowerAscii("-1") == "-1"
  {
  }

  /** A text that lower-cases to one of the recognised values is not blank,
      and a digit value is recognised only as itself. */
  lemma RecognisedText(s: string)
    ensures LowerAscii(s) in {"0", "false", "1", "-1", "true"} ==> !IsBlank(s)
    ensures LowerAscii(s) == "0" <==> s == "0"
    ensures LowerAscii(s) == "1" <==> s == "1"
    ensures LowerAscii(s) == "-1" <==> s == "-1"
  {
    LowerOnlyOfItself(s, "0");
    LowerOnlyOfItself(s, "1");
    LowerOnlyOfItself(s, "-1");
    if LowerAscii(s) in {"0", "false", "1", "-1", "true"} {
      NotBlankAt(LowerAscii(s), 0);
      BlankOfLower(s);
    }
  }

  /** `"0"` reads as false and `"-1"` as true. */
  lemma ToBoolDigits()
    ensures ToBool(Some("0")) == Some(false)
    ensures ToBool(Some("-1")) == Some(true)
  {
    LowerAsciiConstants();
  }

  /** `ToBool` reads back `bool.ToString()`. */
  lemma ToBoolOfBoolText(b: bool)
    ensures ToBool(Some(BoolText(b))) == Some(b)
  {
    NotBlankAt(BoolText(b), 0);
    assert LowerAscii(BoolText(b)) == (if b then "true" else "false");
    if b {
      assert BoolText(b) != "0";
      assert LowerAscii(BoolText(b)) != LowerAscii("False");
    }
  }

  lemma LowerAsciiIdempotent(s: string)
    ensures LowerAscii(LowerAscii(s)) == LowerAscii(s)
  {
  }

  /** Lower-casing neither makes nor removes whitespace. */
  lemma BlankOfLower(s: string)
    ensures IsBlank(LowerAscii(s)) <==> IsBlank(s)
  {
    var l := LowerAscii(s);
    assert forall i :: 0 <= i < |s| ==> (IsWhiteSpace(l[i]) <==> IsWhiteSpace(s[i]));
  }

  /** A text without letters is the lower-casing of itself and of nothing
      else. */
  lemma LowerOnlyOfItself(s: string, t: string)
    requires forall i :: 0 <= i < |t| ==> !IsAsciiLower(t[i]) && !IsAsciiUpper(t[i])
    ensures LowerAscii(s) == t <==> s == t
  {
    if LowerAscii(s) == t {
      assert |s| == |t|;
      forall i | 0 <= i < |s| ensures s[i] == t[i] {
        assert ToLowerAscii(s[i]) == t[i];
      }
      assert s == t;
    }
    if s == t {
      assert LowerAscii(s) == t;
    }
  }

  /** Only the letters' case is ignored: lower-casing the input leaves the
      result as it was. */
  lemma ToBoolIgnoresCase(s: string)
    ensures ToBool(Some(LowerAscii(s))) == ToBool(Some(s))
  {
    LowerAsciiIdempotent(s);
    BlankOfLower(s);
    LowerOnlyOfItself(s, "0");
    LowerOnlyOfItself(s, "1");
    LowerOnlyOfItself(s, "-1");
  }

  /** The input is compared untrimmed: surrounding whitespace makes an
      otherwise recognised value unrecognised. */
  lemma ToBoolUntrimmed()
    ensures ToBool(Some(" 1 ")) == None
  {
    NotBlankAt(" 1 ", 1);
    assert |LowerAscii(" 1 ")| == 3;
  }

  lemma ToBoolOne()
    ensures ToBool(Some("1")) == Some(true)
  {
    NotBlankAt("1", 0);
    assert |LowerAscii("1")| == 1;
  }

  /** `ToBool` as its documentation describes it ("whitespace and case is
      ignored"): the trimmed input is compared, not the input. */
  function ToBoolTrimmed(input: Option<string>): (r: Option<bool>)
    ensures IsNullOrBlank(input) ==> r.None?
    ensures r == Some(false) <==> input.Some? && LowerAscii(Trim(input.value)) in {"0", "false"}
    ensures r == Some(true) <==> input.Some? && LowerAscii(Trim(input.value)) in {"1", "-1", "true"}
  {
    if input.None? then None else ToBool(Some(Trim(input.value)))
  }

  /** Surrounding whitespace does not change the corrected result, which
      agrees with `ToBool` on input without surrounding whitespace. */
  lemma ToBoolTrimmedIgnoresWhitespace(s: string)
    ensures ToBoolTrimmed(Some(s)) == ToBoolTrimmed(Some(Trim(s)))
    ensures Trim(s) == s ==> ToBoolTrimmed(Some(s)) == ToBool(Some(s))
    ensures ToBoolTrimmed(Some(" 1 ")) == Some(true)
  {
    TrimOfTrimmed(Trim(s));
    assert Trim(" 1 ") == "1" by {
      assert LeadingBlank(" 1 ") == 1 by {
        assert LeadingBlank(" 1 "[1..]) == 0;
      }
      assert TrimEnd(" 1 "[1..]) == "1" by {
        assert " 1 "[1..] == "1 " && "1 "[..1] == "1";
        assert TrimEnd("1") == "1";
      }
    }
    ToBoolOne();
  }

  /** `ToGuid`: the GUID of `ShortGuid.TryParse`, which reads both forms. */
  function ToGuid(input: Option<string>, sysParse: GuidParser): (r: Option<Guid>)
    ensures r.Some? <==> IsValid(input, sysParse)
    ensures r.Some? ==> TryParse(input, sysParse) == Some(ShortGuid(r.value))
  {
    match TryParse(input, sysParse)
    case Some(sg) => Some(sg.value)
    case None => None
  }

  /** `ToShortGuid`: `ShortGuid.TryParse`, which agrees with `ToGuid`. */
  function ToShortGuid(input: Option<string>, sysParse: GuidParser): (r: Option<ShortGuid>)
    ensures r.Some? <==> ToGuid(input, sysParse).Some?
    ensures r.Some? ==> r.value.value == ToGuid(input, sysParse).value
  {
    TryParse(input, sysParse)
  }

  /** `ToGuid` reads a GUID's `"D"` text whenever the framework parser does. */
  lemma ToGuidOfText(g: Guid, sysParse: GuidParser)
    requires sysParse(SystemGuid.Text(g)) == Some(g)
    ensures ToGuid(Some(SystemGuid.Text(g)), sysParse) == Some(g)
  {
    var t := SystemGuid.Text(g);
    NotBlankAt(t, 8);
  }

  /** `ToGuid` reads a GUID's `ShortGuid` text. */
  lemma ToGuidOfShortText(g: Guid, sysParse: GuidParser)
    requires RejectsShortText(sysParse)
    ensures ToGuid(Some(ShortGuids.ToString(ShortGuid(g))), sysParse) == Some(g)
  {
    TryParseToString(ShortGuid(g), sysParse);
  }
}
