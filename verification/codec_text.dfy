/** What the two text codecs, `Safe64` and `Hex32`, share about their input:
    both skip whitespace and line breaks, and both read the characters that
    are neither skipped nor a pad `=`.
 */
module CodecText {
  import opened Text

  /** Characters both decoders skip in both passes. */
  predicate IsSkipped(c: char) {
    IsWhiteSpace(c) || c as int == 10 || c as int == 13
  }

  /** Characters that carry data: neither skipped nor a pad. */
  predicate IsSignificant(c: char) {
    !IsSkipped(c) && c != '='
  }

  /** No pad anywhere in `s`. */
  predicate NoPad(s: string) {
    forall i :: 0 <= i < |s| ==> s[i] != '='
  }

  /** The significant characters of `s`, in order: what a decoder reads. */
  function Significant(s: string): (r: string)
    ensures |r| <= |s|
    ensures forall i :: 0 <= i < |r| ==> IsSignificant(r[i])
    decreases |s|
  {
    if |s| == 0 then ""
    else if IsSignificant(s[0]) then [s[0]] + Significant(s[1..])
    else Significant(s[1..])
  }

  /** The characters of `s` that are not skipped, pads included. */
  function Unskipped(s: string): (r: string)
    ensures |Significant(s)| <= |r| <= |s|
    ensures forall i :: 0 <= i < |r| ==> !IsSkipped(r[i])
    decreases |s|
  {
    if |s| == 0 then ""
    else if IsSkipped(s[0]) then Unskipped(s[1..])
    else [s[0]] + Unskipped(s[1..])
  }

  /** Dropping the pads is all that separates the two filters: they agree
      exactly when there is no pad. */
  lemma {:induction false} UnskippedSignificant(s: string)
    ensures NoPad(s) ==> Unskipped(s) == Significant(s)
    ensures !NoPad(s) ==> |Significant(s)| < |Unskipped(s)|
    decreases |s|
  {
    if |s| > 0 {
      UnskippedSignificant(s[1..]);
      if NoPad(s) {
        assert NoPad(s[1..]) by {
          forall i | 0 <= i < |s[1..]| ensures s[1..][i] != '=' {
            assert s[1..][i] == s[i + 1];
          }
        }
      } else if s[0] != '=' {
        assert !NoPad(s[1..]) by {
          var i :| 0 <= i < |s| && s[i] == '=';
          assert s[1..][i - 1] == s[i];
        }
      }
    }
  }

  lemma {:induction false} SignificantEmpty(s: string)
    ensures |Significant(s)| == 0 <==> forall j :: 0 <= j < |s| ==> !IsSignificant(s[j])
    decreases |s|
  {
    if |s| > 0 {
      SignificantEmpty(s[1..]);
      assert forall j :: 1 <= j < |s| ==> s[j] == s[1..][j - 1];
    }
  }

  /** Inserting a character that is not significant leaves the significant
      characters as they were. */
  lemma {:induction false} SignificantInsert(p: string, q: string, c: char)
    requires !IsSignificant(c)
    ensures Significant(p + [c] + q) == Significant(p + q)
    decreases |p|
  {
    if |p| == 0 {
      assert (p + [c] + q)[1..] == q;
      assert p + q == q;
    } else {
      SignificantInsert(p[1..], q, c);
      assert (p + [c] + q)[1..] == p[1..] + [c] + q;
      assert (p + q)[1..] == p[1..] + q;
    }
  }

  /** Inserting a skipped character leaves the unskipped characters as they
      were. */
  lemma {:induction false} UnskippedInsert(p: string, q: string, c: char)
    requires IsSkipped(c)
    ensures Unskipped(p + [c] + q) == Unskipped(p + q)
    decreases |p|
  {
    if |p| == 0 {
      assert (p + [c] + q)[1..] == q;
      assert p + q == q;
    } else {
      UnskippedInsert(p[1..], q, c);
      assert (p + [c] + q)[1..] == p[1..] + [c] + q;
      assert (p + q)[1..] == p[1..] + q;
    }
  }
}
