/** The URI-safe Base64 codec of `Safe64`: encoding without padding over the
    alphabet A-Z a-z 0-9 `-` `_`, and a decoder that also accepts the standard
    alphabet's `+` and `/`, ignores whitespace and tolerates trailing `=`.

    Decoding runs in two passes, as in the source: a first pass counts the
    significant characters and rejects wide characters and anything after a
    pad; a second pass reads the significant characters four at a time.
 */
module Safe64 {
  import opened Wrappers
  import opened Text
  import opened CodecText

  // ---------------------------------------------------------------------------
  // Alphabet

  /** `s_base64`: the character for a 6-bit value. */
  function EncodeChar(v: byte): (c: char)
    requires v < 64
    ensures IsAlphabetChar(c)
  {
    if v < 26 then ('A' as int + v as int) as char
    else if v < 52 then ('a' as int + (v as int - 26)) as char
    else if v < 62 then ('0' as int + (v as int - 52)) as char
    else if v == 62 then '-'
    else '_'
  }

  /** The characters the encoder writes. */
  predicate IsAlphabetChar(c: char) {
    IsAsciiLetterOrDigit(c) || c == '-' || c == '_'
  }

  /** `s_base64dec`: the 6-bit value of a character, `None` for the table's
      -1. Standard Base64's `+` and `/` read as `-` and `_`. */
  function DecodeChar(c: char): (r: Option<byte>)
    ensures r.Some? ==> r.value < 64
    ensures r.Some? ==> c as int <= 255
  {
    if IsAsciiUpper(c) then Some((c as int - 'A' as int) as byte)
    else if IsAsciiLower(c) then Some((c as int - 'a' as int + 26) as byte)
    else if IsAsciiDigit(c) then Some((c as int - '0' as int + 52) as byte)
    else if c == '-' || c == '+' then Some(62)
    else if c == '_' || c == '/' then Some(63)
    else None
  }

  lemma DecodeEncodeUpper(v: byte)
    requires v < 26
    ensures DecodeChar(EncodeChar(v)) == Some(v)
  {
    var c := EncodeChar(v);
    assert c as int == 'A' as int + v as int;
    assert (c as int - 'A' as int) as byte == v;
  }

  lemma DecodeEncodeLower(v: byte)
    requires 26 <= v < 52
    ensures DecodeChar(EncodeChar(v)) == Some(v)
  {
    var c := EncodeChar(v);
    assert c as int == 'a' as int + v as int - 26;
    assert (c as int - 'a' as int + 26) as byte == v;
  }

  lemma DecodeEncodeDigit(v: byte)
    requires 52 <= v < 62
    ensures DecodeChar(EncodeChar(v)) == Some(v)
  {
    var c := EncodeChar(v);
    assert c as int == '0' as int + v as int - 52;
    assert (c as int - '0' as int + 52) as byte == v;
  }

  /** The decoding table inverts the encoding table. */
  lemma DecodeEncodeChar(v: byte)
    requires v < 64
    ensures DecodeChar(EncodeChar(v)) == Some(v)
  {
    if v < 26 {
      DecodeEncodeUpper(v);
    } else if v < 52 {
      DecodeEncodeLower(v);
    } else if v < 62 {
      DecodeEncodeDigit(v);
    }
  }

  // ---------------------------------------------------------------------------
  // Groups: three bytes to four characters and back

  /** The four 6-bit values of a 3-byte group. */
  function Sextets(b1: byte, b2: byte, b3: byte): (byte, byte, byte, byte) {
    ((b1 & 0xfc) >> 2,
     ((b1 & 0x03) << 4) | ((b2 & 0xf0) >> 4),
     ((b2 & 0x0f) << 2) | ((b3 & 0xc0) >> 6),
     b3 & 0x3f)
  }

  /** The three bytes a group of four 6-bit values decodes to. */
  function Octets(c1: byte, c2: byte, c3: byte, c4: byte): (byte, byte, byte) {
    ((c1 << 2) | ((c2 & 0x30) >> 4),
     ((c2 & 0x0f) << 4) | ((c3 & 0x3c) >> 2),
     ((c3 & 0x03) << 6) | c4)
  }

  lemma SextetsBound(b1: byte, b2: byte, b3: byte)
    ensures var s := Sextets(b1, b2, b3); s.0 < 64 && s.1 < 64 && s.2 < 64 && s.3 < 64
  {
  }

  /** A group's bytes come back from its 6-bit values; a short group's first
      bytes come back with the missing values read as zero. */
  lemma OctetsOfSextets(b1: byte, b2: byte, b3: byte)
    ensures var s := Sextets(b1, b2, b3); Octets(s.0, s.1, s.2, s.3) == (b1, b2, b3)
    ensures var s := Sextets(b1, 0, 0); Octets(s.0, s.1, 0, 0).0 == b1
    ensures var s := Sextets(b1, b2, 0); var o := Octets(s.0, s.1, s.2, 0); o.0 == b1 && o.1 == b2
  {
  }

  /** The four characters of a 3-byte group. */
  function EncodeGroup(b1: byte, b2: byte, b3: byte): (r: string)
    ensures |r| == 4
    ensures forall i :: 0 <= i < 4 ==> IsAlphabetChar(r[i])
  {
    SextetsBound(b1, b2, b3);
    var s := Sextets(b1, b2, b3);
    [EncodeChar(s.0), EncodeChar(s.1), EncodeChar(s.2), EncodeChar(s.3)]
  }

  // ---------------------------------------------------------------------------
  // Encoding

  /** The length of the encoding of `n` bytes: four characters per full group,
      and one more character than bytes for a final partial group. */
  function EncodedLength(n: nat): nat {
    4 * (n / 3) + (if n % 3 == 0 then 0 else n % 3 + 1)
  }

  /** `Safe64.Encode`. A null array encodes like an empty one. */
  function Encode(data: seq<byte>): (r: string)
    ensures |r| == EncodedLength(|data|)
    ensures forall i :: 0 <= i < |r| ==> IsAlphabetChar(r[i])
    decreases |data|
  {
    if |data| == 0 then ""
    else if |data| == 1 then EncodeGroup(data[0], 0, 0)[..2]
    else if |data| == 2 then EncodeGroup(data[0], data[1], 0)[..3]
    else EncodeGroup(data[0], data[1], data[2]) + Encode(data[3..])
  }

  // ---------------------------------------------------------------------------
  // Decoding

  /** The first pass: the number of significant characters, or `None` where it
      gives up on a character above U+00FF or a significant character after a
      pad (`trimPad` records that a pad has been seen). */
  function SignificantCount(s: string, trimPad: bool): Option<nat>
    decreases |s|
  {
    if |s| == 0 then Some(0)
    else if IsSkipped(s[0]) then SignificantCount(s[1..], trimPad)
    else if s[0] == '=' then SignificantCount(s[1..], true)
    else if s[0] as int > 255 || trimPad then None
    else
      match SignificantCount(s[1..], trimPad)
      case None => None
      case Some(n) => Some(n + 1)
  }

  /** The number of bytes `len` significant characters decode to. */
  function DecodedLength(len: nat): nat {
    3 * (len / 4) + (if len % 4 == 2 then 1 else if len % 4 == 3 then 2 else 0)
  }

  /** One group of the second pass, `1 <= |g| <= 4` characters: a missing
      second character counts as invalid and a missing third or fourth as zero;
      `n` characters yield `n - 1` bytes. */
  function DecodeGroup(g: string): (r: Option<seq<byte>>)
    requires 1 <= |g| <= 4
    ensures r.Some? ==> |r.value| == |g| - 1
  {
    var c1 := DecodeChar(g[0]);
    var c2 := if |g| > 1 then DecodeChar(g[1]) else None;
    var c3 := if |g| > 2 then DecodeChar(g[2]) else Some(0);
    var c4 := if |g| > 3 then DecodeChar(g[3]) else Some(0);
    if c1.None? || c2.None? || c3.None? || c4.None? then None
    else
      var o := Octets(c1.value, c2.value, c3.value, c4.value);
      Some([o.0, o.1, o.2][..|g| - 1])
  }

  /** The second pass over the significant characters, four at a time. */
  function DecodeGroups(cs: string): (r: Option<seq<byte>>)
    ensures r.Some? ==> |r.value| == DecodedLength(|cs|)
    decreases |cs|
  {
    if |cs| == 0 then Some([])
    else
      var n := if |cs| < 4 then |cs| else 4;
      match DecodeGroup(cs[..n])
      case None => None
      case Some(group) =>
        match DecodeGroups(cs[n..])
        case None => None
        case Some(rest) => Some(group + rest)
  }

  /** How malformed input ends: null when `nullOnError` is set, otherwise a
      `FormatException`. */
  function Invalid(nullOnError: bool): Outcome<Option<seq<byte>>> {
    if nullOnError then Returns(None) else Throws(FormatException)
  }

  /** `Safe64.Decode`. A null string decodes like an empty one. */
  function Decode(s: string, nullOnError: bool): (r: Outcome<Option<seq<byte>>>)
    ensures r.Returns? && r.value.Some? ==> |r.value.value| == DecodedLength(|Significant(s)|)
    ensures r.Returns? && r.value.None? ==> nullOnError
    ensures r.Throws? ==> !nullOnError && r.error == FormatException
  {
    if |s| == 0 then Returns(Some([]))
    else
      match SignificantCount(s, false)
      case None => Invalid(nullOnError)
      case Some(len) =>
        if len % 4 == 1 then Invalid(nullOnError)
        else
          match DecodeGroups(Significant(s))
          case None => Invalid(nullOnError)
          case Some(bytes) => Returns(Some(bytes))
  }

  // ---------------------------------------------------------------------------
  // Which inputs decode

  /** No significant character is above U+00FF. */
  predicate NarrowChars(s: string) {
    forall i :: 0 <= i < |s| && IsSignificant(s[i]) ==> s[i] as int <= 255
  }

  /** Every pad is trailing: no significant character follows an `=`. */
  predicate PadsTrail(s: string) {
    forall i, j :: 0 <= i < j < |s| && s[i] == '=' ==> !IsSignificant(s[j])
  }

  /** Every significant character is in the decoding table. */
  predicate InTable(s: string) {
    forall i :: 0 <= i < |s| && IsSignificant(s[i]) ==> DecodeChar(s[i]).Some?
  }

  /** The inputs `Decode` accepts: table characters only, pads only at the end,
      and no group of a single character. */
  predicate WellFormed(s: string) {
    InTable(s) && PadsTrail(s) && |Significant(s)| % 4 != 1
  }

  /** The first pass succeeds exactly on narrow inputs whose pads trail (and,
      once a pad has been seen, on inputs with nothing significant left), and
      then counts the characters the second pass reads. */
  lemma {:induction false} SignificantCountSpec(s: string, trimPad: bool)
    ensures SignificantCount(s, trimPad)
      == if NarrowChars(s) && PadsTrail(s) && !(trimPad && |Significant(s)| > 0)
         then Some(|Significant(s)|) else None
    decreases |s|
  {
    if |s| > 0 {
      var t := s[1..];
      assert forall j :: 1 <= j < |s| ==> s[j] == t[j - 1];
      assert NarrowChars(s) <==> (IsSignificant(s[0]) ==> s[0] as int <= 255) && NarrowChars(t) by {
        if NarrowChars(t) && (IsSignificant(s[0]) ==> s[0] as int <= 255) {
          forall i | 0 <= i < |s| && IsSignificant(s[i]) ensures s[i] as int <= 255 {
            if i > 0 { assert t[i - 1] == s[i]; }
          }
        }
      }
      assert PadsTrail(s) <==> (s[0] == '=' ==> |Significant(t)| == 0) && PadsTrail(t) by {
        SignificantEmpty(t);
        if PadsTrail(s) {
          forall i, j | 0 <= i < j < |t| && t[i] == '=' ensures !IsSignificant(t[j]) {
            assert s[i + 1] == t[i] && s[j + 1] == t[j];
          }
          if s[0] == '=' {
            forall j | 0 <= j < |t| ensures !IsSignificant(t[j]) {
              assert s[j + 1] == t[j];
            }
          }
        }
        if (s[0] == '=' ==> |Significant(t)| == 0) && PadsTrail(t) {
          forall i, j | 0 <= i < j < |s| && s[i] == '=' ensures !IsSignificant(s[j]) {
            if i == 0 {
              assert s[j] == t[j - 1];
            } else {
              assert s[i] == t[i - 1] && s[j] == t[j - 1];
            }
          }
        }
      }
      if IsSkipped(s[0]) {
        SignificantCountSpec(t, trimPad);
      } else if s[0] == '=' {
        SignificantCountSpec(t, true);
      } else {
        SignificantCountSpec(t, trimPad);
      }
    }
  }

  /** Every character of `cs` is in the decoding table. */
  predicate TableChars(cs: string) {
    forall i :: 0 <= i < |cs| ==> DecodeChar(cs[i]).Some?
  }

  lemma TableCharsAppend(g: string, t: string)
    ensures TableChars(g + t) <==> TableChars(g) && TableChars(t)
  {
    var cs := g + t;
    if TableChars(g) && TableChars(t) {
      forall i | 0 <= i < |cs| ensures DecodeChar(cs[i]).Some? {
        if i < |g| { assert cs[i] == g[i]; } else { assert cs[i] == t[i - |g|]; }
      }
    }
    if TableChars(cs) {
      forall i | 0 <= i < |g| ensures DecodeChar(g[i]).Some? {
        assert cs[i] == g[i];
      }
      forall i | 0 <= i < |t| ensures DecodeChar(t[i]).Some? {
        assert cs[i + |g|] == t[i];
      }
    }
  }

  lemma ModFourShift(a: nat)
    ensures (a + 4) % 4 == a % 4
  {
  }

  /** A group decodes exactly when it holds table characters only and more
      than one of them. */
  lemma DecodeGroupSpec(g: string)
    requires 1 <= |g| <= 4
    ensures DecodeGroup(g).Some? <==> TableChars(g) && |g| != 1
  {
  }

  /** The second pass succeeds exactly on table characters whose count does not
      leave a group of one. */
  lemma {:induction false} DecodeGroupsSpec(cs: string)
    ensures DecodeGroups(cs).Some? <==> TableChars(cs) && |cs| % 4 != 1
    decreases |cs|
  {
    if |cs| > 0 {
      var n := if |cs| < 4 then |cs| else 4;
      var g, t := cs[..n], cs[n..];
      DecodeGroupSpec(g);
      DecodeGroupsSpec(t);
      assert cs == g + t;
      TableCharsAppend(g, t);
      DecodeGroupsUnfold(cs, n);
      if |cs| < 4 {
        assert |t| == 0;
      } else {
        ModFourShift(|t|);
      }
    }
  }

  lemma {:induction false} InTableSignificant(s: string)
    ensures InTable(s) <==> TableChars(Significant(s))
    decreases |s|
  {
    if |s| > 0 {
      var t := s[1..];
      InTableSignificant(t);
      assert InTable(s) <==> (IsSignificant(s[0]) ==> DecodeChar(s[0]).Some?) && InTable(t) by {
        assert forall j :: 1 <= j < |s| ==> s[j] == t[j - 1];
        if InTable(t) && (IsSignificant(s[0]) ==> DecodeChar(s[0]).Some?) {
          forall i | 0 <= i < |s| && IsSignificant(s[i]) ensures DecodeChar(s[i]).Some? {
            if i > 0 { assert s[i] == t[i - 1]; }
          }
        }
        if InTable(s) {
          forall i | 0 <= i < |t| && IsSignificant(t[i]) ensures DecodeChar(t[i]).Some? {
            assert s[i + 1] == t[i];
          }
        }
      }
      if IsSignificant(s[0]) {
        assert Significant(s) == [s[0]] + Significant(t);
        TableCharsAppend([s[0]], Significant(t));
        assert TableChars([s[0]]) <==> DecodeChar(s[0]).Some? by {
          assert [s[0]][0] == s[0];
        }
      }
    }
  }

  /** Table characters are narrow. */
  lemma InTableNarrow(s: string)
    requires InTable(s)
    ensures NarrowChars(s)
  {
    forall i | 0 <= i < |s| && IsSignificant(s[i]) ensures s[i] as int <= 255 {
      assert DecodeChar(s[i]).Some?;
    }
  }

  /** `Decode` returns bytes exactly on well-formed input; on anything else it
      returns null when `nullOnError` is set and throws otherwise. */
  lemma DecodeSucceedsIff(s: string, nullOnError: bool)
    ensures Decode(s, nullOnError).Returns? && Decode(s, nullOnError).value.Some? <==> WellFormed(s)
    ensures !WellFormed(s) ==> Decode(s, nullOnError) == Invalid(nullOnError)
  {
    SignificantCountSpec(s, false);
    DecodeGroupsSpec(Significant(s));
    InTableSignificant(s);
    if InTable(s) {
      InTableNarrow(s);
    }
    if |s| == 0 {
      assert WellFormed(s);
    }
  }

  /** The lenient and the strict decoder agree: where one returns bytes the
      other returns the same bytes, and where the strict one throws the lenient
      one returns null. */
  lemma StrictLenientAgree(s: string)
    ensures Decode(s, true) == Decode(s, false) || (Decode(s, true) == Returns(None) && Decode(s, false) == Throws(FormatException))
  {
    DecodeSucceedsIff(s, true);
    DecodeSucceedsIff(s, false);
  }

  /** Five significant characters leave a group of one, which decodes to
      nothing: such input is rejected. */
  lemma LoneCharRejected(s: string, nullOnError: bool)
    requires |Significant(s)| % 4 == 1
    ensures Decode(s, nullOnError) == Invalid(nullOnError)
  {
    DecodeSucceedsIff(s, nullOnError);
  }

  /** A significant character after a pad is rejected. */
  lemma DataAfterPadRejected(p: string, q: string, c: char, nullOnError: bool)
    requires IsSignificant(c)
    ensures Decode(p + "=" + q + [c], nullOnError) == Invalid(nullOnError)
  {
    var s := p + "=" + q + [c];
    assert s[|p|] == '=' && s[|s| - 1] == c;
    DecodeSucceedsIff(s, nullOnError);
  }

  // ---------------------------------------------------------------------------
  // Round trip

  lemma {:induction false} SignificantOfAlphabet(s: string)
    requires forall i :: 0 <= i < |s| ==> IsAlphabetChar(s[i])
    ensures Significant(s) == s
    decreases |s|
  {
    if |s| > 0 {
      SignificantOfAlphabet(s[1..]);
      assert [s[0]] + s[1..] == s;
    }
  }

  /** The characters of a group read back as its 6-bit values. */
  lemma EncodeGroupChars(b1: byte, b2: byte, b3: byte)
    ensures var g := EncodeGroup(b1, b2, b3); var s := Sextets(b1, b2, b3);
            DecodeChar(g[0]) == Some(s.0) && DecodeChar(g[1]) == Some(s.1)
            && DecodeChar(g[2]) == Some(s.2) && DecodeChar(g[3]) == Some(s.3)
  {
    var s := Sextets(b1, b2, b3);
    SextetsBound(b1, b2, b3);
    DecodeEncodeChar(s.0);
    DecodeEncodeChar(s.1);
    DecodeEncodeChar(s.2);
    DecodeEncodeChar(s.3);
  }

  /** Four table characters decode to the three bytes of their values. */
  lemma DecodeFullGroup(g: string, v1: byte, v2: byte, v3: byte, v4: byte)
    requires |g| == 4
    requires DecodeChar(g[0]) == Some(v1) && DecodeChar(g[1]) == Some(v2)
    requires DecodeChar(g[2]) == Some(v3) && DecodeChar(g[3]) == Some(v4)
    ensures var o := Octets(v1, v2, v3, v4); DecodeGroup(g) == Some([o.0, o.1, o.2])
  {
    var o := Octets(v1, v2, v3, v4);
    assert [o.0, o.1, o.2][..3] == [o.0, o.1, o.2];
  }

  /** A full group decodes to the bytes it was encoded from. */
  lemma DecodeEncodeGroup(b1: byte, b2: byte, b3: byte)
    ensures DecodeGroup(EncodeGroup(b1, b2, b3)) == Some([b1, b2, b3])
  {
    var s := Sextets(b1, b2, b3);
    EncodeGroupChars(b1, b2, b3);
    DecodeFullGroup(EncodeGroup(b1, b2, b3), s.0, s.1, s.2, s.3);
    OctetsOfSextets(b1, b2, b3);
  }

  /** A final group of one byte, written as two characters, decodes to it. */
  lemma DecodeEncodeOne(b1: byte)
    ensures DecodeGroup(EncodeGroup(b1, 0, 0)[..2]) == Some([b1])
  {
    var g := EncodeGroup(b1, 0, 0)[..2];
    var s := Sextets(b1, 0, 0);
    SextetsBound(b1, 0, 0);
    OctetsOfSextets(b1, 0, 0);
    DecodeEncodeChar(s.0);
    DecodeEncodeChar(s.1);
    assert DecodeChar(g[0]) == Some(s.0);
    assert DecodeChar(g[1]) == Some(s.1);
    var o := Octets(s.0, s.1, 0, 0);
    assert [o.0, o.1, o.2][..1] == [b1];
  }

  /** A final group of two bytes, written as three characters, decodes to them. */
  lemma DecodeEncodeTwo(b1: byte, b2: byte)
    ensures DecodeGroup(EncodeGroup(b1, b2, 0)[..3]) == Some([b1, b2])
  {
    var g := EncodeGroup(b1, b2, 0)[..3];
    var s := Sextets(b1, b2, 0);
    SextetsBound(b1, b2, 0);
    OctetsOfSextets(b1, b2, 0);
    DecodeEncodeChar(s.0);
    DecodeEncodeChar(s.1);
    DecodeEncodeChar(s.2);
    assert DecodeChar(g[0]) == Some(s.0);
    assert DecodeChar(g[1]) == Some(s.1);
    assert DecodeChar(g[2]) == Some(s.2);
    var o := Octets(s.0, s.1, s.2, 0);
    assert [o.0, o.1, o.2][..2] == [b1, b2];
  }

  /** `DecodeGroups` on a single final group. */
  lemma DecodeGroupsLast(cs: string)
    requires 1 <= |cs| <= 4
    ensures DecodeGroups(cs) == DecodeGroup(cs)
  {
    assert cs[..|cs|] == cs;
    assert DecodeGroups(cs[|cs|..]) == Some([]);
    if DecodeGroup(cs).Some? {
      assert DecodeGroup(cs).value + [] == DecodeGroup(cs).value;
    }
  }

  lemma DecodeGroupsEncodeOne(b1: byte)
    ensures DecodeGroups(Encode([b1])) == Some([b1])
  {
    assert Encode([b1]) == EncodeGroup(b1, 0, 0)[..2];
    DecodeGroupsLast(Encode([b1]));
    DecodeEncodeOne(b1);
  }

  lemma DecodeGroupsEncodeTwo(b1: byte, b2: byte)
    ensures DecodeGroups(Encode([b1, b2])) == Some([b1, b2])
  {
    assert Encode([b1, b2]) == EncodeGroup(b1, b2, 0)[..3];
    DecodeGroupsLast(Encode([b1, b2]));
    DecodeEncodeTwo(b1, b2);
  }

  /** A full group in front of decodable text decodes in front of its bytes. */
  lemma DecodeGroupsCons(g: string, rest: string, group: seq<byte>, bytes: seq<byte>)
    requires |g| == 4 && DecodeGroup(g) == Some(group) && DecodeGroups(rest) == Some(bytes)
    ensures DecodeGroups(g + rest) == Some(group + bytes)
  {
    var cs := g + rest;
    assert cs[..4] == g && cs[4..] == rest;
  }

  /** The encoding of three or more bytes is a full group followed by the
      encoding of the rest. */
  lemma EncodeCons(data: seq<byte>)
    requires |data| >= 3
    ensures Encode(data) == EncodeGroup(data[0], data[1], data[2]) + Encode(data[3..])
  {
  }

  lemma SplitThree<T>(s: seq<T>)
    requires |s| >= 3
    ensures s == [s[0], s[1], s[2]] + s[3..]
  {
  }

  /** The step for a full group, given the round trip of the rest. */
  lemma DecodeGroupsEncodeStep(data: seq<byte>)
    requires |data| >= 3 && DecodeGroups(Encode(data[3..])) == Some(data[3..])
    ensures DecodeGroups(Encode(data)) == Some(data)
  {
    var g := EncodeGroup(data[0], data[1], data[2]);
    EncodeCons(data);
    DecodeEncodeGroup(data[0], data[1], data[2]);
    DecodeGroupsCons(g, Encode(data[3..]), [data[0], data[1], data[2]], data[3..]);
    SplitThree(data);
  }

  lemma {:induction false} DecodeGroupsEncode(data: seq<byte>)
    ensures DecodeGroups(Encode(data)) == Some(data)
    decreases |data|
  {
    if |data| == 1 {
      DecodeGroupsEncodeOne(data[0]);
      assert data == [data[0]];
    } else if |data| == 2 {
      DecodeGroupsEncodeTwo(data[0], data[1]);
      assert data == [data[0], data[1]];
    } else if |data| >= 3 {
      DecodeGroupsEncode(data[3..]);
      DecodeGroupsEncodeStep(data);
    }
  }

  lemma EncodedLengthNotLone(n: nat)
    ensures EncodedLength(n) % 4 != 1
  {
    assert 4 * (n / 3) % 4 == 0;
  }

  lemma {:induction false} SignificantCountOfAlphabet(s: string)
    requires forall i :: 0 <= i < |s| ==> IsAlphabetChar(s[i])
    ensures SignificantCount(s, false) == Some(|s|)
    decreases |s|
  {
    if |s| > 0 {
      SignificantCountOfAlphabet(s[1..]);
    }
  }

  /** Decoding reads back what encoding writes, in either mode. */
  lemma DecodeEncode(data: seq<byte>, nullOnError: bool)
    ensures Decode(Encode(data), nullOnError) == Returns(Some(data))
  {
    var s := Encode(data);
    if |s| > 0 {
      SignificantOfAlphabet(s);
      SignificantCountOfAlphabet(s);
      EncodedLengthNotLone(|data|);
    }
    DecodeGroupsEncode(data);
  }

  // ---------------------------------------------------------------------------
  // Tolerated variations

  /** `s` with the standard alphabet's `+` and `/` written as `-` and `_`. */
  function UrlSafe(s: string): (r: string)
    ensures |r| == |s|
    ensures forall i :: 0 <= i < |s| ==> r[i] == (if s[i] == '+' then '-' else if s[i] == '/' then '_' else s[i])
  {
    seq(|s|, i requires 0 <= i < |s| => if s[i] == '+' then '-' else if s[i] == '/' then '_' else s[i])
  }

  lemma DecodeGroupUrlSafe(g: string)
    requires 1 <= |g| <= 4
    ensures DecodeGroup(UrlSafe(g)) == DecodeGroup(g)
  {
    var u := UrlSafe(g);
    assert forall i :: 0 <= i < |g| ==> DecodeChar(u[i]) == DecodeChar(g[i]);
  }

  /** Both parts of a split commute with `UrlSafe`. */
  lemma UrlSafeSlices(cs: string, n: nat)
    requires n <= |cs|
    ensures UrlSafe(cs)[..n] == UrlSafe(cs[..n])
    ensures UrlSafe(cs)[n..] == UrlSafe(cs[n..])
  {
  }

  /** One step of the second pass: the first group, then the rest. */
  lemma DecodeGroupsUnfold(cs: string, n: nat)
    requires |cs| > 0 && n == (if |cs| < 4 then |cs| else 4)
    ensures DecodeGroups(cs) ==
      match DecodeGroup(cs[..n])
      case None => None
      case Some(group) =>
        match DecodeGroups(cs[n..])
        case None => None
        case Some(rest) => Some(group + rest)
  {
  }

  lemma {:induction false} DecodeGroupsUrlSafe(cs: string)
    ensures DecodeGroups(UrlSafe(cs)) == DecodeGroups(cs)
    decreases |cs|
  {
    if |cs| > 0 {
      var n := if |cs| < 4 then |cs| else 4;
      var u := UrlSafe(cs);
      DecodeGroupsUrlSafe(cs[n..]);
      DecodeGroupUrlSafe(cs[..n]);
      UrlSafeSlices(cs, n);
      DecodeGroupsUnfold(cs, n);
      DecodeGroupsUnfold(u, n);
    }
  }

  lemma {:induction false} SignificantUrlSafe(s: string)
    ensures Significant(UrlSafe(s)) == UrlSafe(Significant(s))
    decreases |s|
  {
    if |s| > 0 {
      SignificantUrlSafe(s[1..]);
      assert UrlSafe(s)[1..] == UrlSafe(s[1..]);
      if IsSignificant(s[0]) {
        assert UrlSafe([s[0]] + Significant(s[1..])) == [UrlSafe(s)[0]] + UrlSafe(Significant(s[1..]));
      }
    }
  }

  lemma {:induction false} SignificantCountUrlSafe(s: string, trimPad: bool)
    ensures SignificantCount(UrlSafe(s), trimPad) == SignificantCount(s, trimPad)
    decreases |s|
  {
    if |s| > 0 {
      SignificantCountUrlSafe(s[1..], trimPad);
      SignificantCountUrlSafe(s[1..], true);
      assert UrlSafe(s)[1..] == UrlSafe(s[1..]);
    }
  }

  /** Standard Base64 text decodes as its URI-safe spelling does. */
  lemma DecodeUrlSafe(s: string, nullOnError: bool)
    ensures Decode(UrlSafe(s), nullOnError) == Decode(s, nullOnError)
  {
    SignificantCountUrlSafe(s, false);
    SignificantUrlSafe(s);
    DecodeGroupsUrlSafe(Significant(s));
  }

  /** Whitespace and line breaks are ignored: inserting one anywhere leaves the
      result as it was. */
  lemma InsertSkipped(p: string, q: string, c: char, nullOnError: bool)
    requires IsSkipped(c)
    ensures Decode(p + [c] + q, nullOnError) == Decode(p + q, nullOnError)
  {
    SignificantInsert(p, q, c);
    SignificantCountInsert(p, q, c, false);
  }

  lemma {:induction false} SignificantCountInsert(p: string, q: string, c: char, trimPad: bool)
    requires IsSkipped(c)
    ensures SignificantCount(p + [c] + q, trimPad) == SignificantCount(p + q, trimPad)
    decreases |p|
  {
    if |p| == 0 {
      assert (p + [c] + q)[1..] == q;
      assert p + q == q;
    } else {
      SignificantCountInsert(p[1..], q, c, trimPad);
      SignificantCountInsert(p[1..], q, c, true);
      assert (p + [c] + q)[1..] == p[1..] + [c] + q;
      assert (p + q)[1..] == p[1..] + q;
    }
  }
}
