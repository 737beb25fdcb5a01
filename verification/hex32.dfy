/** The base-32 codec of `Hex32`, used to write a `ShortGuid`: encoding
    without padding over the alphabet 0-9 a-v, and a whitespace-tolerant
    decoder.

    Decoding runs in two passes. The first counts every character that is not
    whitespace, pads `=` included; the second reads the characters that are
    neither whitespace nor pads, eight at a time, and uses the first count to
    tell where the final group ends. A pad therefore leaves the second pass one
    character short, and padded text is never accepted (`PaddedRejected`).
 */
module Hex32 {
  import opened Wrappers
  import opened Text
  import opened CodecText

  // ---------------------------------------------------------------------------
  // Alphabet

  /** The characters the encoder writes. */
  predicate IsAlphabetChar(c: char) {
    IsAsciiDigit(c) || 'a' <= c <= 'v'
  }

  /** `s_base32`: the character for a 5-bit value. */
  function EncodeChar(v: byte): (c: char)
    requires v < 32
    ensures IsAlphabetChar(c)
  {
    if v < 10 then ('0' as int + v as int) as char
    else ('a' as int + (v as int - 10)) as char
  }

  /** `s_base32dec`: the 5-bit value of a character, `None` for the table's -1.
      The table is case-sensitive: upper-case letters are not in it. */
  function DecodeChar(c: char): (r: Option<byte>)
    ensures r.Some? <==> IsAlphabetChar(c)
    ensures r.Some? ==> r.value < 32
  {
    if IsAsciiDigit(c) then Some((c as int - '0' as int) as byte)
    else if 'a' <= c <= 'v' then Some((c as int - 'a' as int + 10) as byte)
    else None
  }

  /** The decoding table inverts the encoding table. */
  lemma DecodeEncodeChar(v: byte)
    requires v < 32
    ensures DecodeChar(EncodeChar(v)) == Some(v)
  {
  }

  // ---------------------------------------------------------------------------
  // Blocks: five bytes to eight characters and back

  /** The eight 5-bit values of a 5-byte block. */
  function Quintets(b: seq<byte>): (q: seq<byte>)
    requires |b| == 5
    ensures |q| == 8
  {
    [(b[0] & 0xf8) >> 3,
     ((b[0] & 0x07) << 2) | ((b[1] & 0xc0) >> 6),
     (b[1] & 0x3e) >> 1,
     ((b[1] & 0x01) << 4) | ((b[2] & 0xf0) >> 4),
     ((b[2] & 0x0f) << 1) | ((b[3] & 0x80) >> 7),
     (b[3] & 0x7c) >> 2,
     ((b[3] & 0x03) << 3) | ((b[4] & 0xe0) >> 5),
     b[4] & 0x1f]
  }

  /** The five bytes a block of eight 5-bit values decodes to. */
  function Octets(c: seq<byte>): (b: seq<byte>)
    requires |c| == 8
    ensures |b| == 5
  {
    [(c[0] << 3) | ((c[1] & 0x1c) >> 2),
     ((c[1] & 0x03) << 6) | (c[2] << 1) | ((c[3] & 0x10) >> 4),
     ((c[3] & 0x0f) << 4) | ((c[4] & 0x1e) >> 1),
     ((c[4] & 0x01) << 7) | (c[5] << 2) | ((c[6] & 0x18) >> 3),
     ((c[6] & 0x07) << 5) | c[7]]
  }

  lemma QuintetsBound(b: seq<byte>)
    requires |b| == 5
    ensures forall i :: 0 <= i < 8 ==> Quintets(b)[i] < 32
  {
  }

  /** A block's bytes come back from its 5-bit values. */
  lemma OctetsOfQuintets(b: seq<byte>)
    requires |b| == 5
    ensures Octets(Quintets(b)) == b
  {
    var q := Quintets(b);
    var o := Octets(q);
    assert o[0] == b[0] && o[1] == b[1] && o[2] == b[2] && o[3] == b[3] && o[4] == b[4];
  }

  /** The eight characters of a 5-byte block. */
  function EncodeBlock(b: seq<byte>): (r: string)
    requires |b| == 5
    ensures |r| == 8
    ensures forall i :: 0 <= i < 8 ==> IsAlphabetChar(r[i])
  {
    QuintetsBound(b);
    var q := Quintets(b);
    seq(8, i requires 0 <= i < 8 => EncodeChar(q[i]))
  }

  // ---------------------------------------------------------------------------
  // Encoding

  /** The characters written for a final block of `n` bytes, `1 <= n <= 4`:
      just enough to hold `8 * n` bits. */
  function PartialChars(n: nat): nat
    requires 1 <= n <= 4
  {
    if n == 1 then 2 else if n == 2 then 4 else if n == 3 then 5 else 7
  }

  /** The length of the encoding of `n` bytes. */
  function EncodedLength(n: nat): nat {
    8 * (n / 5) + (if n % 5 == 0 then 0 else PartialChars(n % 5))
  }

  /** `data` followed by zero bytes up to a full block. */
  function PadBlock(data: seq<byte>): (b: seq<byte>)
    requires |data| <= 5
    ensures |b| == 5 && b[..|data|] == data
  {
    data + seq(5 - |data|, _ => 0)
  }

  /** `Hex32.Encode`. A null array encodes like an empty one. */
  function Encode(data: seq<byte>): (r: string)
    ensures |r| == EncodedLength(|data|)
    ensures forall i :: 0 <= i < |r| ==> IsAlphabetChar(r[i])
    decreases |data|
  {
    if |data| == 0 then ""
    else if |data| < 5 then EncodeBlock(PadBlock(data))[..PartialChars(|data|)]
    else EncodeBlock(data[..5]) + Encode(data[5..])
  }

  // ---------------------------------------------------------------------------
  // Decoding

  /** The first pass: the number of characters that are not skipped, pads
      included, or `None` on one above U+00FF. */
  function FirstPass(s: string): Option<nat>
    decreases |s|
  {
    if |s| == 0 then Some(0)
    else if IsSkipped(s[0]) then FirstPass(s[1..])
    else if s[0] as int > 255 then None
    else
      match FirstPass(s[1..])
      case None => None
      case Some(n) => Some(n + 1)
  }

  /** The number of bytes `len` counted characters decode to, as the source
      sizes its result. */
  function DecodedLength(len: nat): nat {
    var r := len % 8;
    5 * (len / 8)
      + (if r == 1 || r == 2 then 1
         else if r == 3 || r == 4 then 2
         else if r == 5 then 3
         else if r == 6 || r == 7 then 4
         else 0)
  }

  /** The value of the `k`-th character read, -1 (`None`) if it was not read
      or is not in the table. */
  function ReadAt(read: string, k: nat): Option<byte> {
    if k < |read| then DecodeChar(read[k]) else None
  }

  /** One round of the second pass. `read` holds the characters it read (at
      most eight) and `rem` the count the first pass leaves for this round.
      When `rem` is below eight the round is the last, and the characters past
      `rem` are set: to zero where they only complete a byte, to -1 where a
      byte needs one more character (the third and sixth), and every zeroed
      marker character drops one byte. */
  function DecodeBlock(read: string, rem: nat): (r: Option<seq<byte>>)
    requires |read| <= 8 && rem >= 1
    ensures r.Some? ==> |r.value| == DecodedLength(if rem < 8 then rem else 8)
  {
    var c1 := ReadAt(read, 0);
    var c2 := if rem <= 1 then None else ReadAt(read, 1);
    var c3 := if rem <= 2 then Some(0) else ReadAt(read, 2);
    var b2On := !(rem <= 2);
    var c4 := if rem <= 3 then (if b2On then None else Some(0)) else ReadAt(read, 3);
    var c5 := if rem <= 4 then Some(0) else ReadAt(read, 4);
    var c6 := if rem <= 5 then Some(0) else ReadAt(read, 5);
    var b4On := !(rem <= 5);
    var c7 := if rem <= 6 then (if b4On then None else Some(0)) else ReadAt(read, 6);
    var c8 := if rem <= 7 then Some(0) else ReadAt(read, 7);
    var byteCount := 5 - (if rem <= 2 then 1 else 0) - (if rem <= 4 then 1 else 0)
                       - (if rem <= 5 then 1 else 0) - (if rem <= 7 then 1 else 0);
    if byteCount < 1 || c1.None? || c2.None? || c3.None? || c4.None?
       || c5.None? || c6.None? || c7.None? || c8.None? then None
    else
      var b := Octets([c1.value, c2.value, c3.value, c4.value, c5.value, c6.value, c7.value, c8.value]);
      Some(b[..byteCount])
  }

  /** The second pass: rounds of up to eight significant characters until the
      first pass's count `rem` is used up. */
  function DecodeBlocks(cs: string, rem: nat): (r: Option<seq<byte>>)
    ensures r.Some? ==> |r.value| == DecodedLength(rem)
    decreases rem
  {
    if rem == 0 then Some([])
    else
      var m := if |cs| < 8 then |cs| else 8;
      match DecodeBlock(cs[..m], rem)
      case None => None
      case Some(block) =>
        match DecodeBlocks(cs[m..], if rem < 8 then 0 else rem - 8)
        case None => None
        case Some(rest) =>
          DecodedLengthStep(rem);
          Some(block + rest)
  }

  /** Each full round of eight characters adds five bytes. */
  lemma DecodedLengthStep(rem: nat)
    ensures rem >= 8 ==> DecodedLength(rem) == 5 + DecodedLength(rem - 8)
    ensures DecodedLength(0) == 0
  {
    if rem >= 8 {
      var k := rem - 8;
      assert rem / 8 == k / 8 + 1 && rem % 8 == k % 8;
    }
  }

  /** How malformed input ends: null when `nullOnError` is set, otherwise a
      `FormatException`. */
  function Invalid(nullOnError: bool): Outcome<Option<seq<byte>>> {
    if nullOnError then Returns(None) else Throws(FormatException)
  }

  /** `Hex32.Decode`. A null string decodes like an empty one. */
  function Decode(s: string, nullOnError: bool): (r: Outcome<Option<seq<byte>>>)
    ensures r.Returns? && r.value.Some? ==> |r.value.value| == DecodedLength(|Significant(s)|)
    ensures r.Returns? && r.value.None? ==> nullOnError
    ensures r.Throws? ==> !nullOnError && r.error == FormatException
  {
    if |s| == 0 then Returns(Some([]))
    else
      match FirstPass(s)
      case None => Invalid(nullOnError)
      case Some(len) =>
        match DecodeBlocks(Significant(s), len)
        case None => Invalid(nullOnError)
        case Some(bytes) =>
          FirstPassSpec(s);
          DecodeBlocksSpec(Significant(s), len);
          Returns(Some(bytes))
  }

  // ---------------------------------------------------------------------------
  // Which inputs decode

  /** Every character of `cs` is in the decoding table. */
  predicate TableChars(cs: string) {
    forall i :: 0 <= i < |cs| ==> DecodeChar(cs[i]).Some?
  }

  /** No character of `s` is above U+00FF. */
  predicate NarrowChars(s: string) {
    forall i :: 0 <= i < |s| ==> s[i] as int <= 255
  }

  /** A count of characters that leaves no final group of one, three or six:
      groups that end inside a byte. */
  predicate ValidLength(n: nat) {
    n % 8 != 1 && n % 8 != 3 && n % 8 != 6
  }

  /** The inputs `Decode` accepts: no pad, table characters only, and a length
      that does not end inside a byte. */
  predicate WellFormed(s: string) {
    NoPad(s) && TableChars(Significant(s)) && ValidLength(|Significant(s)|)
  }

  lemma TableCharsAppend(g: string, t: string)
    ensures TableChars(g + t) <==> TableChars(g) && TableChars(t)
  {
    var cs := g + t;
    if TableChars(g) && TableChars(t) {
      forall i | 0 <= i < |cs| ensures DecodeChar(cs[i]).Some? {
        if i < |g| { assert cs[i] == g[i]; } else { assert cs[i] == t[i - |g|]; }
      }
    }
    if TableChars(cs) {
      forall i | 0 <= i < |g| ensures DecodeChar(g[i]).Some? {
        assert cs[i] == g[i];
      }
      forall i | 0 <= i < |t| ensures DecodeChar(t[i]).Some? {
        assert cs[i + |g|] == t[i];
      }
    }
  }

  /** The first pass counts the unskipped characters, failing exactly when one
      of them is above U+00FF. */
  lemma {:induction false} FirstPassSpec(s: string)
    ensures FirstPass(s) == if NarrowChars(Unskipped(s)) then Some(|Unskipped(s)|) else None
    decreases |s|
  {
    if |s| > 0 {
      var t := s[1..];
      FirstPassSpec(t);
      if !IsSkipped(s[0]) {
        var u := Unskipped(t);
        assert Unskipped(s) == [s[0]] + u;
        assert NarrowChars([s[0]] + u) <==> s[0] as int <= 255 && NarrowChars(u) by {
          var w := [s[0]] + u;
          assert w[0] == s[0];
          assert forall i :: 0 <= i < |u| ==> w[i + 1] == u[i];
          if s[0] as int <= 255 && NarrowChars(u) {
            forall i | 0 <= i < |w| ensures w[i] as int <= 255 {
              if i > 0 { assert w[i] == u[i - 1]; }
            }
          }
        }
      }
    }
  }

  lemma ModEightShift(a: nat)
    ensures (a + 8) % 8 == a % 8
  {
  }

  /** One round succeeds exactly when it read as many characters as the count
      leaves for it (eight for a full round), all in the table, and the round
      does not end inside a byte. */
  /** `ReadAt` finds a value exactly where a table character is. */
  lemma ReadAtSpec(read: string)
    ensures forall k: nat :: k < |read| ==> (ReadAt(read, k).Some? <==> DecodeChar(read[k]).Some?)
    ensures forall k: nat :: k >= |read| ==> ReadAt(read, k).None?
  {
  }

  lemma DecodeBlockSpecFull(read: string, rem: nat)
    requires |read| <= 8 && rem >= 8
    ensures DecodeBlock(read, rem).Some? <==> |read| == 8 && TableChars(read)
  {
    ReadAtSpec(read);
  }

  lemma DecodeBlockSpec1(read: string)
    requires |read| <= 1
    ensures DecodeBlock(read, 1).Some? <==> |read| == 1 && TableChars(read) && ValidLength(1)
  {
    assert !ValidLength(1);
  }

  lemma DecodeBlockSpec2(read: string)
    requires |read| <= 2
    ensures DecodeBlock(read, 2).Some? <==> |read| == 2 && TableChars(read) && ValidLength(2)
  {
    ReadAtSpec(read);
  }

  lemma DecodeBlockSpec3(read: string)
    requires |read| <= 3
    ensures DecodeBlock(read, 3).Some? <==> |read| == 3 && TableChars(read) && ValidLength(3)
  {
    assert !ValidLength(3);
  }

  lemma DecodeBlockSpec4(read: string)
    requires |read| <= 4
    ensures DecodeBlock(read, 4).Some? <==> |read| == 4 && TableChars(read) && ValidLength(4)
  {
    ReadAtSpec(read);
  }

  lemma DecodeBlockSpec5(read: string)
    requires |read| <= 5
    ensures DecodeBlock(read, 5).Some? <==> |read| == 5 && TableChars(read) && ValidLength(5)
  {
    ReadAtSpec(read);
  }

  lemma DecodeBlockSpec6(read: string)
    requires |read| <= 6
    ensures DecodeBlock(read, 6).Some? <==> |read| == 6 && TableChars(read) && ValidLength(6)
  {
    assert !ValidLength(6);
  }

  lemma DecodeBlockSpec7(read: string)
    requires |read| <= 7
    ensures DecodeBlock(read, 7).Some? <==> |read| == 7 && TableChars(read) && ValidLength(7)
  {
    ReadAtSpec(read);
  }

  /** A round succeeds exactly when it has all the characters it reads, all
      in the table, and a final round's count does not end inside a byte. */
  lemma DecodeBlockSpec(read: string, rem: nat)
    requires |read| <= 8 && rem >= 1 && |read| <= rem
    ensures DecodeBlock(read, rem).Some?
      <==> |read| == (if rem < 8 then rem else 8) && TableChars(read)
           && (rem < 8 ==> ValidLength(rem))
  {
    if rem >= 8 {
      DecodeBlockSpecFull(read, rem);
    } else if rem == 7 {
      DecodeBlockSpec7(read);
    } else if rem == 6 {
      DecodeBlockSpec6(read);
    } else if rem == 5 {
      DecodeBlockSpec5(read);
    } else if rem == 4 {
      DecodeBlockSpec4(read);
    } else if rem == 3 {
      DecodeBlockSpec3(read);
    } else if rem == 2 {
      DecodeBlockSpec2(read);
    } else {
      DecodeBlockSpec1(read);
    }
  }

  /** One round of the second pass, then the rest. */
  lemma DecodeBlocksUnfold(cs: string, rem: nat, m: nat)
    requires rem > 0 && m == (if |cs| < 8 then |cs| else 8)
    ensures DecodeBlocks(cs, rem) ==
      match DecodeBlock(cs[..m], rem)
      case None => None
      case Some(block) =>
        match DecodeBlocks(cs[m..], if rem < 8 then 0 else rem - 8)
        case None => None
        case Some(rest) => Some(block + rest)
  {
  }

  /** The second pass succeeds exactly when it finds as many significant
      characters as the first pass counted, all in the table, in a count that
      does not end inside a byte. */
  lemma {:induction false} DecodeBlocksSpec(cs: string, rem: nat)
    requires |cs| <= rem
    ensures DecodeBlocks(cs, rem).Some? <==> |cs| == rem && TableChars(cs) && ValidLength(rem)
    decreases rem
  {
    if rem > 0 {
      var m := if |cs| < 8 then |cs| else 8;
      var g, t := cs[..m], cs[m..];
      assert cs == g + t;
      TableCharsAppend(g, t);
      DecodeBlockSpec(g, rem);
      DecodeBlocksUnfold(cs, rem, m);
      if rem < 8 {
        assert |t| == 0;
      } else {
        DecodeBlocksSpec(t, rem - 8);
        ModEightShift(rem - 8);
      }
    }
  }

  /** `Decode` returns bytes exactly on well-formed input; on anything else it
      returns null when `nullOnError` is set and throws otherwise. */
  lemma DecodeSucceedsIff(s: string, nullOnError: bool)
    ensures Decode(s, nullOnError).Returns? && Decode(s, nullOnError).value.Some? <==> WellFormed(s)
    ensures !WellFormed(s) ==> Decode(s, nullOnError) == Invalid(nullOnError)
  {
    var sig := Significant(s);
    FirstPassSpec(s);
    UnskippedSignificant(s);
    DecodeBlocksSpec(sig, |Unskipped(s)|);
    if WellFormed(s) {
      assert NarrowChars(Unskipped(s)) by {
        forall i | 0 <= i < |sig| ensures sig[i] as int <= 255 {
          assert DecodeChar(sig[i]).Some?;
        }
      }
    }
    if |s| == 0 {
      assert WellFormed(s);
    }
  }

  /** The lenient and the strict decoder agree, the lenient one returning null
      where the strict one throws. */
  lemma StrictLenientAgree(s: string)
    ensures Decode(s, true) == Decode(s, false) || (Decode(s, true) == Returns(None) && Decode(s, false) == Throws(FormatException))
  {
    DecodeSucceedsIff(s, true);
    DecodeSucceedsIff(s, false);
  }

  /** Padded text is rejected: the first pass counts the pad and the second
      pass, which skips it, runs one character short. */
  lemma PaddedRejected(p: string, q: string, nullOnError: bool)
    ensures Decode(p + "=" + q, nullOnError) == Invalid(nullOnError)
  {
    var s := p + "=" + q;
    assert s[|p|] == '=';
    DecodeSucceedsIff(s, nullOnError);
  }

  /** Upper-case letters are not in the alphabet, so text is rejected if it
      holds one. */
  lemma UpperCaseRejected(p: string, q: string, c: char, nullOnError: bool)
    requires IsAsciiUpper(c)
    ensures Decode(p + [c] + q, nullOnError) == Invalid(nullOnError)
  {
    var s := p + [c] + q;
    SignificantSplit(p, c, q);
    var sp := Significant(p);
    assert Significant(s)[|sp|] == c;
    DecodeSucceedsIff(s, nullOnError);
  }

  lemma {:induction false} SignificantSplit(p: string, c: char, q: string)
    requires IsSignificant(c)
    ensures Significant(p + [c] + q) == Significant(p) + [c] + Significant(q)
    decreases |p|
  {
    var s := p + [c] + q;
    if |p| == 0 {
      assert s[1..] == q;
    } else {
      SignificantSplit(p[1..], c, q);
      assert s[1..] == p[1..] + [c] + q;
    }
  }

  /** Whitespace and line breaks are ignored: inserting one anywhere leaves the
      result as it was. */
  lemma InsertSkipped(p: string, q: string, c: char, nullOnError: bool)
    requires IsSkipped(c)
    ensures Decode(p + [c] + q, nullOnError) == Decode(p + q, nullOnError)
  {
    SignificantInsert(p, q, c);
    UnskippedInsert(p, q, c);
    FirstPassSpec(p + [c] + q);
    FirstPassSpec(p + q);
  }

  // ---------------------------------------------------------------------------
  // Round trip

  /** A round that reads the 5-bit values `c`, with zero values past the
      characters a final round reads, yields the leading bytes of `c`'s block. */
  lemma DecodeBlockOf(read: string, rem: nat, c: seq<byte>)
    requires |c| == 8 && |read| <= 8 && rem >= 1
    requires rem < 8 ==> rem == 2 || rem == 4 || rem == 5 || rem == 7
    requires |read| == (if rem < 8 then rem else 8)
    requires forall j :: 0 <= j < |read| ==> ReadAt(read, j) == Some(c[j])
    requires forall j :: |read| <= j < 8 ==> c[j] == 0
    ensures DecodeBlock(read, rem) == Some(Octets(c)[..DecodedLength(if rem < 8 then rem else 8)])
  {
    assert [c[0], c[1], c[2], c[3], c[4], c[5], c[6], c[7]] == c;
  }

  /** A full block decodes to the bytes it was encoded from. */
  lemma DecodeEncodeFull(b: seq<byte>, rem: nat)
    requires |b| == 5 && rem >= 8
    ensures DecodeBlock(EncodeBlock(b), rem) == Some(b)
  {
    var g := EncodeBlock(b);
    var q := Quintets(b);
    QuintetsBound(b);
    OctetsOfQuintets(b);
    forall k | 0 <= k < 8 ensures ReadAt(g, k) == Some(q[k]) {
      DecodeEncodeChar(q[k]);
    }
    DecodeBlockOf(g, rem, q);
    assert Octets(q)[..5] == b;
  }

  /** The encoding of zero bytes past a final block's data is zero 5-bit
      values past its written characters. */
  lemma QuintetsZeroTail(data: seq<byte>)
    requires 1 <= |data| <= 4
    ensures forall k :: PartialChars(|data|) <= k < 8 ==> Quintets(PadBlock(data))[k] == 0
  {
    var b := PadBlock(data);
    assert forall k :: |data| <= k < 5 ==> b[k] == 0;
  }

  /** The characters of a final block read back as its 5-bit values. */
  lemma ReadPartial(data: seq<byte>)
    requires 1 <= |data| <= 4
    ensures |Encode(data)| == PartialChars(|data|)
    ensures forall j :: 0 <= j < |Encode(data)| ==> ReadAt(Encode(data), j) == Some(Quintets(PadBlock(data))[j])
  {
    var b := PadBlock(data);
    var g := Encode(data);
    assert g == EncodeBlock(b)[..PartialChars(|data|)];
    var q := Quintets(b);
    QuintetsBound(b);
    forall j | 0 <= j < |g| ensures ReadAt(g, j) == Some(q[j]) {
      DecodeEncodeChar(q[j]);
    }
  }

  /** A final block's characters decode to as many bytes as it was
      written from. */
  lemma DecodedPartialLength(n: nat)
    requires 1 <= n <= 4
    ensures DecodedLength(PartialChars(n)) == n
  {
    if n == 1 {
      assert DecodedLength(2) == 1;
    } else if n == 2 {
      assert DecodedLength(4) == 2;
    } else if n == 3 {
      assert DecodedLength(5) == 3;
    } else {
      assert DecodedLength(7) == 4;
    }
  }

  /** A final block of one to four bytes decodes to them. */
  lemma DecodeEncodePartial(data: seq<byte>)
    requires 1 <= |data| <= 4
    ensures DecodeBlock(Encode(data), PartialChars(|data|)) == Some(data)
  {
    var b := PadBlock(data);
    var q := Quintets(b);
    var rem := PartialChars(|data|);
    DecodedPartialLength(|data|);
    ReadPartial(data);
    QuintetsZeroTail(data);
    OctetsOfQuintets(b);
    DecodeBlockOf(Encode(data), rem, q);
    assert Octets(q)[..|data|] == data;
  }

  /** A final block alone decodes to its bytes. */
  lemma DecodeBlocksEncodeLast(data: seq<byte>)
    requires 1 <= |data| < 5
    ensures DecodeBlocks(Encode(data), |Encode(data)|) == Some(data)
  {
    var cs := Encode(data);
    DecodeEncodePartial(data);
    DecodeBlocksUnfold(cs, |cs|, |cs|);
    assert cs[..|cs|] == cs && cs[|cs|..] == [];
    assert data + [] == data;
  }

  /** A full block in front of decodable text decodes in front of its bytes. */
  lemma DecodeBlocksCons(g: string, rest: string, rem: nat, block: seq<byte>, bytes: seq<byte>)
    requires |g| == 8 && rem >= 8
    requires DecodeBlock(g, rem) == Some(block) && DecodeBlocks(rest, rem - 8) == Some(bytes)
    ensures DecodeBlocks(g + rest, rem) == Some(block + bytes)
  {
    var cs := g + rest;
    assert cs[..8] == g && cs[8..] == rest;
    DecodeBlocksUnfold(cs, rem, 8);
  }

  /** The step for a full block, given the round trip of the rest. */
  lemma DecodeBlocksEncodeStep(data: seq<byte>)
    requires |data| >= 5
    requires DecodeBlocks(Encode(data[5..]), |Encode(data[5..])|) == Some(data[5..])
    ensures DecodeBlocks(Encode(data), |Encode(data)|) == Some(data)
  {
    var g := EncodeBlock(data[..5]);
    var rest := Encode(data[5..]);
    EncodeCons(data);
    DecodeEncodeFull(data[..5], |g + rest|);
    DecodeBlocksCons(g, rest, |g + rest|, data[..5], data[5..]);
    SplitFive(data);
  }

  lemma EncodeCons(data: seq<byte>)
    requires |data| >= 5
    ensures Encode(data) == EncodeBlock(data[..5]) + Encode(data[5..])
  {
  }

  lemma SplitFive<T>(s: seq<T>)
    requires |s| >= 5
    ensures s == s[..5] + s[5..]
  {
  }

  lemma {:induction false} DecodeBlocksEncode(data: seq<byte>)
    ensures DecodeBlocks(Encode(data), |Encode(data)|) == Some(data)
    decreases |data|
  {
    if 1 <= |data| < 5 {
      DecodeBlocksEncodeLast(data);
    } else if |data| >= 5 {
      DecodeBlocksEncode(data[5..]);
      DecodeBlocksEncodeStep(data);
    }
  }

  lemma {:induction false} SignificantOfAlphabet(s: string)
    requires forall i :: 0 <= i < |s| ==> IsAlphabetChar(s[i])
    ensures Significant(s) == s && Unskipped(s) == s
    decreases |s|
  {
    if |s| > 0 {
      SignificantOfAlphabet(s[1..]);
      assert [s[0]] + s[1..] == s;
    }
  }

  /** Decoding reads back what encoding writes, in either mode. */
  lemma DecodeEncode(data: seq<byte>, nullOnError: bool)
    ensures Decode(Encode(data), nullOnError) == Returns(Some(data))
  {
    var s := Encode(data);
    if |s| > 0 {
      SignificantOfAlphabet(s);
      FirstPassSpec(s);
      assert NarrowChars(s);
    }
    DecodeBlocksEncode(data);
  }
}
