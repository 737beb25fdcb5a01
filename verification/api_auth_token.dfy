/** `ApiAuthToken`: the opaque API token and the claim that carries its id.

    On the wire a token is the `Safe64` text of a 16-byte random salt followed
    by the ciphertext of the token id's 16 bytes and 16 zero bytes. The
    authenticated cipher (`SuiteB.Encrypt`/`Decrypt`) and the random salt are
    outside the model: the cipher is a parameter and the salt an argument.
 */
module ApiAuthTokens {
  import opened Wrappers
  import opened Text
  import opened SystemGuid
  import ShortGuids
  import StringParsing
  import Safe64
  import CodecText

  /** The number of salt bytes in front of the ciphertext. */
  const SaltLength: nat := 16

  /** A parsed token: only its id is kept. */
  datatype ApiAuthToken = ApiAuthToken(tokenId: Guid)

  /** `Token`, the `IToken` that `From` builds: token id, user and group. */
  datatype Token = Token(id: Guid, userGuid: Guid, groupId: Guid)

  /** `SuiteB.Encrypt(key, plaintext, salt)` and `SuiteB.Decrypt(key,
      ciphertext, salt)`; either may give null. */
  datatype Cipher = Cipher(
    encrypt: (seq<byte>, seq<byte>, seq<byte>) -> Option<seq<byte>>,
    decrypt: (seq<byte>, seq<byte>, seq<byte>) -> Option<seq<byte>>)

  /** What the model assumes of the cipher: decryption with the same key and
      salt undoes encryption, and a ciphertext is never empty (it carries at
      least an authentication tag). */
  ghost predicate RoundTrips(c: Cipher) {
    forall key, plain, salt :: c.encrypt(key, plain, salt).Some? ==>
      |c.encrypt(key, plain, salt).value| > 0 &&
      c.decrypt(key, c.encrypt(key, plain, salt).value, salt) == Some(plain)
  }

  // ---------------------------------------------------------------------------
  // Binary form

  /** The lenient `Safe64` decoding of a raw token: the bytes exactly when the
      text is well formed, and then the same bytes the strict mode gives. */
  function Decoded(raw: string): (r: Option<seq<byte>>)
    ensures r.Some? <==> Safe64.WellFormed(raw)
    ensures r.Some? ==> Safe64.Decode(raw, false) == Returns(Some(r.value))
    ensures r.Some? ==> |r.value| == Safe64.DecodedLength(|CodecText.Significant(raw)|)
  {
    Safe64.DecodeSucceedsIff(raw, true);
    Safe64.StrictLenientAgree(raw);
    match Safe64.Decode(raw, true)
    case Returns(Some(bytes)) => Some(bytes)
    case _ => None
  }

  /** Twenty-two significant characters decode to at most sixteen bytes. */
  lemma ShortTextShortBytes(n: nat)
    requires n <= 22
    ensures Safe64.DecodedLength(n) <= SaltLength
  {
  }

  /** `Parse`: decode leniently; reject null or at most `SaltLength` bytes;
      decrypt the bytes after the salt with the salt; reject anything but
      exactly 32 plaintext bytes; the token id is the first sixteen. */
  function Parse(key: seq<byte>, raw: string, cipher: Cipher): (r: Option<ApiAuthToken>)
    ensures !Safe64.WellFormed(raw) ==> r.None?
    ensures |CodecText.Significant(raw)| <= 22 ==> r.None?
    ensures r.Some? ==> var bytes := Decoded(raw).value;
      |bytes| > SaltLength &&
      cipher.decrypt(key, bytes[SaltLength..], bytes[..SaltLength]).Some? &&
      |cipher.decrypt(key, bytes[SaltLength..], bytes[..SaltLength]).value| == 32 &&
      r.value.tokenId.bytes == cipher.decrypt(key, bytes[SaltLength..], bytes[..SaltLength]).value[..16]
  {
    match Decoded(raw)
    case None => None
    case Some(bytes) =>
      if |bytes| <= SaltLength then None
      else
        assert |CodecText.Significant(raw)| > 22 by {
          if |CodecText.Significant(raw)| <= 22 {
            ShortTextShortBytes(|CodecText.Significant(raw)|);
          }
        }
        match cipher.decrypt(key, bytes[SaltLength..], bytes[..SaltLength])
        case None => None
        case Some(decrypted) =>
          if |decrypted| != 32 then None
          else Some(ApiAuthToken(Guid(decrypted[..16])))
  }

  /** The plaintext `ToString` encrypts: the token id's bytes, then sixteen
      zero bytes where a group id once went. */
  function Plaintext(t: ApiAuthToken): (p: seq<byte>)
    ensures |p| == 32
    ensures p[..16] == t.tokenId.bytes
    ensures forall i :: 16 <= i < 32 ==> p[i] == 0
  {
    t.tokenId.bytes + [0, 0, 0, 0, 0, 0, 0, 0, 0, 0, 0, 0, 0, 0, 0, 0]
  }

  /** `ToString(masterKey)` with the random salt given: null when encryption
      gives null, otherwise the `Safe64` text of salt and ciphertext. */
  function ToString(t: ApiAuthToken, key: seq<byte>, salt: seq<byte>, cipher: Cipher): (r: Option<string>)
    requires |salt| == SaltLength
    ensures r.None? <==> cipher.encrypt(key, Plaintext(t), salt).None?
    ensures r.Some? ==> Decoded(r.value) == Some(salt + cipher.encrypt(key, Plaintext(t), salt).value)
    ensures r.Some? ==> forall i :: 0 <= i < |r.value| ==> Safe64.IsAlphabetChar(r.value[i])
  {
    match cipher.encrypt(key, Plaintext(t), salt)
    case None => None
    case Some(enc) =>
      var text := Safe64.Encode(salt + enc);
      Safe64.DecodeEncode(salt + enc, true);
      Safe64.DecodeSucceedsIff(text, true);
      Some(text)
  }

  /** A token written with a cipher that round-trips parses back to the same
      token id, whatever the salt. */
  lemma ParseToString(t: ApiAuthToken, key: seq<byte>, salt: seq<byte>, cipher: Cipher)
    requires |salt| == SaltLength
    requires RoundTrips(cipher)
    requires ToString(t, key, salt, cipher).Some?
    ensures Parse(key, ToString(t, key, salt, cipher).value, cipher) == Some(t)
  {
    var enc := cipher.encrypt(key, Plaintext(t), salt).value;
    var bytes := salt + enc;
    assert bytes[SaltLength..] == enc && bytes[..SaltLength] == salt;
    assert cipher.decrypt(key, enc, salt) == Some(Plaintext(t));
  }

  /** For any decoded token of salt and non-empty ciphertext, `Parse`
      succeeds exactly when decrypting that ciphertext with that salt gives 32
      bytes, and the token id is their first sixteen. */
  lemma ParseUsesSaltAndCiphertext(key: seq<byte>, raw: string, cipher: Cipher, salt: seq<byte>, enc: seq<byte>)
    requires Decoded(raw) == Some(salt + enc)
    requires |salt| == SaltLength && |enc| > 0
    ensures Parse(key, raw, cipher).Some? <==>
      cipher.decrypt(key, enc, salt).Some? && |cipher.decrypt(key, enc, salt).value| == 32
    ensures Parse(key, raw, cipher).Some? ==>
      Parse(key, raw, cipher).value.tokenId.bytes == cipher.decrypt(key, enc, salt).value[..16]
  {
    var bytes := salt + enc;
    assert bytes[SaltLength..] == enc && bytes[..SaltLength] == salt;
  }

  // ---------------------------------------------------------------------------
  // Claim form

  /** The separator of the claim's three fields. */
  const Sep: char := '~'

  /** `From(user)`, given the value of the user's first name-identifier claim
      (`None` when there is no such claim): exactly three `~`-separated
      fields, a GUID, a `ShortGuid` group and a GUID member, all of which
      must parse. */
  function From(claim: Option<string>, sysParse: ShortGuids.GuidParser): (r: Option<(ApiAuthToken, Token)>)
    ensures claim.None? ==> r.None?
    ensures claim.Some? && |Split(claim.value, Sep)| != 3 ==> r.None?
    ensures r.Some? ==> var f := Split(claim.value, Sep);
      StringParsing.ToGuid(Some(f[0]), sysParse) == Some(r.value.0.tokenId) &&
      StringParsing.ToShortGuid(Some(f[1]), sysParse) == Some(ShortGuids.ShortGuid(r.value.1.groupId)) &&
      StringParsing.ToGuid(Some(f[2]), sysParse) == Some(r.value.1.userGuid) &&
      r.value.1.id == r.value.0.tokenId
    ensures claim.Some? && |Split(claim.value, Sep)| == 3 ==> var f := Split(claim.value, Sep);
      (r.Some? <==> StringParsing.ToGuid(Some(f[0]), sysParse).Some? &&
                    StringParsing.ToShortGuid(Some(f[1]), sysParse).Some? &&
                    StringParsing.ToGuid(Some(f[2]), sysParse).Some?)
  {
    if claim.None? then None
    else
      var f := Split(claim.value, Sep);
      if |f| != 3 then None
      else
        var id := StringParsing.ToGuid(Some(f[0]), sysParse);
        var grpId := StringParsing.ToShortGuid(Some(f[1]), sysParse);
        var usrId := StringParsing.ToGuid(Some(f[2]), sysParse);
        if id.None? || grpId.None? || usrId.None? then None
        else Some((ApiAuthToken(id.value), Token(id.value, usrId.value, grpId.value.value)))
  }

  /** `ToClaim` as the source writes it: token id, two separators, member id,
      with nothing in the group field. */
  function ToClaimAsWritten(t: ApiAuthToken, memberId: Guid): (r: string)
    ensures Split(r, Sep) == [SystemGuid.Text(t.tokenId), "", SystemGuid.Text(memberId)]
  {
    var r := SystemGuid.Text(t.tokenId) + [Sep] + [Sep] + SystemGuid.Text(memberId);
    GuidTextNoSep(t.tokenId);
    GuidTextNoSep(memberId);
    JoinThree(SystemGuid.Text(t.tokenId), "", SystemGuid.Text(memberId));
    assert r == SystemGuid.Text(t.tokenId) + [Sep] + "" + [Sep] + SystemGuid.Text(memberId);
    r
  }

  /** Three separator-free fields joined with `~` split back into themselves. */
  lemma JoinThree(a: string, b: string, c: string)
    requires NoSep(a, Sep) && NoSep(b, Sep) && NoSep(c, Sep)
    ensures Split(a + [Sep] + b + [Sep] + c, Sep) == [a, b, c]
  {
    var pieces := [a, b, c];
    assert pieces[1..] == [b, c] && pieces[1..][1..] == [c];
    assert JoinWith([b, c], Sep) == b + [Sep] + c;
    assert JoinWith(pieces, Sep) == a + [Sep] + (b + [Sep] + c);
    assert a + [Sep] + (b + [Sep] + c) == a + [Sep] + b + [Sep] + c;
    JoinSplit(pieces, Sep);
  }

  lemma GuidTextNoSep(g: Guid)
    ensures NoSep(SystemGuid.Text(g), Sep)
  {
    var s := SystemGuid.Text(g);
    forall j | 0 <= j < |s| ensures s[j] != Sep {
      if j != 8 && j != 13 && j != 18 && j != 23 {
        assert IsHexDigit(s[j]);
      }
    }
  }

  /** The claim `ToClaimAsWritten` builds is one `From` always rejects: its
      empty group field is blank, and a blank `ShortGuid` does not parse. */
  lemma FromRejectsOwnClaim(t: ApiAuthToken, memberId: Guid, sysParse: ShortGuids.GuidParser)
    ensures From(Some(ToClaimAsWritten(t, memberId)), sysParse) == None
  {
    assert StringParsing.ToShortGuid(Some(""), sysParse).None?;
  }

  /** `ToClaim` as evidently intended: the group field holds the empty
      group's `ShortGuid` text, `"0"`, since a token carries no group. */
  function ToClaim(t: ApiAuthToken, memberId: Guid): (r: string)
    ensures Split(r, Sep) == [SystemGuid.Text(t.tokenId), ShortGuids.ToString(ShortGuids.EmptyShort), SystemGuid.Text(memberId)]
  {
    var group := ShortGuids.ToString(ShortGuids.EmptyShort);
    var r := SystemGuid.Text(t.tokenId) + [Sep] + group + [Sep] + SystemGuid.Text(memberId);
    GuidTextNoSep(t.tokenId);
    GuidTextNoSep(memberId);
    assert NoSep(group, Sep);
    JoinThree(SystemGuid.Text(t.tokenId), group, SystemGuid.Text(memberId));
    r
  }

  /** `From` reads back the corrected claim: the token, and a `Token` for the
      member with the empty group, whenever the framework parser reads the
      GUIDs' own text. */
  lemma FromToClaim(t: ApiAuthToken, memberId: Guid, sysParse: ShortGuids.GuidParser)
    requires sysParse(SystemGuid.Text(t.tokenId)) == Some(t.tokenId)
    requires sysParse(SystemGuid.Text(memberId)) == Some(memberId)
    ensures From(Some(ToClaim(t, memberId)), sysParse) == Some((t, Token(t.tokenId, memberId, Empty)))
  {
    StringParsing.ToGuidOfText(t.tokenId, sysParse);
    StringParsing.ToGuidOfText(memberId, sysParse);
  }
}
