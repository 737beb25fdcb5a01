/** `ApiAuthHandler.HandleJwtAuthenticate` and `ResolveTokenPrincipal`: the
    per-request decision that turns an `Authorization` header into no result,
    a failure or an authenticated principal.

    The carrier JWT's signature checking (`DecodeJwtToken`) is a parameter,
    the token table is a map from token id to user id, and the cipher and
    encryption key are those of `ApiAuthTokens`.
 */
module ApiAuthHandler {
  import opened Wrappers
  import opened Text
  import opened SystemGuid
  import opened ApiAuthTokens

  /** A claim: its type URI and its value. */
  datatype Claim = Claim(claimType: string, value: string)

  /** `ClaimTypes.Hash`, the claim of the carrier JWT that holds the API token. */
  const HashClaimType: string := "http://schemas.microsoft.com/ws/2008/06/identity/claims/hash"

  /** `ClaimTypes.NameIdentifier`, the claim type `ToClaim` produces. */
  const NameIdentifierClaimType: string := "http://schemas.xmlsoap.org/ws/2005/05/identity/claims/nameidentifier"

  /** `SecurityAlgorithms.HmacSha256Signature`. */
  const HmacSha256Signature: string := "http://www.w3.org/2001/04/xmldsig-more#hmac-sha256"

  /** `ApiAuthDefaults.Scheme`. */
  const Scheme: string := "ApiAuth"

  /** A carrier JWT whose signature has been checked: its header's algorithm
      and its claims in order. */
  datatype Jwt = Jwt(alg: string, claims: seq<Claim>)

  /** `DecodeJwtToken`: the JWT, or null when it does not validate. */
  type JwtDecoder = string -> Option<Jwt>

  /** `IJwtAuthManager.IsTokenValid`: blank text throws; otherwise the decoded
      JWT, which is valid when it exists and is signed with HMAC-SHA256. */
  function IsTokenValid(accessToken: string, decode: JwtDecoder): (r: Outcome<(Option<Jwt>, bool)>)
    ensures r.Throws? <==> IsBlank(accessToken)
    ensures r.Throws? ==> r.error == SecurityTokenException
    ensures r.Returns? ==> r.value.0 == decode(accessToken)
    ensures r.Returns? ==> (r.value.1 <==> r.value.0.Some? && r.value.0.value.alg == HmacSha256Signature)
  {
    if IsBlank(accessToken) then Throws(SecurityTokenException)
    else
      var jwt := decode(accessToken);
      if jwt.None? || jwt.value.alg != HmacSha256Signature then Returns((jwt, false))
      else Returns((jwt, true))
  }

  /** The value of the first claim of a type, or null (`FirstOrDefault`). */
  function FirstClaim(claims: seq<Claim>, claimType: string): (r: Option<string>)
    ensures r.None? <==> forall i :: 0 <= i < |claims| ==> claims[i].claimType != claimType
    ensures r.Some? ==> exists i :: (0 <= i < |claims| && claims[i] == Claim(claimType, r.value) &&
      forall j :: 0 <= j < i ==> claims[j].claimType != claimType)
  {
    if |claims| == 0 then None
    else if claims[0].claimType == claimType then
      assert claims[0] == Claim(claimType, claims[0].value);
      Some(claims[0].value)
    else
      var r := FirstClaim(claims[1..], claimType);
      assert r.Some? ==> exists i :: (0 <= i < |claims| && claims[i] == Claim(claimType, r.value) &&
        forall j :: 0 <= j < i ==> claims[j].claimType != claimType) by {
        if r.Some? {
          var i :| 0 <= i < |claims| - 1 && claims[1..][i] == Claim(claimType, r.value) &&
            forall j :: 0 <= j < i ==> claims[1..][j].claimType != claimType;
          assert claims[i + 1] == Claim(claimType, r.value);
          assert forall j :: 0 <= j < i + 1 ==> claims[j].claimType != claimType by {
            forall j | 0 <= j < i + 1 ensures claims[j].claimType != claimType {
              if j > 0 { assert claims[j] == claims[1..][j - 1]; }
            }
          }
        }
      }
      r
  }

  /** An authenticated principal: one identity of the scheme with its claims. */
  datatype Principal = Principal(claims: seq<Claim>, authenticationType: string)

  /** `AuthenticateResult`: no result, failure, or success with a principal. */
  datatype AuthResult = NoResult | Fail | Success(principal: Principal)

  /** The request's context: the encryption key from configuration, the
      cipher, the JWT decoder and the token table. */
  datatype Context = Context(
    key: seq<byte>,
    cipher: Cipher,
    decode: JwtDecoder,
    tokens: map<Guid, Guid>)

  /** `ResolveTokenPrincipal`: the token's record by id, or null; a principal
      with one name-identifier claim built from the token and the record's
      user by `ToClaim` as written, whose group field is empty. */
  function ResolveTokenPrincipal(token: ApiAuthToken, tokens: map<Guid, Guid>): (r: Option<Principal>)
    ensures r.None? <==> token.tokenId !in tokens
    ensures r.Some? ==> r.value.authenticationType == Scheme && |r.value.claims| == 1
    ensures r.Some? ==> r.value.claims[0] == Claim(NameIdentifierClaimType, ToClaimAsWritten(token, tokens[token.tokenId]))
  {
    if token.tokenId !in tokens then None
    else Some(Principal([Claim(NameIdentifierClaimType, ToClaimAsWritten(token, tokens[token.tokenId]))], Scheme))
  }

  /** `ResolveTokenPrincipal` with the corrected `ToClaim`, whose group field
      is the empty group's text: the same decision, and a claim that
      `ApiAuthToken.From` reads back (see CorrectedPrincipalReadable). */
  function ResolveTokenPrincipalCorrected(token: ApiAuthToken, tokens: map<Guid, Guid>): (r: Option<Principal>)
    ensures r.None? <==> ResolveTokenPrincipal(token, tokens).None?
    ensures r.Some? ==> r.value.authenticationType == Scheme && |r.value.claims| == 1
    ensures r.Some? ==> r.value.claims[0].claimType == NameIdentifierClaimType
    ensures r.Some? ==>
      |Split(r.value.claims[0].value, Sep)| == 3 &&
      Split(r.value.claims[0].value, Sep)[1] == ShortGuids.ToString(ShortGuids.EmptyShort)
  {
    if token.tokenId !in tokens then None
    else Some(Principal([Claim(NameIdentifierClaimType, ToClaim(token, tokens[token.tokenId]))], Scheme))
  }

  /** The corrected principal's claim reads back as the token and its
      record's user. */
  lemma CorrectedPrincipalReadable(token: ApiAuthToken, tokens: map<Guid, Guid>, sysParse: ShortGuids.GuidParser)
    requires token.tokenId in tokens
    requires sysParse(SystemGuid.Text(token.tokenId)) == Some(token.tokenId)
    requires sysParse(SystemGuid.Text(tokens[token.tokenId])) == Some(tokens[token.tokenId])
    ensures ResolveTokenPrincipalCorrected(token, tokens).Some?
    ensures ApiAuthTokens.From(Some(ResolveTokenPrincipalCorrected(token, tokens).value.claims[0].value), sysParse) ==
      Some((token, Token(token.tokenId, tokens[token.tokenId], Empty)))
  {
    FromToClaim(token, tokens[token.tokenId], sysParse);
  }

  /** The bearer text: the last space-separated piece of the header. */
  function HeaderToken(header: Option<string>): (r: Option<string>)
    ensures header.None? <==> r.None?
    ensures r.Some? ==> NoSep(r.value, ' ')
    ensures r.Some? ==> exists p :: header.value == p + r.value && (p == [] || p[|p| - 1] == ' ')
  {
    match header
    case None => None
    case Some(h) =>
      LastPieceSuffix(h);
      Some(LastPiece(h, ' '))
  }

  /** The last piece of a split is a separator-free suffix that follows a
      separator or starts the text. */
  lemma LastPieceSuffix(s: string)
    ensures NoSep(LastPiece(s, ' '), ' ')
    ensures exists p :: s == p + LastPiece(s, ' ') && (p == [] || p[|p| - 1] == ' ')
  {
    var pieces := Split(s, ' ');
    var n := |pieces|;
    if n == 1 {
      assert s == [] + LastPiece(s, ' ');
    } else {
      JoinWithLast(pieces, ' ');
      var p := JoinWith(pieces[..n - 1], ' ') + [' '];
      assert s == p + LastPiece(s, ' ');
    }
  }

  /** Joining ends with the last piece after a separator. */
  lemma {:induction false} JoinWithLast(pieces: seq<string>, sep: char)
    requires |pieces| >= 2
    ensures JoinWith(pieces, sep) == JoinWith(pieces[..|pieces| - 1], sep) + [sep] + pieces[|pieces| - 1]
    decreases |pieces|
  {
    var n := |pieces|;
    if n == 2 {
      assert pieces[1..] == [pieces[1]];
      assert pieces[..1] == [pieces[0]];
    } else {
      JoinWithLast(pieces[1..], sep);
      var front := pieces[..n - 1];
      assert front[1..] == pieces[1..][..n - 2];
      assert front[0] == pieces[0];
      assert JoinWith(front, sep) == front[0] + [sep] + JoinWith(front[1..], sep);
    }
  }

  /** `HandleJwtAuthenticate`: no result for a blank bearer text or a carrier
      JWT that is not valid; failure when the hash claim does not parse as an
      API token or no record has its id; success otherwise. A valid JWT
      without a hash claim dereferences null. */
  function HandleJwtAuthenticate(header: Option<string>, ctx: Context): (r: Outcome<AuthResult>)
    ensures IsNullOrBlank(HeaderToken(header)) ==> r == Returns(NoResult)
    ensures r != Throws(SecurityTokenException)
    ensures r.Throws? ==> r.error == NullReferenceException
    ensures r.Returns? && r.value.Success? ==> |r.value.principal.claims| == 1
    ensures r.Returns? && r.value.Success? ==>
      r.value.principal.claims[0].claimType == NameIdentifierClaimType &&
      |Split(r.value.principal.claims[0].value, Sep)| == 3 && Split(r.value.principal.claims[0].value, Sep)[1] == ""
  {
    var headerToken := HeaderToken(header);
    if IsNullOrBlank(headerToken) then Returns(NoResult)
    else
      var (jwt, isValid) := IsTokenValid(headerToken.value, ctx.decode).value;
      if isValid then
        match FirstClaim(jwt.value.claims, HashClaimType)
        case None => Throws(NullReferenceException)
        case Some(hash) =>
          match Parse(ctx.key, hash, ctx.cipher)
          case None => Returns(Fail)
          case Some(token) =>
            match ResolveTokenPrincipal(token, ctx.tokens)
            case None => Returns(Fail)
            case Some(principal) => Returns(Success(principal))
      else Returns(NoResult)
  }

  // ---------------------------------------------------------------------------
  // The decision, stage by stage

  /** The bearer text of a header that is not blank. */
  predicate HasBearer(header: Option<string>) {
    !IsNullOrBlank(HeaderToken(header))
  }

  /** The carrier JWT of a bearer text, when it is valid. */
  predicate CarrierValid(header: Option<string>, ctx: Context)
    requires HasBearer(header)
  {
    var jwt := ctx.decode(HeaderToken(header).value);
    jwt.Some? && jwt.value.alg == HmacSha256Signature
  }

  /** The hash claim of a valid carrier JWT. */
  function HashClaim(header: Option<string>, ctx: Context): Option<string>
    requires HasBearer(header) && CarrierValid(header, ctx)
  {
    FirstClaim(ctx.decode(HeaderToken(header).value).value.claims, HashClaimType)
  }

  /** A carrier JWT that is not valid gives no result, never a failure. */
  lemma InvalidCarrierNoResult(header: Option<string>, ctx: Context)
    requires HasBearer(header) && !CarrierValid(header, ctx)
    ensures HandleJwtAuthenticate(header, ctx) == Returns(NoResult)
  {
  }

  /** A valid carrier JWT without a hash claim throws. */
  lemma MissingHashClaimThrows(header: Option<string>, ctx: Context)
    requires HasBearer(header) && CarrierValid(header, ctx)
    requires HashClaim(header, ctx).None?
    ensures HandleJwtAuthenticate(header, ctx) == Throws(NullReferenceException)
  {
  }

  /** A hash claim that does not parse as an API token fails. */
  lemma ParseFailureFails(header: Option<string>, ctx: Context)
    requires HasBearer(header) && CarrierValid(header, ctx)
    requires HashClaim(header, ctx).Some?
    requires Parse(ctx.key, HashClaim(header, ctx).value, ctx.cipher).None?
    ensures HandleJwtAuthenticate(header, ctx) == Returns(Fail)
  {
  }

  /** A parsed token whose id has no record fails. */
  lemma UnknownTokenFails(header: Option<string>, ctx: Context)
    requires HasBearer(header) && CarrierValid(header, ctx)
    requires HashClaim(header, ctx).Some?
    requires Parse(ctx.key, HashClaim(header, ctx).value, ctx.cipher).Some?
    requires Parse(ctx.key, HashClaim(header, ctx).value, ctx.cipher).value.tokenId !in ctx.tokens
    ensures HandleJwtAuthenticate(header, ctx) == Returns(Fail)
  {
  }

  /** Every stage passing gives success with the principal of the token's
      record. */
  lemma AllStagesSucceed(header: Option<string>, ctx: Context)
    requires HasBearer(header) && CarrierValid(header, ctx) && HashClaim(header, ctx).Some?
    requires Parse(ctx.key, HashClaim(header, ctx).value, ctx.cipher).Some?
    requires Parse(ctx.key, HashClaim(header, ctx).value, ctx.cipher).value.tokenId in ctx.tokens
    ensures var token := Parse(ctx.key, HashClaim(header, ctx).value, ctx.cipher).value;
      HandleJwtAuthenticate(header, ctx) ==
        Returns(Success(Principal([Claim(NameIdentifierClaimType, ToClaimAsWritten(token, ctx.tokens[token.tokenId]))], Scheme)))
  {
  }

  /** Success exactly when every stage passes, and then the principal holds
      the one claim of the token for its record's user. */
  lemma {:induction false} SuccessIff(header: Option<string>, ctx: Context)
    ensures HandleJwtAuthenticate(header, ctx).Returns? && HandleJwtAuthenticate(header, ctx).value.Success? <==>
      HasBearer(header) && CarrierValid(header, ctx) && HashClaim(header, ctx).Some? &&
      Parse(ctx.key, HashClaim(header, ctx).value, ctx.cipher).Some? &&
      Parse(ctx.key, HashClaim(header, ctx).value, ctx.cipher).value.tokenId in ctx.tokens
    ensures HandleJwtAuthenticate(header, ctx).Returns? && HandleJwtAuthenticate(header, ctx).value.Success? ==>
      var token := Parse(ctx.key, HashClaim(header, ctx).value, ctx.cipher).value;
      HandleJwtAuthenticate(header, ctx).value.principal ==
        Principal([Claim(NameIdentifierClaimType, ToClaimAsWritten(token, ctx.tokens[token.tokenId]))], Scheme)
  {
    if !HasBearer(header) {
    } else if !CarrierValid(header, ctx) {
      InvalidCarrierNoResult(header, ctx);
    } else if HashClaim(header, ctx).None? {
      MissingHashClaimThrows(header, ctx);
    } else if Parse(ctx.key, HashClaim(header, ctx).value, ctx.cipher).None? {
      ParseFailureFails(header, ctx);
    } else if Parse(ctx.key, HashClaim(header, ctx).value, ctx.cipher).value.tokenId !in ctx.tokens {
      UnknownTokenFails(header, ctx);
    } else {
      AllStagesSucceed(header, ctx);
    }
  }

  /** The claim of every principal the handler authenticates is one that
      `ApiAuthToken.From` rejects: its group field is empty. */
  lemma AuthenticatedPrincipalUnreadable(header: Option<string>, ctx: Context, sysParse: ShortGuids.GuidParser)
    ensures var r := HandleJwtAuthenticate(header, ctx);
      r.Returns? && r.value.Success? ==> ApiAuthTokens.From(Some(r.value.principal.claims[0].value), sysParse).None?
  {
    var r := HandleJwtAuthenticate(header, ctx);
    if r.Returns? && r.value.Success? {
      SuccessIff(header, ctx);
      var token := Parse(ctx.key, HashClaim(header, ctx).value, ctx.cipher).value;
      FromRejectsOwnClaim(token, ctx.tokens[token.tokenId], sysParse);
    }
  }

  /** Only the record of the token's own id matters: two tables that agree on
      it give the same decision. */
  lemma LookupByIdOnly(header: Option<string>, ctx: Context, tokens: map<Guid, Guid>)
    requires HasBearer(header) && CarrierValid(header, ctx) && HashClaim(header, ctx).Some?
    requires Parse(ctx.key, HashClaim(header, ctx).value, ctx.cipher).Some?
    requires var id := Parse(ctx.key, HashClaim(header, ctx).value, ctx.cipher).value.tokenId;
      (id in tokens <==> id in ctx.tokens) && (id in tokens ==> tokens[id] == ctx.tokens[id])
    ensures HandleJwtAuthenticate(header, ctx.(tokens := tokens)) == HandleJwtAuthenticate(header, ctx)
  {
  }

  /** Revoking a token (removing its record) turns its success into a
      failure. */
  lemma RevokedTokenFails(header: Option<string>, ctx: Context)
    requires HasBearer(header) && CarrierValid(header, ctx) && HashClaim(header, ctx).Some?
    requires Parse(ctx.key, HashClaim(header, ctx).value, ctx.cipher).Some?
    ensures var id := Parse(ctx.key, HashClaim(header, ctx).value, ctx.cipher).value.tokenId;
      HandleJwtAuthenticate(header, ctx.(tokens := ctx.tokens - {id})) == Returns(Fail)
  {
  }

  /** End to end: a header whose last piece is a valid carrier JWT holding a
      token `ToString` wrote with a round-tripping cipher authenticates the
      token's recorded user. */
  lemma IssuedTokenAuthenticates(prefix: string, bearer: string, ctx: Context,
                                 t: ApiAuthToken, salt: seq<byte>)
    requires |salt| == SaltLength && RoundTrips(ctx.cipher)
    requires ApiAuthTokens.ToString(t, ctx.key, salt, ctx.cipher).Some?
    requires !IsBlank(bearer) && NoSep(bearer, ' ')
    requires ctx.decode(bearer) == Some(Jwt(HmacSha256Signature,
      [Claim(HashClaimType, ApiAuthTokens.ToString(t, ctx.key, salt, ctx.cipher).value)]))
    requires t.tokenId in ctx.tokens
    ensures HandleJwtAuthenticate(Some(prefix + " " + bearer), ctx) ==
      Returns(Success(Principal([Claim(NameIdentifierClaimType, ToClaimAsWritten(t, ctx.tokens[t.tokenId]))], Scheme)))
  {
    var header := Some(prefix + " " + bearer);
    BearerOfHeader(prefix, bearer);
    assert HasBearer(header) && CarrierValid(header, ctx);
    assert HashClaim(header, ctx) == ApiAuthTokens.ToString(t, ctx.key, salt, ctx.cipher);
    ParseToString(t, ctx.key, salt, ctx.cipher);
    AllStagesSucceed(header, ctx);
  }

  /** The bearer text of `prefix + " " + bearer` is `bearer` when it holds no
      space. */
  lemma BearerOfHeader(prefix: string, bearer: string)
    requires NoSep(bearer, ' ')
    ensures HeaderToken(Some(prefix + " " + bearer)) == Some(bearer)
  {
    assert prefix + " " + bearer == prefix + [' '] + bearer;
    LastAfterSpace(prefix, bearer);
  }

  /** The last piece of `prefix + " " + bearer` is `bearer` when it holds no
      space. */
  lemma {:induction false} LastAfterSpace(prefix: string, bearer: string)
    requires NoSep(bearer, ' ')
    ensures LastPiece(prefix + [' '] + bearer, ' ') == bearer
    decreases |prefix|
  {
    var s := prefix + [' '] + bearer;
    if |prefix| == 0 {
      assert s[1..] == bearer;
      SplitNoSep(bearer, ' ');
    } else {
      LastAfterSpace(prefix[1..], bearer);
      assert s[1..] == prefix[1..] + [' '] + bearer;
      var rest := Split(s[1..], ' ');
      assert |rest| >= 2 by {
        SplitTwoPieces(prefix[1..], bearer);
      }
    }
  }

  /** Text with a space splits into at least two pieces. */
  lemma SplitTwoPieces(p: string, q: string)
    ensures |Split(p + [' '] + q, ' ')| >= 2
  {
    var s := p + [' '] + q;
    assert s[|p|] == ' ';
  }
}
