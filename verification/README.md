# JWTToken WebAPI: codecs, API tokens and utilities in Dafny

This project models the self-contained core of the JWTToken `WebAPI` service:

- **Codecs.** `Safe64` is the URI-safe Base64 codec. It writes no padding, and its decoder accepts both alphabets, padding, whitespace and line breaks. `Hex32` is the Base32 codec over `0-9a-v`.
- **Identifiers.** `ShortGuid` prints a GUID as 26 `Hex32` characters, or `"0"` for the empty GUID.
- **API tokens.** An `ApiAuthToken` is a token id. It is encrypted with a random 16-byte salt and carried as `Safe64` text inside the `Hash` claim of a JWT. `ApiAuthHandler.HandleJwtAuthenticate` turns an `Authorization` header into an authentication result: no result, failure, success with a one-claim principal, or an exception.
- **Utilities.** `SimpleStringTemplate` is a table-driven template parser and formatter. `StringExtensions`, `StringParsing` and `CollectionExtensions` are null-tolerant helpers. `Result`, `ValidatedResult` and `ValidationError` form the outcome types and their implicit conversions.

## How the program is modelled

- **Null.** A reference that may be null is an `Option`. An exception is the `Throws` arm of `Outcome<T>`, named by its .NET type (`FormatException`, `IndexOutOfRangeException`, ...).
- **Strings, bytes and integers.** Strings are `seq<char>` and bytes are `bv8`. Integers are unbounded, and 32-bit limits are written out where the code depends on them: `int.Parse`, and the index sums in `CompareTo`.
- **Code the model cannot see** becomes a function parameter:
  - the AES cipher (`SuiteB.Encrypt`/`Decrypt`);
  - the salt generator;
  - JWT signature validation;
  - `Guid.TryParse`;
  - the token table;
  - the template's argument resolver and value formatter.
- **The three classes of each result family** (`Result`, `Result<D>`, `Result<D,F>`) are one record. A `Level` stands for the static type that picks a conversion overload, and `Project` clears the fields that type does not have.
- **One file per source unit:**
  - `safe64.dfy`, `hex32.dfy` and `codec_text.dfy`: the codecs, and which characters they skip;
  - `guid.dfy`: `System.Guid` ordering and text;
  - `shortguid.dfy`, `api_auth_token.dfy` and `auth_handler.dfy`: identifiers, tokens and the handler;
  - `template.dfy`: the template parser and formatter;
  - `string_extensions.dfy`, `string_parsing.dfy` and `collections.dfy`: the helpers;
  - `result.dfy`, `validated_result.dfy` and `validation_error.dfy`: the outcome types;
  - `text.dfy` and `wrappers.dfy`: the base-library primitives and `Option`/`Outcome`.

## Model

| member | source | states |
|---|---|---|
| Safe64.EncodeChar | WebAPI/Utilities/Safe64.cs:12-25 | every 6-bit value maps to a character of the URI-safe alphabet `A-Za-z0-9-_` |
| Safe64.DecodeChar | WebAPI/Utilities/Safe64.cs:13-25 | a character the decoding table accepts reads as a value below 64 and is at most U+00FF; `+` and `/` read as `-` and `_` |
| Safe64.DecodeEncodeChar | WebAPI/Utilities/Safe64.cs:17-25 | the decoding table inverts the encoding table on all 64 values |
| Safe64.OctetsOfSextets | WebAPI/Utilities/Safe64.cs:49-52 | the byte formulas of the decoder (lines 114-116) invert the sextet split of the encoder, also for the one- and two-byte tails |
| Safe64.EncodeGroup | WebAPI/Utilities/Safe64.cs:45-54 | a group of three bytes becomes four alphabet characters |
| Safe64.Encode | WebAPI/Utilities/Safe64.cs:33-58 | the output is `4*(n/3)` characters plus `n%3+1` for a partial group, all from the alphabet, with no padding; empty input gives `""` |
| Safe64.Decode | WebAPI/Utilities/Safe64.cs:67-124 | a decoded array has `DecodedLength` of the significant-character count (lines 82-86); null comes back only in lenient mode; a throw is a `FormatException` in strict mode |
| Safe64.SignificantCountSpec | WebAPI/Utilities/Safe64.cs:71-80 | the first pass succeeds exactly when no significant character is above U+00FF and none follows a `=`, and it then counts the significant characters |
| Safe64.DecodeGroupSpec | WebAPI/Utilities/Safe64.cs:95-121 | one group decodes exactly when all its characters are in the table and it is not a lone character |
| Safe64.DecodeGroupsSpec | WebAPI/Utilities/Safe64.cs:95-121 | the second pass succeeds exactly when every character is in the table and the count is not 1 mod 4 |
| Safe64.InTableSignificant | WebAPI/Utilities/Safe64.cs:76-78 | "every significant character is in the table" means the same over the raw text and over its significant characters |
| Safe64.DecodeSucceedsIff | WebAPI/Utilities/Safe64.cs:67-124 | decoding gives bytes exactly on well-formed text (table characters, pads only at the end, no lone last character); on any other text it gives the error outcome of its mode |
| Safe64.StrictLenientAgree | WebAPI/Utilities/Safe64.cs:78 | the two modes differ only in returning null or throwing `FormatException` (lines 84 and 112 act the same) |
| Safe64.LoneCharRejected | WebAPI/Utilities/Safe64.cs:82-84 | a significant-character count of 1 mod 4 is rejected |
| Safe64.DataAfterPadRejected | WebAPI/Utilities/Safe64.cs:77-78 | a significant character anywhere after a `=` is rejected |
| Safe64.DecodeEncodeGroup | WebAPI/Utilities/Safe64.cs:95-121 | a full encoded group decodes back to its three bytes |
| Safe64.DecodeGroupsEncode | WebAPI/Utilities/Safe64.cs:43-57 | the second pass inverts the encoding loop on every byte sequence, partial last group included |
| Safe64.EncodedLengthNotLone | WebAPI/Utilities/Safe64.cs:46-54 | no encoding length is 1 mod 4, so encoder output never meets the lone-character rejection |
| Safe64.DecodeEncode | WebAPI/Utilities/Safe64.cs:33-124 | round trip: `Decode(Encode(data))` returns `data`, in both modes |
| Safe64.UrlSafe | WebAPI/Utilities/Safe64.cs:22-25 | the standard-to-URI-safe translation maps `+` to `-` and `/` to `_`, character by character |
| Safe64.DecodeGroupsUrlSafe | WebAPI/Utilities/Safe64.cs:22-25 | the second pass reads standard and URI-safe Base64 alike |
| Safe64.SignificantUrlSafe | WebAPI/Utilities/Safe64.cs:76 | the translation commutes with dropping the skipped characters |
| Safe64.DecodeUrlSafe | WebAPI/Utilities/Safe64.cs:22-25 | `Decode` gives the same outcome on standard Base64 as on its URI-safe form |
| Safe64.InsertSkipped | WebAPI/Utilities/Safe64.cs:76 | inserting whitespace or a line break anywhere leaves the outcome of `Decode` unchanged |
| CodecText.Significant | WebAPI/Utilities/Safe64.cs:103 | the characters a decoder reads are in order, no longer than the input, and neither skipped nor `=` |
| CodecText.Unskipped | WebAPI/Utilities/Hex32.cs:76-80 | the characters the `Hex32` first pass counts are not skipped, and there are at least as many as the significant ones |
| CodecText.UnskippedSignificant | WebAPI/Utilities/Hex32.cs:78-105 | without a `=` the two passes of `Hex32` see the same characters; with one, the second pass sees fewer |
| CodecText.SignificantInsert | WebAPI/Utilities/Safe64.cs:103 | inserting a character that is not significant does not change the significant characters |
| CodecText.UnskippedInsert | WebAPI/Utilities/Hex32.cs:78 | inserting a skipped character does not change what the first pass counts |
| Hex32.EncodeChar | WebAPI/Utilities/Hex32.cs:12-18 | every 5-bit value maps to `0-9a-v` |
| Hex32.DecodeChar | WebAPI/Utilities/Hex32.cs:13-18 | a character is accepted exactly when it is in `0-9a-v`, and then reads as a value below 32 |
| Hex32.DecodeEncodeChar | WebAPI/Utilities/Hex32.cs:17-18 | the decoding table inverts the encoding table |
| Hex32.OctetsOfQuintets | WebAPI/Utilities/Hex32.cs:48-55 | the decoder's byte formulas (lines 129-133) invert the encoder's split of five bytes into eight quintets |
| Hex32.EncodeBlock | WebAPI/Utilities/Hex32.cs:38-57 | five bytes become eight alphabet characters |
| Hex32.PadBlock | WebAPI/Utilities/Hex32.cs:39-42 | a short tail is extended with zero bytes to five, keeping its prefix |
| Hex32.Encode | WebAPI/Utilities/Hex32.cs:26-61 | the output has `8*(n/5)` characters plus 2, 4, 5 or 7 for a partial block, all in `0-9a-v` |
| Hex32.DecodeBlock | WebAPI/Utilities/Hex32.cs:99-140 | a decoded round yields `DecodedLength` of the characters it accounts for (lines 83-88) |
| Hex32.DecodeBlocks | WebAPI/Utilities/Hex32.cs:99-140 | the second pass yields `DecodedLength(rem)` bytes |
| Hex32.Decode | WebAPI/Utilities/Hex32.cs:70-143 | a decoded array has `DecodedLength` of the significant count; null only in lenient mode; otherwise `FormatException` |
| Hex32.FirstPassSpec | WebAPI/Utilities/Hex32.cs:74-81 | the first pass succeeds exactly when no unskipped character is above U+00FF, and it then counts the unskipped characters, `=` included |
| Hex32.DecodeBlockSpec | WebAPI/Utilities/Hex32.cs:118-127 | one round succeeds exactly when it read as many characters as it accounts for, all in the table, and the count does not end inside a byte (not 1, 3 or 6 mod 8) |
| Hex32.DecodeBlocksSpec | WebAPI/Utilities/Hex32.cs:99-140 | the second pass succeeds exactly when it reads the full count, every character is in the table and the length is valid |
| Hex32.DecodeSucceedsIff | WebAPI/Utilities/Hex32.cs:70-143 | decoding gives bytes exactly on text with no `=`, only table characters, and a valid significant length; otherwise it gives the error outcome of its mode |
| Hex32.StrictLenientAgree | WebAPI/Utilities/Hex32.cs:79 | the modes differ only in null versus `FormatException` (lines 79 and 127) |
| Hex32.PaddedRejected | WebAPI/Utilities/Hex32.cs:78-105 | any `=` makes decoding fail: the first pass counts it but the second skips it, so the second pass runs out of characters |
| Hex32.UpperCaseRejected | WebAPI/Utilities/Hex32.cs:13-18 | an upper-case letter anywhere makes decoding fail: the table has no upper case |
| Hex32.InsertSkipped | WebAPI/Utilities/Hex32.cs:78 | inserting whitespace or a line break leaves the outcome of `Decode` unchanged |
| Hex32.DecodeEncodeFull | WebAPI/Utilities/Hex32.cs:99-140 | a full encoded block decodes back to its five bytes |
| Hex32.DecodeEncodePartial | WebAPI/Utilities/Hex32.cs:118-139 | the encoding of a one- to four-byte tail decodes back to it |
| Hex32.DecodeBlocksEncode | WebAPI/Utilities/Hex32.cs:36-58 | the second pass inverts the encoding loop on every byte sequence |
| Hex32.DecodeEncode | WebAPI/Utilities/Hex32.cs:26-143 | round trip: `Decode(Encode(data))` returns `data`, in both modes |
| SystemGuid.OrderKey | WebAPI/Utilities/ShortGuid.cs:62-63 | the comparison key is the 16 GUID bytes reordered by a fixed permutation |
| SystemGuid.OrderKeyInjective | WebAPI/Utilities/ShortGuid.cs:62-63 | distinct GUIDs have distinct comparison keys |
| SystemGuid.Lex | WebAPI/Utilities/ShortGuid.cs:62-63 | lexicographic comparison gives -1, 0 or 1, and 0 exactly on equal keys |
| SystemGuid.LexAntisymmetric | WebAPI/Utilities/ShortGuid.cs:62-63 | swapping the operands negates the comparison |
| SystemGuid.LexTransitive | WebAPI/Utilities/ShortGuid.cs:62-63 | "less than" is transitive |
| SystemGuid.CompareTo | WebAPI/Utilities/ShortGuid.cs:62-63 | `Guid.CompareTo` gives -1, 0 or 1, and 0 exactly on equal GUIDs |
| SystemGuid.CompareAntisymmetric | WebAPI/Utilities/ShortGuid.cs:62-63 | `Guid.CompareTo` is antisymmetric |
| SystemGuid.CompareTransitive | WebAPI/Utilities/ShortGuid.cs:62-63 | `Guid.CompareTo` is transitive: a total order |
| SystemGuid.Text | WebAPI/ApiAuthToken.cs:68 | the `D` format has 36 characters: hex digits with hyphens at 8, 13, 18 and 23 |
| ShortGuids.TryParse | WebAPI/Utilities/ShortGuid.cs:34-47 | null for null or blank text; `ShortGuid.Empty` for `"0"` |
| ShortGuids.ToString | WebAPI/Utilities/ShortGuid.cs:50-54 | `"0"` exactly for the empty GUID; otherwise 26 characters from `0-9a-v` |
| ShortGuids.EqualsIsIdentity | WebAPI/Utilities/ShortGuid.cs:58-59 | `Equals` is value identity, and a `ShortGuid` equals exactly the GUID it wraps |
| ShortGuids.CompareTo | WebAPI/Utilities/ShortGuid.cs:62 | -1, 0 or 1, and 0 exactly when `Equals`; comparing with a `ShortGuid` is comparing with the GUID it wraps |
| ShortGuids.CompareToOrder | WebAPI/Utilities/ShortGuid.cs:62-63 | the `ShortGuid` order is `Guid.CompareTo` on the wrapped GUIDs, so it is antisymmetric and transitive |
| ShortGuids.CompareToGuid | WebAPI/Utilities/ShortGuid.cs:63 | -1, 0 or 1, and 0 exactly when the `ShortGuid` equals the GUID |
| ShortGuids.TryParseToString | WebAPI/Utilities/ShortGuid.cs:34-54 | round trip: `TryParse(ToString(g))` returns `g` whenever `Guid.TryParse` rejects 26-character `0-9a-v` text |
| ShortGuids.ToStringDecodes | WebAPI/Utilities/ShortGuid.cs:52-53 | a non-empty `ShortGuid`'s text decodes (`Hex32`) back to its 16 bytes |
| ShortGuids.DecodedSixteen | WebAPI/Utilities/ShortGuid.cs:43 | among valid lengths, exactly 26 significant characters decode to 16 bytes |
| ShortGuids.TryParseHex32 | WebAPI/Utilities/ShortGuid.cs:38-45 | when `Guid.TryParse` fails, text is valid exactly when it is well-formed `Hex32` with 26 significant characters |
| StringParsing.ToBool | WebAPI/Utilities/StringParsing.cs:137-144 | null for blank input; `false` exactly for `0`/`false` and `true` exactly for `1`/`-1`/`true`, case ignored |
| StringParsing.ToBoolOfBoolText | WebAPI/Utilities/StringParsing.cs:141-142 | `bool.ToString()` reads back as the same value |
| StringParsing.ToBoolIgnoresCase | WebAPI/Utilities/StringParsing.cs:141-142 | lower-casing the input never changes the result |
| StringParsing.ToBoolUntrimmed | WebAPI/Utilities/StringParsing.cs:139-143 | only the blank test trims: `" 1 "` is null, not `true` |
| StringParsing.ToBoolTrimmed | WebAPI/Utilities/StringParsing.cs:135-144 | the documented reading: `false` exactly when the trimmed input is `0`/`false`, `true` exactly when it is `1`/`-1`/`true`, case ignored |
| StringParsing.ToBoolTrimmedIgnoresWhitespace | WebAPI/Utilities/StringParsing.cs:135 | surrounding whitespace never changes the documented reading, which agrees with `ToBool` on text without it; `" 1 "` is `true` |
| StringParsing.ToBoolOne | WebAPI/Utilities/StringParsing.cs:142 | `"1"` is `true` |
| StringParsing.ToBoolDigits | WebAPI/Utilities/StringParsing.cs:141-142 | `"0"` is `false` and `"-1"` is `true` |
| StringParsing.ToGuid | WebAPI/Utilities/StringParsing.cs:151-154 | defined exactly on `ShortGuid`-valid text, and then the GUID `ShortGuid.TryParse` reads |
| StringParsing.ToShortGuid | WebAPI/Utilities/StringParsing.cs:161-164 | the same parse, wrapped as a `ShortGuid` |
| StringParsing.ToGuidOfText | WebAPI/Utilities/StringParsing.cs:151-154 | a GUID's `D` text reads back as that GUID when `Guid.TryParse` does |
| StringParsing.ToGuidOfShortText | WebAPI/Utilities/StringParsing.cs:151-154 | a `ShortGuid`'s text reads back as its GUID |
| ApiAuthTokens.Decoded | WebAPI/ApiAuthToken.cs:36 | the lenient `Safe64` decoding of a raw token gives bytes exactly on well-formed text, and then the same bytes as strict mode |
| ApiAuthTokens.Parse | WebAPI/ApiAuthToken.cs:34-46 | null for text that does not decode or decodes to at most 16 bytes; on success, the ciphertext after the 16-byte salt decrypted to 32 bytes, and the token id is the first 16 |
| ApiAuthTokens.Plaintext | WebAPI/ApiAuthToken.cs:50-52 | the plaintext is 32 bytes: the token id, then zeros |
| ApiAuthTokens.ToString | WebAPI/ApiAuthToken.cs:48-64 | null exactly when encryption fails; otherwise URI-safe text that decodes to the salt followed by the ciphertext |
| ApiAuthTokens.ParseToString | WebAPI/ApiAuthToken.cs:34-64 | round trip: with a cipher whose decryption inverts its encryption and whose ciphertext is never empty, `Parse(ToString(t))` returns `t` |
| ApiAuthTokens.ParseUsesSaltAndCiphertext | WebAPI/ApiAuthToken.cs:37-45 | for salted bytes, parsing succeeds exactly when decryption under that salt gives 32 bytes, and the id is their first 16 |
| ApiAuthTokens.From | WebAPI/ApiAuthToken.cs:22-32 | null for no claim or a value that does not split into three `~` fields; otherwise a token exactly when id, group and user all parse, with the `Token` built from them |
| ApiAuthTokens.ToClaimAsWritten | WebAPI/ApiAuthToken.cs:66-69 | the claim as written splits into the id, an EMPTY middle field, and the member id |
| ApiAuthTokens.FromRejectsOwnClaim | WebAPI/ApiAuthToken.cs:22-32 | `From` rejects every claim that `ToClaim` as written produces |
| ApiAuthTokens.ToClaim | WebAPI/ApiAuthToken.cs:66-69 | the corrected claim splits into the id, `ShortGuid.Empty`'s text and the member id |
| ApiAuthTokens.FromToClaim | WebAPI/ApiAuthToken.cs:22-32 | round trip: `From` reads the corrected claim back as the token and a `Token` with that id, the member and the empty group |
| ApiAuthHandler.IsTokenValid | WebAPI/Utilities/Jwt/JwtAuthManager.cs:85-99 | throws a `SecurityTokenException` exactly on blank text; otherwise returns the decoded JWT, and it reports valid exactly when the decoded JWT exists and is signed with HMAC-SHA256 |
| ApiAuthHandler.FirstClaim | WebAPI/ApiAuthDefaults.cs:48 | `FirstOrDefault` on claims: null exactly when no claim has the type, otherwise the value of the first that has it |
| ApiAuthHandler.ResolveTokenPrincipal | WebAPI/ApiAuthDefaults.cs:59-67 | null exactly for an unknown token id; otherwise a principal of the scheme whose one claim is `ToClaim` as written (line 64 calls ApiAuthToken.cs:68) for the stored user, with its empty group field |
| ApiAuthHandler.ResolveTokenPrincipalCorrected | WebAPI/ApiAuthDefaults.cs:59-67 | the same decision with the corrected `ToClaim`: null exactly when `ResolveTokenPrincipal` is, otherwise one claim whose group field is `ShortGuid.Empty`'s text |
| ApiAuthHandler.CorrectedPrincipalReadable | WebAPI/Controllers/ApiControllerBase.cs:29 | `ApiAuthToken.From` reads the corrected principal's claim back as the token and its stored user |
| ApiAuthHandler.HeaderToken | WebAPI/ApiAuthDefaults.cs:42 | the header's last space-separated piece: null only for a null header, free of spaces, and a suffix that starts the header or follows a space |
| ApiAuthHandler.HandleJwtAuthenticate | WebAPI/ApiAuthDefaults.cs:40-58 | a blank bearer gives no result; it never throws a `SecurityTokenException`; the only exception is a `NullReferenceException`; a success carries one name-identifier claim, whose three `~` fields have an empty middle one |
| ApiAuthHandler.InvalidCarrierNoResult | WebAPI/ApiAuthDefaults.cs:45-46 | a JWT that is not valid gives no result (line 57) |
| ApiAuthHandler.MissingHashClaimThrows | WebAPI/ApiAuthDefaults.cs:48 | a valid JWT without a `Hash` claim throws `NullReferenceException` |
| ApiAuthHandler.ParseFailureFails | WebAPI/ApiAuthDefaults.cs:48-49 | a `Hash` claim that does not parse as a token fails |
| ApiAuthHandler.UnknownTokenFails | WebAPI/ApiAuthDefaults.cs:51-52 | a token id with no row in the token table fails |
| ApiAuthHandler.AllStagesSucceed | WebAPI/ApiAuthDefaults.cs:54 | when every stage passes, the result is a success whose one claim is `ToClaim` as written for the token and its stored user |
| ApiAuthHandler.SuccessIff | WebAPI/ApiAuthDefaults.cs:40-58 | success exactly when the bearer is present, the JWT is valid, the `Hash` claim exists and parses, and the id is known; the principal then carries `ToClaim` as written for the token and its stored user |
| ApiAuthHandler.LookupByIdOnly | WebAPI/ApiAuthDefaults.cs:61 | the outcome depends on the token table only through the token's own row |
| ApiAuthHandler.RevokedTokenFails | WebAPI/ApiAuthDefaults.cs:61-62 | removing the token's row turns any parsed token into a failure |
| ApiAuthHandler.IssuedTokenAuthenticates | WebAPI/ApiAuthToken.cs:48-64 | end to end: a header whose bearer JWT carries `ToString(t)` as its `Hash` claim authenticates when `t` is in the table, with `ToClaim` as written for `t` and its stored user |
| ApiAuthHandler.AuthenticatedPrincipalUnreadable | WebAPI/Controllers/ApiControllerBase.cs:29 | `ApiAuthToken.From`, which the controller base applies to `User`, rejects the claim of every principal the handler authenticates |
| ApiAuthHandler.BearerOfHeader | WebAPI/ApiAuthDefaults.cs:42 | the bearer after the header's last space is read back exactly |
| Text.Trim | WebAPI/Utilities/StringExtensions.cs:92-96 | the trimmed text is the input without leading and trailing whitespace: empty exactly for blank text, otherwise it starts and ends with a non-whitespace character |
| Text.Split | WebAPI/ApiAuthToken.cs:25 | `Split('~')` keeps empty pieces, none contains the separator, and joining them back gives the input |
| Text.JoinSplit | WebAPI/ApiAuthToken.cs:25 | splitting pieces joined by a separator they do not contain gives them back |
| Text.ParseIntText | WebAPI/Utilities/SimpleStringTemplate.cs:138-139 | `int.Parse` reads a number's decimal text back, or throws `OverflowException` outside 32 bits |
| StringExtensions.BlankIffTrimEmpty | WebAPI/Utilities/StringExtensions.cs:17 | null-or-blank means null or trimming to `""` |
| StringExtensions.IfNullOrBlank | WebAPI/Utilities/StringExtensions.cs:25 | the input, or the replacement exactly when the input is null or blank (and differs from it) |
| StringExtensions.IfNullOrBlankNotBlank | WebAPI/Utilities/StringExtensions.cs:25 | with a non-blank replacement the result is never blank, and a second application changes nothing |
| StringExtensions.IfNullOrBlankCall | WebAPI/Utilities/StringExtensions.cs:33 | the input or the function's value, and the input whenever the input is not blank |
| StringExtensions.IfNotNullOrBlank | WebAPI/Utilities/StringExtensions.cs:41 | the input or the function's value, and the input whenever the input is blank |
| StringExtensions.BlankBranchesComplement | WebAPI/Utilities/StringExtensions.cs:25-41 | the two function forms take opposite branches on every input, and the function form with a constant is the value form |
| StringExtensions.IsEquivalence | WebAPI/Utilities/StringExtensions.cs:49 | `Is` (ordinal, case ignored, null equal only to null) is an equivalence and, on non-empty operands, is `StartsAs` with equal lengths |
| StringExtensions.Has | WebAPI/Utilities/StringExtensions.cs:57-61 | false on a null or empty operand; otherwise true exactly when the lower-cased value occurs in the lower-cased string |
| StringExtensions.StartsAs | WebAPI/Utilities/StringExtensions.cs:69-73 | false on a null or empty operand; true only when the value occurs at the start, ignoring case, which implies `Has` |
| StringExtensions.EndsAs | WebAPI/Utilities/StringExtensions.cs:81-85 | false on a null or empty operand; true only when the value occurs at the end, ignoring case, which implies `Has` |
| StringExtensions.StartsAsEndsAs | WebAPI/Utilities/StringExtensions.cs:69-85 | a case-insensitive copy of the value at the start, or at the end, is found |
| StringExtensions.EncodeAttribute | WebAPI/Utilities/StringExtensions.cs:132-148 | the encoded text contains no `"` and no `<`, and is no shorter |
| StringExtensions.HtmlAttributeEncode | WebAPI/Utilities/StringExtensions.cs:132-148 | null stays null; otherwise attribute-safe text no shorter than the input |
| StringExtensions.DecodeEncodeAttribute | WebAPI/Utilities/StringExtensions.cs:136-146 | entity decoding inverts the encoding of `"`, `&` and `<` |
| StringExtensions.EncodeKeepsPlain | WebAPI/Utilities/StringExtensions.cs:132-148 | text without `"`, `&` or `<` is returned unchanged |
| StringExtensions.MakeUrlFriendly | WebAPI/Utilities/StringExtensions.cs:155-190 | null gives `""`; the output holds only ASCII letters, digits, `_` and `-` |
| StringExtensions.MakeUrlFriendlyIdempotent | WebAPI/Utilities/StringExtensions.cs:155-190 | applying it to its own output changes nothing |
| StringExtensions.UrlDropsApostrophe | WebAPI/Utilities/StringExtensions.cs:155-190 | an apostrophe is dropped without leaving a hyphen |
| StringExtensions.UrlTrailingBreaksDropped | WebAPI/Utilities/StringExtensions.cs:155-190 | a run of other characters at the end leaves no trailing hyphen |
| StringExtensions.UrlBreaksBecomeHyphen | WebAPI/Utilities/StringExtensions.cs:155-190 | a run of other characters between two letters or digits becomes one hyphen |
| StringExtensions.UrlSeparatorSuppressesHyphen | WebAPI/Utilities/StringExtensions.cs:155-190 | after an explicit `-` or `_`, such a run adds no further hyphen |
| StringExtensions.UrlAndExample | WebAPI/Utilities/StringExtensions.cs:155-190 | `"a & b"` becomes `"a-and-b"` |
| StringExtensions.UrlPlusExample | WebAPI/Utilities/StringExtensions.cs:155-190 | `"C++"` becomes `"Cplus-plus"` |
| StringExtensions.FixLineBreaks | WebAPI/Utilities/StringExtensions.cs:198-202 | null stays null; otherwise every `\r\n`, lone `\r` and lone `\n` becomes the replacement, in one left-to-right pass |
| StringExtensions.FixLineBreaksIsOnePass | WebAPI/Utilities/StringExtensions.cs:200-201 | the three chained `Replace` calls equal the one-pass line-break replacement |
| StringExtensions.FixLineBreaksIdempotent | WebAPI/Utilities/StringExtensions.cs:198-202 | normalising to `\r\n` twice is normalising once |
| StringExtensions.LineBreaksToNewline | WebAPI/Utilities/StringExtensions.cs:198-202 | normalising to `\n` leaves no `\r` |
| StringExtensions.TrimTo | WebAPI/Utilities/StringExtensions.cs:263-271 | null gives `""`; a negative maximum throws `ArgumentOutOfRangeException`; trimmed text that fits is returned; text too long is cut to its first `maxLen` characters followed by the ellipsis when the ellipsis is null or appended; an ellipsis fitted inside the limit gives exactly `maxLen` characters, the ellipsis cut to `maxLen` when it does not fit, else the start of the text then the whole ellipsis |
| StringExtensions.TrimToLength | WebAPI/Utilities/StringExtensions.cs:250-253 | with a non-negative maximum the result never exceeds it |
| StringExtensions.TrimToTooLong | WebAPI/Utilities/StringExtensions.cs:250-271 | text longer than the maximum is cut to exactly the maximum: the leading characters, or all but the last three and then `...` |
| StringExtensions.ToOrdinalString | WebAPI/Utilities/StringExtensions.cs:335-349 | the number's text followed by one of `st`, `nd`, `rd`, `th` |
| StringExtensions.OrdinalSuffixRule | WebAPI/Utilities/StringExtensions.cs:339-347 | for `n >= 0`: `th` for 11-13 mod 100, otherwise `st`/`nd`/`rd` for a last digit of 1/2/3, else `th` |
| StringExtensions.NegativeOrdinalTh | WebAPI/Utilities/StringExtensions.cs:339-347 | C#'s truncating `%` gives every negative number `th` |
| StringExtensions.OrdinalReadsBack | WebAPI/Utilities/StringExtensions.cs:335-349 | the number part of the ordinal parses back to the number |
| StringExtensions.CamelParts | WebAPI/Utilities/StringExtensions.cs:363-405 | the split gives non-empty parts made only of letters and digits (`char.IsLetterOrDigit`, Unicode up to U+00FF) |
| StringExtensions.CamelPartsLetters | WebAPI/Utilities/StringExtensions.cs:363-405 | the parts, concatenated, are exactly the input's letters and digits in order |
| StringExtensions.CamelCaseKeepsLettersAndDigits | WebAPI/Utilities/StringExtensions.cs:358-420 | case aside, camel case is the input's letters and digits, accented Latin-1 letters included |
| StringExtensions.ToCamelCase | WebAPI/Utilities/StringExtensions.cs:358-420 | null gives `""` |
| StringExtensions.CamelCaseJoinedExample | WebAPI/Utilities/StringExtensions.cs:358-420 | `"ThisTitle"` becomes `"thisTitle"` |
| StringExtensions.CamelCaseSpacedExample | WebAPI/Utilities/StringExtensions.cs:358-420 | `"This Title"` becomes `"thisTitle"` |
| StringExtensions.CamelCaseAccentExample | WebAPI/Utilities/StringExtensions.cs:367-400 | `"café"` stays `"café"` and `"Crème"` becomes `"crème"`: accented letters are not word breaks |
| StringExtensions.CamelCaseDigitExample | WebAPI/Utilities/StringExtensions.cs:414-418 | with the flag set, `"12"` becomes `"_12"` |
| StringExtensions.ToPascalCase | WebAPI/Utilities/StringExtensions.cs:426-430 | throws `IndexOutOfRangeException` exactly when the camel case is empty; otherwise the camel case with an upper-cased first character |
| StringExtensions.PascalThrowsIff | WebAPI/Utilities/StringExtensions.cs:426-430 | Pascal case throws exactly on null or on text without a letter or digit |
| StringExtensions.PascalCaseExample | WebAPI/Utilities/StringExtensions.cs:426-430 | `"ThisTitle"` stays `"ThisTitle"` |
| StringExtensions.AsciiFor | WebAPI/Utilities/StringExtensions.cs:443-498 | every replacement, from the table or kept, is printable ASCII, a space or a line break |
| StringExtensions.ToAscii | WebAPI/Utilities/StringExtensions.cs:437-502 | null stays null; otherwise the output contains only printable ASCII, spaces and line breaks |
| StringExtensions.AsciiTextKeepsFriendly | WebAPI/Utilities/StringExtensions.cs:437-502 | text that is already in that set is unchanged |
| StringExtensions.ToAsciiIdempotent | WebAPI/Utilities/StringExtensions.cs:437-502 | converting twice is converting once |
| StringExtensions.IsAscii | WebAPI/Utilities/StringExtensions.cs:509-514 | true exactly when no character is at or above U+0100 (null included) |
| StringExtensions.ToAsciiNoWideChar | WebAPI/Utilities/StringExtensions.cs:437-514 | `IsAscii` holds of every `ToAscii` output |
| StringExtensions.ExpiryIsStrictOrder | WebAPI/Utilities/StringExtensions.cs:521-524 | `IsExpired` is a strict total order on instants |
| CollectionExtensions.GetValue | WebAPI/Utilities/CollectionExtensions.cs:30-35 | the stored value, and the default for a null dictionary, a null key or a missing key (also lines 59-64 and 88-93) |
| CollectionExtensions.LookupValue | WebAPI/Utilities/CollectionExtensions.cs:117-121 | the default for a null lookup or key or an empty group; otherwise the first element with that key |
| CollectionExtensions.Group | WebAPI/Utilities/CollectionExtensions.cs:131-135 | a key's group is empty exactly when no element has the key; it holds every value stored under the key and nothing else (order and repeats in CollectionExtensions.GroupAppend) |
| CollectionExtensions.GetValues | WebAPI/Utilities/CollectionExtensions.cs:131-135 | null exactly for a null lookup, a null key or a missing key; otherwise a non-empty group holding exactly the key's values |
| CollectionExtensions.GroupAppend | WebAPI/Utilities/CollectionExtensions.cs:134 | a key's group is the in-order list of the values stored under the key, repeats kept: a pair added at the end adds its value at the end exactly when it has the key |
| CollectionExtensions.GetValuesAppend | WebAPI/Utilities/CollectionExtensions.cs:131-135 | `GetValues` keeps the lookup's order and multiplicity: one more pair at the end appends its value exactly when it has the key |
| CollectionExtensions.LookupValueIsFirstOfValues | WebAPI/Utilities/CollectionExtensions.cs:117-135 | the lookup `GetValue` is the first of `GetValues`, or the default when that is null |
| CollectionExtensions.GetOrCreateValue | WebAPI/Utilities/CollectionExtensions.cs:173-178 | a null dictionary throws; a present key gives its value and changes nothing; a missing key stores and returns the factory's value, leaving other keys as they were |
| CollectionExtensions.GetOrCreateThenGet | WebAPI/Utilities/CollectionExtensions.cs:173-178 | after get-or-create the key is present, `GetValue` returns the created value, and a second call changes nothing |
| CollectionExtensions.Join | WebAPI/Utilities/CollectionExtensions.cs:187-193 | null exactly for a null list; items that all print empty give `""` |
| CollectionExtensions.JoinAgreesWithStringJoin | WebAPI/Utilities/CollectionExtensions.cs:187-193 | when the first item prints non-empty, `Join` is `string.Join` of the item texts |
| CollectionExtensions.JoinSkipsLeadingEmpty | WebAPI/Utilities/CollectionExtensions.cs:191 | a leading item that prints empty adds no joiner: the joiner goes in only after something was written |
| CollectionExtensions.CompareRange | WebAPI/Utilities/CollectionExtensions.cs:219-230 | false for null arrays or, with 32-bit wrap-around, a range end past an array; within bounds, exactly whether the two ranges are equal; an index outside an array throws |
| CollectionExtensions.CompareArrays | WebAPI/Utilities/CollectionExtensions.cs:239-247 | true exactly when both arrays are non-null and element-wise equal |
| CollectionExtensions.ToDictionary | WebAPI/Utilities/CollectionExtensions.cs:276-287 | the keys are exactly the selected keys; each key maps to its first element (`FirstInWins`) or last (`LastInWins`); the duplicate callback fires, in order, exactly at positions whose key was seen before |
| Results.Describe | WebAPI/Utilities/Result.cs:37-41 | `ToString` is `"Success"` on success, otherwise the message, or `"Failure"` when the message is blank |
| Results.BoolRoundTrip | WebAPI/Utilities/Result.cs:22-30 | the `bool` conversion keeps the verdict, with message `"Success"`/`"Failure"` and default data (also lines 54-57, 81-84); `bool` to result and back is the identity, and a result survives the round trip exactly when it has the standard message and no data |
| Results.FromDataLikeBool | WebAPI/Utilities/Result.cs:59-63 | the data conversion succeeds exactly for non-null data and keeps it (also lines 86-90): it is the `bool` conversion of "data is not null", plus the data |
| Results.FromFailDataLikeFalse | WebAPI/Utilities/Result.cs:92-95 | the fail-data conversion always fails, described as `"Failure"`, keeping the fail data: it is `false` plus the fail data |
| Results.FromIntention | WebAPI/Utilities/Result.cs:32-35 | an intention converts with its verdict and message, and the data the target type has (also lines 65-68, 97-102) |
| Results.From | WebAPI/Utilities/Result.cs:177-179 | `Results.From` keeps the verdict and message, and the data the source type has |
| Results.FromRoundTrip | WebAPI/Utilities/Result.cs:32-179 | `From` and the intention conversion are inverse up to the fields the static type lacks, and exact at the two-parameter type |
| Results.FailureData | WebAPI/Utilities/Result.cs:160 | a failure whose Data and FailData are both the given object |
| Results.FailureDataError | WebAPI/Utilities/Result.cs:161 | the same, with the error as message |
| Results.FailureOf | WebAPI/Utilities/Result.cs:162 | a failure with message `"Failure"`, the Data and the FailData |
| Results.NewIntentionConverts | WebAPI/Utilities/Result.cs:107-108 | a new intention has the verdict as message and no data, and converts at every static type exactly as the `bool` does |
| Results.SuccessConverts | WebAPI/Utilities/Result.cs:156-157 | `Success(data)` succeeds with message `"Success"` and the data; as a `Result` it is `true`, and as a `Result<D>` holding data it is the data conversion |
| Results.FailureConverts | WebAPI/Utilities/Result.cs:159 | `Failure(error)` fails with the error as message and no data, and converts at every static type to `false` with that message |
| Results.FailureWith | WebAPI/Utilities/Result.cs:163 | a failure with the error, the Data and the FailData |
| Results.FailuresConvertToFailures | WebAPI/Utilities/Result.cs:156-163 | every failure factory converts to a failing result at every type, described by its error or `"Failure"`; success converts to success |
| Results.OnFail | WebAPI/Utilities/Result.cs:165-167 | the action's value on failure, the default otherwise |
| Results.OnSuccess | WebAPI/Utilities/Result.cs:168-169 | the action's value on success, the default otherwise |
| Results.OnFailCalls | WebAPI/Utilities/Result.cs:171-173 | the action-taking form calls the action once with the result on failure, never on success |
| Results.OnSuccessCalls | WebAPI/Utilities/Result.cs:174-175 | the action-taking form calls the action once on success, never on failure |
| Results.ExactlyOneHandlerRuns | WebAPI/Utilities/Result.cs:165-175 | of `OnFail` and `OnSuccess`, exactly one runs its action, exactly once |
| ValidatedResults.New | WebAPI/Utilities/ValidatedResult.cs:12-16 | the constructors keep every field and turn a null error list into an empty one (also lines 42-46, 74-78) |
| ValidatedResults.ToResult | WebAPI/Utilities/ValidatedResult.cs:80-87 | the downcast to `Result` keeps the verdict, message and the data its type has, and drops the errors (also line 48-51) |
| ValidatedResults.FromIntention | WebAPI/Utilities/ValidatedResult.cs:28-31 | a plain intention keeps its verdict, message and the data the target type has, with no validation errors (also lines 59-62, 100-105) |
| ValidatedResults.FromValidatedIntention | WebAPI/Utilities/ValidatedResult.cs:32-35 | a validated intention converts as for `Result` and carries its error list, empty for null (also lines 64-67, 107-112) |
| ValidatedResults.WithoutValidation | WebAPI/Utilities/ValidatedResult.cs:124-131 | each factory without a validation argument is the `Results` factory, and its conversion has no errors |
| ValidatedResults.FailureWithValidation | WebAPI/Utilities/ValidatedResult.cs:133-137 | a null validation sequence throws `ArgumentNullException`; otherwise a failure with the given data, fail data, message and errors |
| ValidatedResults.FailureValidationFails | WebAPI/Utilities/ValidatedResult.cs:133 | `Failure(error, validation)` throws exactly on a null sequence; otherwise a failure whose message is the error and which carries the list |
| ValidatedResults.ValidatedFailureConverts | WebAPI/Utilities/ValidatedResult.cs:28-35 | a validated failure converts to a failure with exactly its errors; read as a plain intention it loses them |
| ValidatedResults.OnFail | WebAPI/Utilities/ValidatedResult.cs:139-141 | the action's value on failure, the default otherwise |
| ValidatedResults.OnSuccess | WebAPI/Utilities/ValidatedResult.cs:142-143 | the action's value on success, the default otherwise |
| ValidatedResults.HandlersAgreeWithResults | WebAPI/Utilities/ValidatedResult.cs:139-143 | the validated handlers decide as the `Result` handlers do on the downcast |
| ValidatedResults.From | WebAPI/Utilities/ValidatedResult.cs:151-153 | the intention of a validated result keeps its verdict, message, error list and the data its static type has |
| ValidatedResults.AgreesWithResults | WebAPI/Utilities/ValidatedResult.cs:23-118 | the validated `bool`, data and fail-data conversions, the intention conversion, `NewIntention` and `From` equal their `Result` counterparts on the downcast result, with no validation errors (lines 23-26, 53-57, 89-98, 117-118) |
| ValidatedResults.FromResult | WebAPI/Utilities/ValidatedResult.cs:154-156 | the intention of a plain result has no validation list and converts with no errors |
| ValidatedResults.FromRoundTrip | WebAPI/Utilities/ValidatedResult.cs:32-35 | `From` and the conversion back are inverse up to the fields the type lacks, and the errors always survive |
| Validation.WithMessage | WebAPI/Utilities/ValidationError.cs:5-9 | message only: an empty, non-null property list |
| Validation.ForProperty | WebAPI/Utilities/ValidationError.cs:11-15 | the error names exactly that one property |
| Validation.ForProperties | WebAPI/Utilities/ValidationError.cs:17-21 | the `params` form keeps the array it is given, null included |
| Validation.ConstructorsAgree | WebAPI/Utilities/ValidationError.cs:5-21 | the fixed-arity constructors are the `params` one with zero or one properties |
| Validation.Required | WebAPI/Utilities/ValidationError.cs:26 | message `"{p} is required."` about `p` alone |
| Validation.Invalid | WebAPI/Utilities/ValidationError.cs:27 | message `"{p} has an invalid value."` about `p` alone |
| Validation.InvalidValue | WebAPI/Utilities/ValidationError.cs:28 | message `"'{badValue}' is not a valid value for {p}."` about `p` alone |
| Validation.SubjectRoundTrip | WebAPI/Utilities/ValidationError.cs:26-27 | the property name reads back from a `Required` or `Invalid` message, so each message determines the name |
| Validation.RequiredIsNotInvalid | WebAPI/Utilities/ValidationError.cs:26-27 | no `Required` message equals an `Invalid` message |
| Templates.Apply | WebAPI/Utilities/SimpleStringTemplate.cs:95-180 | only the reject action and the width actions (`int.Parse`) can throw, and a reject is a `FormatException` |
| Templates.Step | WebAPI/Utilities/SimpleStringTemplate.cs:207-237 | a step that does not consume a character changes state and strictly lowers the rank, so the guard at lines 235-236 never fires; a step consumes exactly when the table's transition does |
| Templates.Finish | WebAPI/Utilities/SimpleStringTemplate.cs:239-242 | end of input in any state with no terminal or else action is a `FormatException` |
| Templates.LineBreakInTagRejected | WebAPI/Utilities/SimpleStringTemplate.cs:114-115 | a line break in a key or width is a `FormatException` (also lines 136-137 and 152-153) |
| Templates.UnclosedRejected | WebAPI/Utilities/SimpleStringTemplate.cs:105-170 | input that ends inside a tag, or after a lone `{`, is a `FormatException` (lines 105, 122, 143, 158, 170) |
| Templates.WidthCharacters | WebAPI/Utilities/SimpleStringTemplate.cs:141 | a width stays in its state exactly on a digit or a leading `-`, which it buffers (also line 156) |
| Templates.WidthOtherRejected | WebAPI/Utilities/SimpleStringTemplate.cs:142 | any other character in a width is a `FormatException` (also line 157) |
| Templates.Escape | WebAPI/Utilities/SimpleStringTemplate.cs:92-99 | escaping doubles braces: no shorter, and the first character is a brace exactly when the text's is |
| Templates.RunEscaped | WebAPI/Utilities/SimpleStringTemplate.cs:91-99 | running the literal states over escaped text buffers exactly the text |
| Templates.ParseEscaped | WebAPI/Utilities/SimpleStringTemplate.cs:91-99 | an escaped text parses to one literal of that text |
| Templates.UnescapedCloseRejected | WebAPI/Utilities/SimpleStringTemplate.cs:108-110 | a lone `}` outside a tag is a `FormatException`, at the end (line 240) or before another character |
| Templates.LoneOpenAtEndRejected | WebAPI/Utilities/SimpleStringTemplate.cs:105 | a lone `{` at the end is a `FormatException` |
| Templates.ParseTag | WebAPI/Utilities/SimpleStringTemplate.cs:98-132 | `text{key}text` parses to literal, tag with that key, literal (the last one absent when empty) |
| Templates.ParseMinWidthTag | WebAPI/Utilities/SimpleStringTemplate.cs:135-148 | `{key,m}` parses to a tag with minimum width `m` in 32 bits, and throws `OverflowException` outside |
| Templates.ParseAlternates | WebAPI/Utilities/SimpleStringTemplate.cs:88-182 | a parsed template is non-empty and alternates literal, tag, literal, ..., starting with a literal |
| Templates.AmountsSpec | WebAPI/Utilities/SimpleStringTemplate.cs:297-317 | the pad and cut amounts cut exactly what the maximum width drops and pad exactly up to the width |
| Templates.FormatTagSpec | WebAPI/Utilities/SimpleStringTemplate.cs:297-323 | a formatted tag is `max(len, abs(minWidth))` wide, capped at `abs(maxWidth)`: its kept part (the end for a negative maximum) padded with spaces on the left for a positive minimum, else on the right |
| Templates.Render | WebAPI/Utilities/SimpleStringTemplate.cs:272-327 | formatting only literals concatenates them |
| Templates.RenderEscaped | WebAPI/Utilities/SimpleStringTemplate.cs:254-328 | round trip: parsing and formatting an escaped text gives the text back |
| Templates.FormatTagPlain | WebAPI/Utilities/SimpleStringTemplate.cs:297-323 | a tag with no widths is formatted as its argument's text |
| Templates.RenderTag | WebAPI/Utilities/SimpleStringTemplate.cs:254-328 | `text{key}text` parses, and formats to the texts around the key's argument |

## Left out

- Cryptography: `SuiteB.Encrypt`/`Decrypt` are a pair of cipher functions, and the round-trip lemmas assume decryption inverts encryption. `CryptoRandom` is the salt parameter. The 16 bytes after the token id in `Parse` (the unused group id) are not modelled.
- ApiAuthTokens.ParseToString: also assumes every ciphertext is non-empty, which holds for a block cipher applied to the 32-byte plaintext but which nothing in the code checks; with an empty ciphertext the token would be the 16-byte salt alone, which `Parse` rejects (ApiAuthToken.cs:37).
- JWT issuing and signature validation (`JwtAuthManager` beyond the blank test and algorithm check of `IsTokenValid`): the decoder is a parameter.
- ASP.NET plumbing: `AuthenticationHandler`, `AuthenticateResult` messages, the `Authorization` header lookup, dependency injection. Entity Framework is out too: the token table is a map from token id to user id.
- `ResultIntention.DataAs`/`FailAs`/`To(Type)`: reflection and `Convert.ChangeType`. An intention is typed by its target result, so a value of the wrong type never reaches a conversion.
- `default(D)` of a value type is modelled as null.
- Regular expressions, `Uri`, `WebUtility` and `string.Format` wrappers: `UrlEncode`/`UrlDecode`, `HtmlEncode`/`HtmlDecode`, `ToTextFromHtml`, `ToHtmlFromText`, `FormatWith`, `FormatAs` and the `Format(IStringTemplate, ...)` extension.
- `StringParsing`'s numeric, date and enum parsers: culture-dependent framework calls.
- Culture-sensitive and non-ASCII case mapping and UTF-16 surrogates. Case-insensitive comparison folds ASCII letters only.
- StringExtensions.CamelParts: `char.IsLetterOrDigit` and `char.IsUpper` follow the Unicode categories up to U+00FF only; a letter or digit above U+00FF (Greek, Cyrillic, CJK) is taken as a word break and dropped. The Unicode tables are not part of this model.
- StringExtensions.ToCamelCase: besides the classification of CamelParts, `ToLowerInvariant`/`ToUpperInvariant` map ASCII letters only, so `"ÉCOLE"` gives `"École"` where the source gives `"école"`.
- StringExtensions.CamelCaseKeepsLettersAndDigits: "letters and digits" is the classification of CamelParts, so it holds for characters up to U+00FF and says nothing of letters above it; "case aside" is ASCII case.
- `Guid.TryParse` is a parameter. The GUID byte order is a fixed permutation, and `Guid(byte[])` keeps the 16 bytes.
- The queue `GetValue` (`CollectionExtensions.cs:143-162`): a concurrent `TryTake` on a producer/consumer collection.
- `ForEach`: it only runs side effects and returns its input.
- CollectionExtensions.CompareRange: elements are compared with `==`, standing for `IEquatable<T>.Equals`; a null element of `left` inside the range, on which the source throws `NullReferenceException` (CollectionExtensions.cs:228), is not modelled.
- CollectionExtensions.CompareArrays: it calls CompareRange over the whole arrays (CollectionExtensions.cs:246), so the same null-element `NullReferenceException` is not modelled.
- The `ToDictionary` overloads with a key comparer and with element = source are the same loop with another equality and selector. A null source (`NullReferenceException`) and a null key (`ArgumentNullException` from `Dictionary`) are not modelled.
- The one-argument `GetValue` overloads pass `default(TValue)`, which is the `defaultVal` argument here. A null key in `GetOrCreateValue` is not modelled.
- `ToOrdinalString`'s optional number formatter: the number is written in invariant decimal.
- `SimpleStringTemplate.Format`: the `ArgumentResolver`, `ICustomFormatter` and `IFormattable` formatting together are one resolver parameter that gives a tag's text. A null `argFactory` (`ArgumentNullException`) is not modelled. The `Duplicates` enum's own definition is not part of this model; its two members appear as used.
- Templates.WidthCharacters: `char.IsDigit` in the width states (SimpleStringTemplate.cs:141, 156) is ASCII `0-9` here. A non-ASCII decimal digit ends in `FormatException` either way: in the source through `int.Parse`, in the model through the reject action.
- Templates.FormatTagSpec: the pad and cut arithmetic is unbounded, so the 32-bit overflow of `minWidth`/`maxWidth` near `int.MinValue` (`-p.Minwidth`) is not modelled.
- Validation.InvalidValue: `badValue` is given as the text of its `ToString()`.
- StringExtensions.ExpiryIsStrictOrder: `DateTime` is an abstract integer tick count.
- Text.Trim: `TrimWhitespace`'s two-step trim is one whitespace trim (`char.IsWhiteSpace`).

## Findings

| source | as written | input that shows it | evidently intended | confidence | as-written member | corrected member |
|---|---|---|---|---|---|---|
| WebAPI/ApiAuthToken.cs:68 | `ToClaim` writes `TokenId + "~" + "~" + memberId`, so the group field between the separators is empty | any token and member id: the claim splits into `[id, "", member]`, and `From` (lines 27-30) rejects it because `"".ToShortGuid()` is null | a group field `From` can read; the token carries no group, so `ShortGuid.Empty`'s text `"0"` | high (not executed) | ApiAuthTokens.ToClaimAsWritten, ApiAuthTokens.FromRejectsOwnClaim, ApiAuthHandler.AuthenticatedPrincipalUnreadable | ApiAuthTokens.ToClaim, ApiAuthTokens.FromToClaim, ApiAuthHandler.CorrectedPrincipalReadable |
| WebAPI/Utilities/StringParsing.cs:141-142 | the documentation (line 135) says whitespace is ignored, but `input`, not `trimmed`, is compared, so only the blank test trims | `" 1 "` and `" true "` give null | compare the trimmed text | medium (not executed) | StringParsing.ToBoolUntrimmed | StringParsing.ToBoolTrimmed, StringParsing.ToBoolTrimmedIgnoresWhitespace |
