/** `ShortGuid`: a GUID written in 26 characters of `Hex32` text, with `"0"`
    for the empty GUID, and read back from that form or from any GUID text the
    framework's `Guid.TryParse` accepts.

    `Guid.TryParse` is a parameter, `sysParse`, of the operations that call it.
 */
module ShortGuids {
  import opened Wrappers
  import opened Text
  import opened SystemGuid
  import Hex32
  import CodecText

  /** A `ShortGuid` wraps one GUID, its `Value`. */
  datatype ShortGuid = ShortGuid(value: Guid)

  /** `ShortGuid.Empty`. */
  const EmptyShort: ShortGuid := ShortGuid(Empty)

  /** The framework's `Guid.TryParse`. */
  type GuidParser = string -> Option<Guid>

  /** `Guid.TryParse` accepts no text of 26 `Hex32` characters: the GUID text
      forms it reads have 32, 36, 38 or 68 characters. */
  ghost predicate RejectsShortText(sysParse: GuidParser) {
    forall s: string :: |s| == 26 && (forall i :: 0 <= i < 26 ==> Hex32.IsAlphabetChar(s[i]))
      ==> sysParse(s).None?
  }

  /** `ShortGuid.TryParse`: null for null or blank text, the empty GUID for
      `"0"`, then whatever `Guid.TryParse` reads, and otherwise the lenient
      `Hex32` decoding when it gives exactly sixteen bytes. */
  function TryParse(value: Option<string>, sysParse: GuidParser): (r: Option<ShortGuid>)
    ensures IsNullOrBlank(value) ==> r.None?
    ensures value == Some("0") ==> r == Some(EmptyShort)
  {
    if IsNullOrBlank(value) then
      assert value != Some("0") by { NotBlankAt("0", 0); }
      None
    else if value.value == "0" then Some(EmptyShort)
    else
      match sysParse(value.value)
      case Some(g) => Some(ShortGuid(g))
      case None =>
        match Hex32.Decode(value.value, true)
        case Returns(Some(bytes)) => if |bytes| == 16 then Some(ShortGuid(Guid(bytes))) else None
        case _ => None
  }

  /** `ShortGuid.IsValid`. */
  predicate IsValid(value: Option<string>, sysParse: GuidParser) {
    TryParse(value, sysParse).Some?
  }

  /** `ShortGuid.ToString`: `"0"` for the empty GUID, otherwise the `Hex32`
      encoding of the sixteen bytes, 26 characters from `0-9a-v`. */
  function ToString(sg: ShortGuid): (r: string)
    ensures sg == EmptyShort <==> r == "0"
    ensures sg != EmptyShort ==> |r| == 26 && forall i :: 0 <= i < 26 ==> Hex32.IsAlphabetChar(r[i])
  {
    if sg.value == Empty then "0" else Hex32.Encode(sg.value.bytes)
  }

  /** `Equals(ShortGuid)` and `Equals(Guid)`: by `Value`. */
  predicate Equals(sg: ShortGuid, other: ShortGuid) {
    other.value == sg.value
  }

  predicate EqualsGuid(sg: ShortGuid, other: Guid) {
    other == sg.value
  }

  /** Two `ShortGuid`s are equal exactly when they are the same value, and a
      `ShortGuid` equals exactly the GUID it wraps. */
  lemma EqualsIsIdentity(x: ShortGuid, y: ShortGuid, g: Guid)
    ensures Equals(x, y) <==> x == y
    ensures EqualsGuid(x, g) <==> x == ShortGuid(g)
  {
  }

  /** `CompareTo(Guid)`: the ordering of the wrapped GUID against a bare one. */
  function CompareToGuid(sg: ShortGuid, other: Guid): (r: int)
    ensures -1 <= r <= 1
    ensures r == 0 <==> EqualsGuid(sg, other)
  {
    SystemGuid.CompareTo(sg.value, other)
  }

  /** `CompareTo(ShortGuid)`: the ordering of the wrapped GUIDs, which is 0
      exactly on equal values. */
  function CompareTo(sg: ShortGuid, other: ShortGuid): (r: int)
    ensures -1 <= r <= 1
    ensures r == 0 <==> Equals(sg, other)
    ensures r == CompareToGuid(sg, other.value)
  {
    CompareToGuid(sg, other.value)
  }

  /** `CompareTo` orders `ShortGuid`s as the framework orders the GUIDs
      they wrap: it is antisymmetric and transitive, a total order. */
  lemma {:induction false} CompareToOrder(x: ShortGuid, y: ShortGuid, z: ShortGuid)
    ensures CompareTo(x, y) == SystemGuid.CompareTo(x.value, y.value)
    ensures CompareTo(x, y) == -CompareTo(y, x)
    ensures CompareTo(x, y) < 0 && CompareTo(y, z) < 0 ==> CompareTo(x, z) < 0
  {
    CompareAntisymmetric(x.value, y.value);
    if CompareTo(x, y) < 0 && CompareTo(y, z) < 0 {
      CompareTransitive(x.value, y.value, z.value);
    }
  }

  // ---------------------------------------------------------------------------
  // Round trip

  lemma NotBlank(s: string)
    requires |s| > 0 && forall i :: 0 <= i < |s| ==> Hex32.IsAlphabetChar(s[i])
    ensures !IsBlank(s)
  {
    assert !IsWhiteSpace(s[0]);
  }

  /** `TryParse` reads back what `ToString` writes, provided the framework's
      parser does not claim the 26-character form. */
  lemma TryParseToString(sg: ShortGuid, sysParse: GuidParser)
    requires RejectsShortText(sysParse)
    ensures TryParse(Some(ToString(sg)), sysParse) == Some(sg)
  {
    if sg != EmptyShort {
      var s := ToString(sg);
      NotBlank(s);
      Hex32.DecodeEncode(sg.value.bytes, true);
      assert sysParse(s).None?;
    }
  }

  /** A non-empty `ShortGuid` is written as its bytes' `Hex32` text, which
      decodes back to them. */
  lemma ToStringDecodes(sg: ShortGuid)
    requires sg != EmptyShort
    ensures Hex32.Decode(ToString(sg), false) == Returns(Some(sg.value.bytes))
  {
    Hex32.DecodeEncode(sg.value.bytes, false);
  }

  /** Sixteen decoded bytes need exactly 26 significant characters. */
  lemma DecodedSixteen(n: nat)
    requires Hex32.ValidLength(n)
    ensures Hex32.DecodedLength(n) == 16 <==> n == 26
  {
    if Hex32.DecodedLength(n) == 16 {
      var q := n / 8;
      assert 5 * q <= 16 && 16 - 5 * q <= 4;
      assert q == 3;
    }
  }

  /** Where neither the blank and `"0"` cases nor the framework parser apply,
      `TryParse` accepts exactly the well-formed `Hex32` texts of 26
      significant characters. */
  lemma TryParseHex32(s: string, sysParse: GuidParser)
    requires !IsBlank(s) && s != "0" && sysParse(s).None?
    ensures IsValid(Some(s), sysParse)
      <==> Hex32.WellFormed(s) && |CodecText.Significant(s)| == 26
  {
    Hex32.DecodeSucceedsIff(s, true);
    if Hex32.WellFormed(s) {
      DecodedSixteen(|CodecText.Significant(s)|);
    }
  }
}
