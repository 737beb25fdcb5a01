/** The part of `System.Guid` the modelled code relies on: the 16 bytes of
    `ToByteArray`, the empty GUID, equality, the ordering of `CompareTo` and
    the default (`"D"`) text form. Parsing GUID text (`Guid.TryParse`) belongs
    to the framework and is a parameter wherever it is used.
 */
module SystemGuid {
  import opened Wrappers

  /** Exactly sixteen bytes. */
  type Bytes16 = b: seq<byte> | |b| == 16 witness [0, 0, 0, 0, 0, 0, 0, 0, 0, 0, 0, 0, 0, 0, 0, 0]

  /** A GUID, as the sixteen bytes `ToByteArray` returns: the 32-bit field `a`
      and the 16-bit fields `b` and `c` little-endian, then the bytes `d` to
      `k`. */
  datatype Guid = Guid(bytes: Bytes16)

  /** `Guid.Empty`: all zero. */
  const Empty: Guid := Guid([0, 0, 0, 0, 0, 0, 0, 0, 0, 0, 0, 0, 0, 0, 0, 0])

  // ---------------------------------------------------------------------------
  // Ordering

  /** Where the `i`-th most significant byte of a GUID sits in its byte array:
      `a`, `b` and `c` read big-endian, then `d` to `k` in order. */
  function KeyIndex(i: nat): (j: nat)
    requires i < 16
    ensures j < 16 && KeyIndexBack(j) == i
  {
    if i < 4 then 3 - i
    else if i < 6 then 9 - i
    else if i < 8 then 13 - i
    else i
  }

  /** The inverse of `KeyIndex` (the permutation is its own inverse). */
  function KeyIndexBack(j: nat): nat
    requires j < 16
  {
    if j < 4 then 3 - j
    else if j < 6 then 9 - j
    else if j < 8 then 13 - j
    else j
  }

  /** The bytes of a GUID from most to least significant: the order
      `CompareTo` compares in and the text form writes in. */
  function OrderKey(g: Guid): (key: seq<byte>)
    ensures |key| == 16
    ensures forall i :: 0 <= i < 16 ==> key[i] == g.bytes[KeyIndex(i)]
  {
    seq(16, i requires 0 <= i < 16 => g.bytes[KeyIndex(i)])
  }

  /** Different GUIDs have different order keys. */
  lemma OrderKeyInjective(x: Guid, y: Guid)
    requires OrderKey(x) == OrderKey(y)
    ensures x == y
  {
    forall j | 0 <= j < 16 ensures x.bytes[j] == y.bytes[j] {
      assert OrderKey(x)[KeyIndexBack(j)] == OrderKey(y)[KeyIndexBack(j)];
    }
    assert x.bytes == y.bytes;
  }

  /** Unsigned lexicographic comparison of two byte strings of one length:
      -1, 0 or 1. */
  function Lex(a: seq<byte>, b: seq<byte>): (r: int)
    requires |a| == |b|
    ensures -1 <= r <= 1
    ensures r == 0 <==> a == b
    decreases |a|
  {
    if |a| == 0 then 0
    else if a[0] < b[0] then -1
    else if a[0] > b[0] then 1
    else
      assert a == [a[0]] + a[1..] && b == [b[0]] + b[1..];
      Lex(a[1..], b[1..])
  }

  lemma {:induction false} LexAntisymmetric(a: seq<byte>, b: seq<byte>)
    requires |a| == |b|
    ensures Lex(a, b) == -Lex(b, a)
    decreases |a|
  {
    if |a| > 0 && a[0] == b[0] {
      LexAntisymmetric(a[1..], b[1..]);
    }
  }

  lemma {:induction false} LexTransitive(a: seq<byte>, b: seq<byte>, c: seq<byte>)
    requires |a| == |b| == |c|
    requires Lex(a, b) < 0 && Lex(b, c) < 0
    ensures Lex(a, c) < 0
    decreases |a|
  {
    if a[0] == b[0] && b[0] == c[0] {
      LexTransitive(a[1..], b[1..], c[1..]);
    }
  }

  /** `Guid.CompareTo`: the fields `a`, `b`, `c` as unsigned numbers, then the
      bytes `d` to `k`, giving -1, 0 or 1. */
  function CompareTo(x: Guid, y: Guid): (r: int)
    ensures -1 <= r <= 1
    ensures r == 0 <==> x == y
  {
    var r := Lex(OrderKey(x), OrderKey(y));
    assert r == 0 ==> x == y by {
      if r == 0 { OrderKeyInjective(x, y); }
    }
    r
  }

  /** Swapping the operands negates the comparison. */
  lemma CompareAntisymmetric(x: Guid, y: Guid)
    ensures CompareTo(x, y) == -CompareTo(y, x)
  {
    LexAntisymmetric(OrderKey(x), OrderKey(y));
  }

  /** The ordering is transitive. */
  lemma CompareTransitive(x: Guid, y: Guid, z: Guid)
    requires CompareTo(x, y) < 0 && CompareTo(y, z) < 0
    ensures CompareTo(x, z) < 0
  {
    LexTransitive(OrderKey(x), OrderKey(y), OrderKey(z));
  }

  // ---------------------------------------------------------------------------
  // Text

  /** A lower-case hexadecimal digit. */
  predicate IsHexDigit(c: char) {
    '0' <= c <= '9' || 'a' <= c <= 'f'
  }

  function HexDigit(v: byte): (c: char)
    requires v < 16
    ensures IsHexDigit(c)
  {
    if v < 10 then ('0' as int + v as int) as char else ('a' as int + (v as int - 10)) as char
  }

  /** Two lower-case hexadecimal digits per byte, high nibble first. */
  function Hex(bs: seq<byte>): (r: string)
    ensures |r| == 2 * |bs|
    ensures forall i :: 0 <= i < |r| ==> IsHexDigit(r[i])
  {
    if |bs| == 0 then "" else [HexDigit(bs[0] >> 4), HexDigit(bs[0] & 0x0f)] + Hex(bs[1..])
  }

  /** `Guid.ToString()`: the `"D"` form, 32 lower-case hexadecimal digits of
      the order key in groups of 8, 4, 4, 4 and 12 separated by hyphens. */
  function Text(g: Guid): (r: string)
    ensures |r| == 36
    ensures r[8] == '-' && r[13] == '-' && r[18] == '-' && r[23] == '-'
    ensures forall i :: 0 <= i < 36 && i != 8 && i != 13 && i != 18 && i != 23 ==> IsHexDigit(r[i])
  {
    var k := OrderKey(g);
    Hex(k[..4]) + "-" + Hex(k[4..6]) + "-" + Hex(k[6..8]) + "-" + Hex(k[8..10]) + "-" + Hex(k[10..])
  }
}
