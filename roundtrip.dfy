/**
 * The escapers and the decoder fit together: decoding what any escaper produced
 * gives back the original bytes.
 */
module RoundTrip {
  import opened Bytes
  import opened Entities
  import opened Escape
  import Unescape
  import UnescapeProperties

  /** Each spelling `map_u8` produces is a key of the table that stands for the byte it spells. */
  lemma SpellingIsKey(b: byte)
    requires IsSpecial(b)
    ensures MapU8(b) in ENTITIES && ENTITIES[MapU8(b)] == [b]
  {
    SampleEntry(MapU8(b));
  }

  /** One escaped byte, then anything, decodes to that byte, then the decoded rest. */
  lemma DecodeEscapedByte(v: Variant, b: byte, rest: seq<byte>)
    ensures Unescape.Decode(EscapedByte(v, b) + rest) == [b] + Unescape.Decode(rest)
  {
    if Escapes(v, b) {
      SpellingIsKey(b);
      UnescapeProperties.DecodeKeyPrefix(MapU8(b), rest);
    } else {
      UnescapeProperties.DecodePlainPrefix([b], rest);
    }
  }

  /** Decoding undoes every escaper. */
  lemma {:induction false} DecodeEscaped(v: Variant, raw: seq<byte>)
    ensures Unescape.Decode(Escaped(v, raw)) == raw
  {
    if raw == [] {
      assert Unescape.Decode([]) == [];
    } else {
      DecodeEscaped(v, raw[1..]);
      DecodeEscapedByte(v, raw[0], Escaped(v, raw[1..]));
      assert raw == [raw[0]] + raw[1..];
    }
  }
}
