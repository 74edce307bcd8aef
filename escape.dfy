/**
 * The escapers: each copies its input byte by byte, replacing the bytes it is
 * responsible for with their character references. The three public functions
 * differ only in which bytes they replace.
 */
module Escape {
  import opened Bytes

  /** `escape_text`, `escape_attribute` and `escape_all_quotes`, by the set each escapes. */
  datatype Variant = Text | Attribute | AllQuotes

  /** The bytes `map_u8` has a spelling for. */
  predicate IsSpecial(b: byte)
  {
    b == AMPERSAND || b == LESS_THAN || b == GREATER_THAN || b == QUOTE || b == APOSTROPHE
  }

  /** The byte set of each variant: `&`, `<`, `>`, then `"` for attributes, then `'` as well. */
  predicate Escapes(v: Variant, b: byte)
  {
    b == AMPERSAND || b == LESS_THAN || b == GREATER_THAN ||
    (v != Text && b == QUOTE) || (v == AllQuotes && b == APOSTROPHE)
  }

  /**
   * `map_u8`: the reference that spells a special byte. The source panics on any
   * other byte; the precondition makes that arm unreachable, and every caller
   * below is checked against it.
   */
  function MapU8(b: byte): (r: seq<byte>)
    requires IsSpecial(b)
    // A reference: `&`, a name, `;`, with no special byte after the `&`.
    ensures 4 <= |r| && r[0] == AMPERSAND && r[|r| - 1] == SEMICOLON
    ensures forall k | 1 <= k < |r| :: !IsSpecial(r[k])
  {
    if b == AMPERSAND then [AMPERSAND, 0x61, 0x6D, 0x70, SEMICOLON]            // &amp;
    else if b == LESS_THAN then [AMPERSAND, 0x6C, 0x74, SEMICOLON]             // &lt;
    else if b == GREATER_THAN then [AMPERSAND, 0x67, 0x74, SEMICOLON]          // &gt;
    else if b == QUOTE then [AMPERSAND, 0x71, 0x75, 0x6F, 0x74, SEMICOLON]     // &quot;
    else [AMPERSAND, 0x61, 0x70, 0x6F, 0x73, SEMICOLON]                        // &apos;
  }

  /** What one input byte becomes. */
  function EscapedByte(v: Variant, b: byte): seq<byte>
  {
    if Escapes(v, b) then MapU8(b) else [b]
  }

  /** The escaped form of `raw` under variant `v`. */
  function Escaped(v: Variant, raw: seq<byte>): seq<byte>
  {
    if raw == [] then [] else EscapedByte(v, raw[0]) + Escaped(v, raw[1..])
  }

  /** Escaping distributes over concatenation. */
  lemma {:induction false} EscapedAppend(v: Variant, a: seq<byte>, b: seq<byte>)
    ensures Escaped(v, a + b) == Escaped(v, a) + Escaped(v, b)
  {
    if a != [] {
      assert (a + b)[1..] == a[1..] + b;
      EscapedAppend(v, a[1..], b);
    } else {
      assert a + b == b;
    }
  }

  /** The `escape!` loop: copies `raw`, replacing every byte of the variant's set. */
  method EscapeBytes(raw: seq<byte>, v: Variant) returns (output: seq<byte>)
    ensures output == Escaped(v, raw)
  {
    output := [];
    for i := 0 to |raw|
      invariant output == Escaped(v, raw[..i])
    {
      var c := raw[i];
      if Escapes(v, c) {
        output := output + MapU8(c);
      } else {
        output := output + [c];
      }
      assert Escaped(v, [c]) == EscapedByte(v, c);
      EscapedAppend(v, raw[..i], [c]);
      assert raw[..i + 1] == raw[..i] + [c];
    }
    assert raw[..|raw|] == raw;
  }

  /** `escape_text`: escapes `&`, `<` and `>`. */
  method EscapeText(raw: seq<byte>) returns (output: seq<byte>)
    ensures output == Escaped(Text, raw)
  {
    output := EscapeBytes(raw, Text);
  }

  /** `escape_attribute`: escapes `&`, `<`, `>` and `"`. */
  method EscapeAttribute(raw: seq<byte>) returns (output: seq<byte>)
    ensures output == Escaped(Attribute, raw)
  {
    output := EscapeBytes(raw, Attribute);
  }

  /** `escape_all_quotes`: escapes `&`, `<`, `>`, `"` and `'`. */
  method EscapeAllQuotes(raw: seq<byte>) returns (output: seq<byte>)
    ensures output == Escaped(AllQuotes, raw)
  {
    output := EscapeBytes(raw, AllQuotes);
  }

  // ---------------------------------------------------------------------------
  // Properties

  /** Input with nothing from the variant's set comes out unchanged. */
  lemma {:induction false} UnselectedUnchanged(v: Variant, raw: seq<byte>)
    requires forall k | 0 <= k < |raw| :: !Escapes(v, raw[k])
    ensures Escaped(v, raw) == raw
  {
    if raw != [] {
      UnselectedUnchanged(v, raw[1..]);
      assert raw == [raw[0]] + raw[1..];
    }
  }

  /** How many bytes one input byte grows by: 4 for `&`, 3 for `<` and `>`, 5 for an escaped quote. */
  function Growth(v: Variant, b: byte): nat
  {
    if b == AMPERSAND then 4
    else if b == LESS_THAN || b == GREATER_THAN then 3
    else if Escapes(v, b) then 5
    else 0
  }

  /** The growth of a whole input, counted by byte value: 4 per `&`, 3 per `<` or `>`, 5 per escaped quote. */
  function GrowthOf(v: Variant, m: multiset<byte>): int
  {
    4 * m[AMPERSAND] + 3 * (m[LESS_THAN] + m[GREATER_THAN]) +
    (if v == Text then 0 else 5 * m[QUOTE]) + (if v == AllQuotes then 5 * m[APOSTROPHE] else 0)
  }

  lemma GrowthOfStep(v: Variant, raw: seq<byte>)
    requires raw != []
    ensures GrowthOf(v, multiset(raw)) == Growth(v, raw[0]) + GrowthOf(v, multiset(raw[1..]))
  {
    assert raw == [raw[0]] + raw[1..];
    assert multiset(raw) == multiset{raw[0]} + multiset(raw[1..]);
  }

  /** The escaped length is the input's length plus the growth of its bytes. */
  lemma {:induction false} EscapedLength(v: Variant, raw: seq<byte>)
    ensures |Escaped(v, raw)| == |raw| + GrowthOf(v, multiset(raw))
  {
    if raw != [] {
      EscapedLength(v, raw[1..]);
      GrowthOfStep(v, raw);
      assert |EscapedByte(v, raw[0])| == 1 + Growth(v, raw[0]);
    }
  }

  /**
   * No byte of the variant's set appears in the output except `&`, which every
   * reference begins with; `<` and `>` never appear at all. That each `&` does open
   * a reference is `AmpersandOpensSpelling`.
   */
  lemma {:induction false} NoRawSpecials(v: Variant, raw: seq<byte>)
    ensures forall k | 0 <= k < |Escaped(v, raw)| ::
      var b := Escaped(v, raw)[k];
      b != LESS_THAN && b != GREATER_THAN && (b == AMPERSAND || !Escapes(v, b))
  {
    if raw != [] {
      NoRawSpecials(v, raw[1..]);
      var head := EscapedByte(v, raw[0]);
      var out := Escaped(v, raw);
      assert out == head + Escaped(v, raw[1..]);
      forall k | 0 <= k < |out|
        ensures out[k] != LESS_THAN && out[k] != GREATER_THAN && (out[k] == AMPERSAND || !Escapes(v, out[k]))
      {
        if k >= |head| {
          assert out[k] == Escaped(v, raw[1..])[k - |head|];
        }
      }
    }
  }

  /** At `k` of `out` begins the reference `map_u8` spells for some byte of the variant's set. */
  predicate SpellingAt(v: Variant, out: seq<byte>, k: nat)
  {
    exists b: byte | Escapes(v, b) :: k + |MapU8(b)| <= |out| && out[k..k + |MapU8(b)|] == MapU8(b)
  }

  /** Every `&` of the output opens the reference of a byte of the variant's set. */
  lemma AmpersandOpensSpelling(v: Variant, raw: seq<byte>)
    ensures forall k | 0 <= k < |Escaped(v, raw)| && Escaped(v, raw)[k] == AMPERSAND ::
      SpellingAt(v, Escaped(v, raw), k)
  {
    forall k | 0 <= k < |Escaped(v, raw)| && Escaped(v, raw)[k] == AMPERSAND
      ensures SpellingAt(v, Escaped(v, raw), k)
    {
      AmpersandAt(v, raw, k);
    }
  }

  /** The same, for one `&`, by induction on the input. */
  lemma {:induction false} AmpersandAt(v: Variant, raw: seq<byte>, k: nat)
    requires k < |Escaped(v, raw)| && Escaped(v, raw)[k] == AMPERSAND
    ensures SpellingAt(v, Escaped(v, raw), k)
  {
    var head := EscapedByte(v, raw[0]);
    var tail := Escaped(v, raw[1..]);
    assert Escaped(v, raw) == head + tail;
    if k < |head| {
      HeadSpelling(v, raw[0], tail, k);
    } else {
      assert tail[k - |head|] == Escaped(v, raw)[k];
      AmpersandAt(v, raw[1..], k - |head|);
      TailSpelling(v, head, tail, k);
    }
  }

  /** An `&` within the first byte's output is the start of that byte's reference. */
  lemma HeadSpelling(v: Variant, b: byte, tail: seq<byte>, k: nat)
    requires k < |EscapedByte(v, b)| && (EscapedByte(v, b) + tail)[k] == AMPERSAND
    ensures SpellingAt(v, EscapedByte(v, b) + tail, k)
  {
    var head := EscapedByte(v, b);
    assert head[k] == AMPERSAND;
    assert Escapes(v, b) && k == 0;
    assert (head + tail)[0..|head|] == head;
  }

  /** A reference that begins in the rest of the output still begins there after a prefix. */
  lemma TailSpelling(v: Variant, head: seq<byte>, tail: seq<byte>, k: nat)
    requires |head| <= k && SpellingAt(v, tail, k - |head|)
    ensures SpellingAt(v, head + tail, k)
  {
    var t := k - |head|;
    var b :| Escapes(v, b) && t + |MapU8(b)| <= |tail| && tail[t..t + |MapU8(b)|] == MapU8(b);
    SliceAfter(head, tail, t, |MapU8(b)|);
  }

  /** A slice of `tail` is the same slice of `head + tail`, shifted by `|head|`. */
  lemma SliceAfter(head: seq<byte>, tail: seq<byte>, t: nat, n: nat)
    requires t + n <= |tail|
    ensures (head + tail)[|head| + t..|head| + t + n] == tail[t..t + n]
  {
  }

  /** Two variants give the same output on input whose bytes they treat alike. */
  lemma {:induction false} VariantsAgree(v: Variant, w: Variant, raw: seq<byte>)
    requires forall k | 0 <= k < |raw| :: Escapes(v, raw[k]) == Escapes(w, raw[k])
    ensures Escaped(v, raw) == Escaped(w, raw)
  {
    if raw != [] {
      VariantsAgree(v, w, raw[1..]);
    }
  }

  /**
   * The sets are nested: text escaping leaves both quotes alone, attribute escaping
   * leaves `'` alone; so without `"` the first two agree, and without `'` the last two.
   */
  lemma NestedSets(raw: seq<byte>)
    ensures (forall k | 0 <= k < |raw| :: raw[k] != QUOTE) ==> Escaped(Text, raw) == Escaped(Attribute, raw)
    ensures (forall k | 0 <= k < |raw| :: raw[k] != APOSTROPHE) ==> Escaped(Attribute, raw) == Escaped(AllQuotes, raw)
  {
    if forall k | 0 <= k < |raw| :: raw[k] != QUOTE {
      VariantsAgree(Text, Attribute, raw);
    }
    if forall k | 0 <= k < |raw| :: raw[k] != APOSTROPHE {
      VariantsAgree(Attribute, AllQuotes, raw);
    }
  }

  /** Escaping is not idempotent: every variant turns `&amp;` into `&amp;amp;`. */
  lemma NotIdempotent(v: Variant)
    ensures var amp := Escaped(v, [AMPERSAND]);
      amp == [AMPERSAND, 0x61, 0x6D, 0x70, SEMICOLON] &&
      Escaped(v, amp) == [AMPERSAND, 0x61, 0x6D, 0x70, SEMICOLON, 0x61, 0x6D, 0x70, SEMICOLON] &&
      Escaped(v, amp) != amp
  {
    var amp := [AMPERSAND, 0x61, 0x6D, 0x70, SEMICOLON];
    assert Escaped(v, [AMPERSAND]) == amp;
    assert amp == [AMPERSAND] + [0x61, 0x6D, 0x70, SEMICOLON];
    EscapedAppend(v, [AMPERSAND], [0x61, 0x6D, 0x70, SEMICOLON]);
    UnselectedUnchanged(v, [0x61, 0x6D, 0x70, SEMICOLON]);
  }
}
