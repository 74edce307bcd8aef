/**
 * The escapers' unit tests from src/escape.rs, each proved from the general
 * properties. Inputs and outputs are written as bytes, with the text they spell beside them.
 *
 * As for the decoder's tests, each input is a parameter fixed by the precondition
 * rather than a literal in the conclusion: `Escaped` applied to a literal is
 * evaluated by unfolding, byte by byte, which costs more than the general lemmas.
 * The sentence of the quoting tests is assembled from its parts for the same reason.
 */
module EscapeExamples {
  import opened Bytes
  import opened Escape

  /** The basic corpus, under every variant: `` and `clean` are unchanged. */
  lemma CleanUnchanged(v: Variant, s: seq<byte>)
    requires s == [] || s == [0x63, 0x6C, 0x65, 0x61, 0x6E] // clean
    ensures Escaped(v, s) == s
  {
    UnselectedUnchanged(v, s);
  }

  /** `< >` becomes `&lt; &gt;` under every variant. */
  lemma AngleBrackets(v: Variant, s: seq<byte>, space: seq<byte>)
    requires space == [0x20]
    requires s == [LESS_THAN] + (space + [GREATER_THAN]) // < >
    ensures Escaped(v, s) == [0x26, 0x6C, 0x74, 0x3B] + space + [0x26, 0x67, 0x74, 0x3B] // &lt; &gt;
  {
    EscapedAppend(v, [LESS_THAN], space + [GREATER_THAN]);
    EscapedAppend(v, space, [GREATER_THAN]);
    UnselectedUnchanged(v, space);
  }

  /** `&amp;` becomes `&amp;amp;` under every variant: the case `Escape.NotIdempotent` proves. */
  lemma AmpersandAgain(v: Variant, s: seq<byte>, name: seq<byte>)
    requires name == [0x61, 0x6D, 0x70, 0x3B] // amp;
    requires s == [AMPERSAND] + name // &amp;
    ensures Escaped(v, s) == [0x26, 0x61, 0x6D, 0x70, 0x3B] + name // &amp;amp;
  {
    NotIdempotent(v);
  }

  /** The sentence `He said, "That's mine."`, cut at its quotes. */
  predicate Sentence(s: seq<byte>, said: seq<byte>, that: seq<byte>, mine: seq<byte>)
  {
    said == [0x48, 0x65, 0x20, 0x73, 0x61, 0x69, 0x64, 0x2C, 0x20] && // "He said, "
    that == [0x54, 0x68, 0x61, 0x74] &&                             // "That"
    mine == [0x73, 0x20, 0x6D, 0x69, 0x6E, 0x65, 0x2E] &&           // "s mine."
    s == said + ([QUOTE] + (that + ([APOSTROPHE] + (mine + [QUOTE]))))
  }

  /** A piece without special bytes is copied, and what follows it is escaped on its own. */
  lemma PlainStep(v: Variant, piece: seq<byte>, rest: seq<byte>)
    requires Plain(piece)
    ensures Escaped(v, piece + rest) == piece + Escaped(v, rest)
  {
    EscapedAppend(v, piece, rest);
    UnselectedUnchanged(v, piece);
  }

  /** One byte, then what follows it. */
  lemma ByteStep(v: Variant, b: byte, rest: seq<byte>)
    ensures Escaped(v, [b] + rest) == EscapedByte(v, b) + Escaped(v, rest)
  {
    assert ([b] + rest)[1..] == rest;
  }

  predicate Plain(piece: seq<byte>)
  {
    forall k | 0 <= k < |piece| :: !IsSpecial(piece[k])
  }

  /** Text around two double quotes and an apostrophe: only the three marks can change. */
  lemma QuotedPieces(v: Variant, said: seq<byte>, that: seq<byte>, mine: seq<byte>)
    requires Plain(said) && Plain(that) && Plain(mine)
    ensures Escaped(v, said + ([QUOTE] + (that + ([APOSTROPHE] + (mine + [QUOTE]))))) ==
      said + (EscapedByte(v, QUOTE) + (that + (EscapedByte(v, APOSTROPHE) + (mine + EscapedByte(v, QUOTE)))))
  {
    var r4 := mine + [QUOTE];
    var r3 := [APOSTROPHE] + r4;
    var r2 := that + r3;
    var r1 := [QUOTE] + r2;
    PlainStep(v, said, r1);
    ByteStep(v, QUOTE, r2);
    PlainStep(v, that, r3);
    ByteStep(v, APOSTROPHE, r4);
    PlainStep(v, mine, [QUOTE]);
    ByteStep(v, QUOTE, []);
    assert [QUOTE] + [] == [QUOTE];
  }

  /** The pieces between the quotes are copied by every variant. */
  lemma SentencePieces(v: Variant, s: seq<byte>, said: seq<byte>, that: seq<byte>, mine: seq<byte>)
    requires Sentence(s, said, that, mine)
    ensures Escaped(v, s) ==
      said + (EscapedByte(v, QUOTE) + (that + (EscapedByte(v, APOSTROPHE) + (mine + EscapedByte(v, QUOTE)))))
  {
    assert Plain(said) && Plain(that) && Plain(mine);
    QuotedPieces(v, said, that, mine);
  }

  /** `escape_text` leaves both quotes alone. */
  lemma TextQuotes(s: seq<byte>, said: seq<byte>, that: seq<byte>, mine: seq<byte>)
    requires Sentence(s, said, that, mine)
    ensures Escaped(Text, s) == s
  {
    SentencePieces(Text, s, said, that, mine);
  }

  /** `escape_attribute` escapes the double quotes only: `He said, &quot;That's mine.&quot;`. */
  lemma AttributeQuotes(s: seq<byte>, said: seq<byte>, that: seq<byte>, mine: seq<byte>)
    requires Sentence(s, said, that, mine)
    ensures Escaped(Attribute, s) ==
      said + ([0x26, 0x71, 0x75, 0x6F, 0x74, 0x3B] + (that + ([APOSTROPHE] + (mine + [0x26, 0x71, 0x75, 0x6F, 0x74, 0x3B]))))
  {
    SentencePieces(Attribute, s, said, that, mine);
  }

  /** `escape_all_quotes` escapes both: `He said, &quot;That&apos;s mine.&quot;`. */
  lemma AllQuotesQuotes(s: seq<byte>, said: seq<byte>, that: seq<byte>, mine: seq<byte>)
    requires Sentence(s, said, that, mine)
    ensures Escaped(AllQuotes, s) ==
      said + ([0x26, 0x71, 0x75, 0x6F, 0x74, 0x3B] + (that + ([0x26, 0x61, 0x70, 0x6F, 0x73, 0x3B] +
      (mine + [0x26, 0x71, 0x75, 0x6F, 0x74, 0x3B]))))
  {
    SentencePieces(AllQuotes, s, said, that, mine);
  }
}
