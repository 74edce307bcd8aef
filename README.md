# html_entities in Dafny

A model of the two halves of the `htmlize` crate (repository danielparks/html_entities):

- **The character reference decoder (`unescape`).** It copies its input byte by byte. At each `&` it reads either a numeric reference (`&#122;`, `&#x7a;`) or a named one (`&amp;`, `&times`):
  - A numeric reference is parsed and passed through the correction table of the HTML standard. That is section 13.2.5.80 of the WHATWG HTML Living Standard, "Numeric character reference end state".
  - A named reference is looked up, longest key first, in the generated table of named character references.
  - Whatever does not resolve is emitted exactly as it was consumed.
- **The escapers (`escape_text`, `escape_attribute`, `escape_all_quotes`).** Each copies its input and replaces every byte of its set with that byte's character reference. The three sets are nested: `&`, `<` and `>`; then also `"`; then also `'`.

Inputs and outputs are byte sequences (`seq<byte>`, where `byte` is `0..255`). Where the source walks a peekable iterator, the model carries an index into the input:

- peeking is reading `s[i]`, and consuming is advancing `i`;
- specification functions (`Span`, `CandidateEnd`, `NamedReference`, `ScanNumeric`, `NumericReference`, `Reference`, `DecodeFrom`) take the same index, and `Decode` starts `DecodeFrom` at 0;
- the consumers, the matchers, the driver and the escaping loop (`Consume`, `MatchNumericEntity`, `MatchEntity`, `Unescape`, `EscapeBytes`) are methods, proved to compute those functions. All but `MatchNumericEntity` have loops of their own; it calls `Consume` for its digit run.

The decoder's properties are lemmas about the functions:

- the stopping rule of the consumers;
- the longest-match rule;
- literal fallback for named and numeric references;
- passthrough of text without `&`;
- hexadecimal/decimal equivalence for values the correction table resolves.

The escapers' properties are also lemmas:

- distribution over concatenation;
- the exact length;
- no raw reserved bytes in the output;
- agreement of the nested variants;
- non-idempotence.

One further lemma ties the two halves together: decoding undoes every escaper. The source's unit tests are restated as lemmas. Most lemmas restate one test. A few cover several neighbouring tests with one input pattern, such as the four letter cases of `&#x7a;`.

Files:

- `wrappers.dfy`: `Option`.
- `bytes.dfy`: the byte and `u32` types and the ASCII classes.
- `utf8.dfy`: UTF-8 encoding of one scalar value, as in section 3 of RFC 3629. It stands in for `char::to_string`.
- `entities.dfy`: the table of named references.
- `numeric.dfy`: the code point predicates, the Windows-1252 table, `correct_numeric_entity` and `u32::from_str_radix`.
- `unescape.dfy`: the decoder.
- `unescape_properties.dfy`: the decoder's properties.
- `unescape_examples.dfy`: the decoder's unit tests.
- `escape.dfy`: the escapers and their properties.
- `escape_examples.dfy`: the escapers' unit tests.
- `roundtrip.dfy`: decoding undoes every escaper.

**The entity table.** The real table is generated at build time from the WHATWG list of named character references, and its contents are not part of this model.

- `Entities.ENTITIES` is a constant of a subset type. It is known only through three things:
  - every key has the shape of a key: `&`, ASCII alphanumerics, possibly a final `;`, and a length from `ENTITY_MIN_LENGTH` to `ENTITY_MAX_LENGTH`;
  - nine entries and five absent names, which agree with the WHATWG list (`Entities.SAMPLE` and `Entities.ABSENT`), reached through `Entities.SampleEntry` and `Entities.AbsentName`;
  - one family of absent names: no key is `&` followed only by `a` (`Entities.OnlyAs`, reached through `Entities.OnlyAsAbsent`).
- `ENTITY_MIN_LENGTH = 3` (`&lt`) and `ENTITY_MAX_LENGTH = 33` (`&CounterClockwiseContourIntegral;`) are the bounds of that list. The build script that computes them is not part of this model.
- Every general property is proved from the key shape alone. Only the worked examples and the round trip use the sample entries.
- `Entities.SampleEntry`, `Entities.AbsentName`, `Entities.OnlyAsAbsent` and `Entities.NotOnlyAs` only hand these facts to proofs. They say nothing about the decoder or the escapers.

**Code versus standard.** Where the code departs from the HTML standard, the model follows the code:

- **Noncharacters and some controls.** For noncharacters (`src/unescape.rs:193`), carriage return and the controls without a Windows-1252 meaning (`src/unescape.rs:225-227`), the code keeps the reference text. The standard emits the code point with a parse error. `Numeric.KeepsLiteral` names exactly these values.
- **Values that do not fit in 32 bits.** `u32::from_str_radix` fails on them, so the code keeps the reference text. The standard replaces any value above U+10FFFF with U+FFFD. `UnescapeProperties.LiteralSpelling` covers that case.

## Model

| member | source | states |
|---|---|---|
| Unescape.Span | src/unescape.rs:237-259 | a consumer's run: every byte from `i` up to the result is in the class, and the byte at the result (if any) is not |
| Unescape.SpanOfRun | src/unescape.rs:237-259 | a run of class bytes followed by a non-class byte or the end is consumed exactly, no more and no less |
| Unescape.Consume | src/unescape.rs:237-259 | the consumer loop returns exactly the bytes from `i` to the end of the maximal run, and stops there without taking the next byte |
| Unescape.CandidateEnd | src/unescape.rs:270-277 | the candidate is `&`, the maximal alphanumeric run and one `;` only when it comes immediately next; consumption stops after that `;` or before a byte that could extend nothing |
| Unescape.Candidate | src/unescape.rs:270-277 | the candidate is `&` followed by exactly the bytes the name consumer and the optional `;` took; `CandidateShape` states its shape |
| Unescape.CandidateShape | src/unescape.rs:270-277 | a candidate is `&`, then ASCII alphanumerics, with a last byte that is alphanumeric or `;`, and is one byte longer than what was consumed |
| Unescape.LongestKey | src/unescape.rs:284-301 | the descending search finds a key length in `[ENTITY_MIN_LENGTH, hi]` with no longer key above it, or reports that no prefix in range is a key |
| Unescape.LongestKeyIs | src/unescape.rs:284-301 | a key with no longer key up to `hi` is exactly what the descending search returns |
| Unescape.NamedReference | src/unescape.rs:270-304 | a named reference: a short candidate or one with no key among its prefixes stays as it is, otherwise the longest key's expansion is followed by the rest of the candidate; the lemmas `NamedReferenceShape`, `LongestNamed` and `NamedFallback` state these cases |
| Unescape.NamedReferenceShape | src/unescape.rs:270-304 | a named reference always consumes its whole candidate, and reads either to the candidate unchanged or to a key's expansion followed by the candidate's remaining bytes |
| Unescape.ScanNumeric | src/unescape.rs:54-82 | a numeric reference reads `x`/`X` (hexadecimal) or nothing (decimal), then the maximal digit run of that radix, and ends after one `;` if one follows, otherwise at the last digit |
| Unescape.NumericReference | src/unescape.rs:84-90 | a numeric reference resumes scanning at the end of what it consumed |
| Unescape.Reference | src/unescape.rs:265-268 | a reference consumes at least nothing and never more than the input |
| Unescape.MatchNumericEntity | src/unescape.rs:43-91 | `match_numeric_entity` returns the corrected character, or the consumed text `&#`, `x`, digits and `;`, and leaves the index where the specification says |
| Unescape.RunDigits | src/unescape.rs:59-69 | the run the digit consumer takes holds only digits of the radix in use |
| Unescape.MatchEntity | src/unescape.rs:261-305 | `match_entity` hands `#` to the numeric matcher, and otherwise returns the longest key's expansion plus the leftover candidate, or the candidate unchanged |
| Unescape.DecodeFrom | src/unescape.rs:23-38 | the decoding pass from a position on: a byte other than `&` is copied, and an `&` is replaced by its reference's reading; `CopyStep` and `ReferenceStep` restate these two cases as lemmas, and `UnescapeProperties` states what follows from them |
| Unescape.Decode | src/unescape.rs:23-38 | the decoding pass over the whole input, the function `Unescape` is proved to compute |
| Unescape.CopyStep | src/unescape.rs:28-35 | a defining equation of `DecodeFrom`, stated as an unfolding lemma: a byte other than `&` is copied to the output, and decoding continues at the next byte |
| Unescape.ReferenceStep | src/unescape.rs:28-31 | a defining equation of `DecodeFrom`, stated as an unfolding lemma: an `&` is replaced by what its reference reads to, and decoding resumes where the reference ended |
| Unescape.Unescape | src/unescape.rs:23-38 | the driver's output is the decoded form of the whole input |
| UnescapeProperties.DecodeShift | src/unescape.rs:28-35 | decoding depends only on the bytes from the current position on |
| UnescapeProperties.ReferenceShift | src/unescape.rs:261-305 | what a reference reads to depends only on the bytes from where it starts |
| UnescapeProperties.DecodeFromSuffix | src/unescape.rs:28-35 | decoding from position `i` is decoding the suffix from `i` on its own |
| UnescapeProperties.Passthrough | src/unescape.rs:28-35 | a stretch without `&` is copied unchanged and in order |
| UnescapeProperties.NoAmpersandUnchanged | src/unescape.rs:28-35 | input without `&` decodes to itself |
| UnescapeProperties.DecodePlainPrefix | src/unescape.rs:28-35 | a prefix without `&` is copied, and the rest decodes as if it stood alone |
| UnescapeProperties.BareAmpersand | src/unescape.rs:279-282 | an `&` followed by neither a name, `;` nor `#` is kept as it is |
| UnescapeProperties.LongestNamed | src/unescape.rs:284-300 | the named reference at the longest key in range reads to that key's expansion, then the rest of the candidate, and ends where the candidate ends |
| UnescapeProperties.LongestMatch | src/unescape.rs:284-300 | when `k` is the longest key length in range, the output is that key's expansion, then the rest of the candidate verbatim |
| UnescapeProperties.NamedFallback | src/unescape.rs:279-304 | a candidate shorter than `ENTITY_MIN_LENGTH`, or with no key among its prefixes in range, is emitted exactly as consumed |
| UnescapeProperties.FallbackReference | src/unescape.rs:279-304 | the reference of such a candidate reads to the candidate itself, the input from the `&` to the candidate's end |
| UnescapeProperties.WholeCandidateIsKey | src/unescape.rs:284-300 | a candidate that is itself a key becomes its expansion with nothing left over |
| UnescapeProperties.WholeCandidateReference | src/unescape.rs:284-300 | a reference whose candidate is itself a key reads to exactly that key's expansion and ends where the candidate ends |
| UnescapeProperties.KeyCandidate | src/unescape.rs:270-277 | a key written out, followed by a byte that cannot lengthen the name, is exactly the candidate |
| UnescapeProperties.DecodeKey | src/unescape.rs:270-300 | such a key decodes to its expansion, and decoding resumes right after it |
| UnescapeProperties.KeyReference | src/unescape.rs:270-300 | the reference of a key written out in full reads to the key's expansion and ends right after the key |
| UnescapeProperties.DecodeKeyPrefix | src/unescape.rs:274-300 | a key ending in `;` and whatever follows it decode independently |
| UnescapeProperties.NumericFallback | src/unescape.rs:52-90 | with no digits, digits past 32 bits, or a value the correction table leaves alone, exactly the consumed text is emitted |
| UnescapeProperties.KeptReference | src/unescape.rs:52-90 | the reference of such a numeric spelling reads to the text from the `&` to where scanning resumes |
| UnescapeProperties.NumericFallbackPrefix | src/unescape.rs:52-90 | such a reference at the start of the input is kept as written, and the text after it decodes as if it stood alone |
| UnescapeProperties.NumericResolved | src/unescape.rs:84-88 | otherwise the reference becomes the UTF-8 encoding of one scalar value |
| UnescapeProperties.ResolvedReference | src/unescape.rs:84-88 | the reference of such a numeric spelling reads to the corrected character, a well-formed UTF-8 character, and ends where scanning resumes |
| UnescapeProperties.ScanSpelling | src/unescape.rs:54-82 | the numeric scan of `&#`, an optional `x`, digits and a tail reads exactly those digits, and resumes past one `;` |
| UnescapeProperties.SpellingScanned | src/unescape.rs:54-82 | the value the numeric scan parses from such a spelling is the value of its digits, and scanning resumes at the text after them |
| UnescapeProperties.SameReference | src/unescape.rs:54-88 | hexadecimal and decimal spellings of one value that the correction table resolves (below 2^32, not kept as text), followed by text whose first byte is not a hexadecimal digit, read to the same bytes and leave the same text behind |
| UnescapeProperties.HexDecimalEquivalent | src/unescape.rs:54-88 | under the same conditions (a value below 2^32 that is not kept as text, and a next byte that is not a hexadecimal digit), hexadecimal (either `x`, either digit case) and decimal spellings of one value decode identically, together with everything after them; a kept or overflowing value comes back as written, so its two spellings differ |
| UnescapeProperties.ResolvedSpelling | src/unescape.rs:76-88 | a numeric reference with a correctable value decodes to the corrected character; a missing `;` ends the reference at its last digit |
| UnescapeProperties.LiteralSpelling | src/unescape.rs:76-90 | a numeric reference whose value overflows 32 bits, or that the table leaves alone, is kept as written up to and including one `;` |
| UnescapeProperties.LiteralScanned | src/unescape.rs:54-82 | the scan of such a spelling yields no value or one the decoder keeps as text, and resumes at the text after the digits |
| Numeric.IsNoncharacter | src/unescape.rs:104-143 | the 66 noncharacters; `NoncharacterPlanes` states which they are |
| Numeric.IsOutsideRange | src/unescape.rs:146-148 | code points past U+10FFFF; `CodePointClasses` relates it to the scalar values |
| Numeric.IsSurrogate | src/unescape.rs:151-153 | the surrogates U+D800..U+DFFF; `CodePointClasses` relates them to the scalar values |
| Numeric.IsControl | src/unescape.rs:156-159 | the C0 controls, DELETE and the C1 controls; `CodePointClasses` shows they are scalars and not noncharacters |
| Numeric.IsAsciiWhitespace | src/unescape.rs:165-168 | tab, line feed, form feed, carriage return and space; `CodePointClasses` shows all but space are controls |
| Numeric.CodePointClasses | src/unescape.rs:146-168 | the scalar values are exactly the code points that are neither outside the range nor surrogates; every noncharacter is a scalar; a control is neither a surrogate, a noncharacter nor outside the range; ASCII whitespace other than space is a control |
| Numeric.KeepsLiteral | src/unescape.rs:193-227 | the values whose reference text the code keeps: noncharacters, carriage return and the controls with no Windows-1252 meaning; `CorrectNumericEntity` proves it gives None on exactly these |
| Numeric.NoncharacterPlanes | src/unescape.rs:104-143 | the enumerated noncharacters are exactly U+FDD0..U+FDEF and the last two code points of each of the 17 planes |
| Numeric.Windows1252 | src/unescape.rs:196-222 | the legacy table covers 0x80..0x9F except exactly 0x81, 0x8D, 0x8F, 0x90 and 0x9D |
| Numeric.CharToBytes | src/unescape.rs:172-180 | `char::to_string` yields bytes that decode as UTF-8 to that character |
| Numeric.CorrectNumericEntity | src/unescape.rs:182-234 | 0, values past U+10FFFF and surrogates give U+FFFD; the text is kept exactly for noncharacters, 0x0D and the unmapped controls; the 27 legacy values give their Windows-1252 characters; other whitespace and every ordinary scalar give themselves; any result is one UTF-8 character |
| Numeric.DigitValue | src/unescape.rs:62-69 | a digit's value is below the radix, and below 10 exactly for decimal digits |
| Numeric.FromStrRadix | src/unescape.rs:62-69 | `u32::from_str_radix` fails exactly on the empty run and on values of 2^32 or more, and otherwise returns the run's value |
| Numeric.DigitsValue | src/unescape.rs:62-69 | the value of a digit run in the radix, most significant digit first; `DigitsValueAppend` and `FromStrRadix` state its properties |
| Numeric.DigitsValueAppend | src/unescape.rs:62-69 | appending a digit multiplies the value by the radix and adds the digit |
| Numeric.HexCaseInsensitive | src/unescape.rs:258 | hexadecimal digits read the same in either letter case |
| Utf8.Encode | src/unescape.rs:172-180 | the encoding of a scalar has the width RFC 3629 gives it, with continuation bytes after the lead |
| Utf8.DecodeEncode | src/unescape.rs:172-180 | decoding the encoding of a scalar gives back the scalar |
| Utf8.EncodeDecode | src/unescape.rs:172-180 | every well-formed single character is the encoding of what it decodes to |
| Entities.KeysWithinBounds | src/unescape.rs:13 | every key is `&`, ASCII alphanumerics and possibly `;`, within the two length bounds |
| Entities.KeyLength | src/unescape.rs:13 | every key's length lies within `ENTITY_MIN_LENGTH` and `ENTITY_MAX_LENGTH` |
| Escape.MapU8 | src/escape.rs:2-11 | each special byte becomes `&`, a name and `;`, with no special byte after the `&`; other bytes are excluded by the precondition, so the panic arm cannot be reached |
| Escape.Escapes | src/escape.rs:18-23 | the variant's set: `&`, `<` and `>` for text, plus `"` for attributes (lines 42 and 56), plus `'` for all quotes (line 73) |
| Escape.EscapedByte | src/escape.rs:18-21 | one byte's output: its spelling when the variant escapes it, the byte itself otherwise |
| Escape.Escaped | src/escape.rs:18-23 | the whole output, one byte's output after another in input order; `EscapeBytes` is proved to compute it |
| Escape.EscapeBytes | src/escape.rs:13-27 | the `escape!` loop replaces every byte of the variant's set by its spelling and copies every other byte, in order |
| Escape.EscapeText | src/escape.rs:41-43 | `escape_text` escapes exactly `&`, `<` and `>` |
| Escape.EscapeAttribute | src/escape.rs:55-57 | `escape_attribute` escapes exactly `&`, `<`, `>` and `"` |
| Escape.EscapeAllQuotes | src/escape.rs:72-74 | `escape_all_quotes` escapes exactly `&`, `<`, `>`, `"` and `'` |
| Escape.EscapedAppend | src/escape.rs:18-23 | escaping distributes over concatenation |
| Escape.UnselectedUnchanged | src/escape.rs:18-23 | input with no byte of the variant's set comes out unchanged |
| Escape.EscapedLength | src/escape.rs:16-23 | output length is input length plus 4 per `&`, 3 per `<` or `>`, and 5 per escaped quote |
| Escape.NoRawSpecials | src/escape.rs:18-23 | the output never holds `<` or `>`, nor `"` under attribute escaping, nor `'` under all-quotes escaping: of the variant's set only `&` remains |
| Escape.AmpersandOpensSpelling | src/escape.rs:2-23 | every `&` in the output begins one of the spellings `map_u8` produces for a byte of the variant's set |
| Escape.AmpersandAt | src/escape.rs:18-23 | one `&` of the output begins a spelling, by induction on the input |
| Escape.HeadSpelling | src/escape.rs:18-21 | an `&` inside one byte's output begins that byte's spelling |
| Escape.TailSpelling | src/escape.rs:18-23 | a spelling in the output of the rest of the input stays a spelling, at the shifted position, once the earlier bytes' output is put before it |
| Escape.VariantsAgree | src/escape.rs:41-74 | two variants give the same output on input whose bytes they treat alike |
| Escape.NestedSets | src/escape.rs:41-74 | without `"`, text and attribute escaping agree; without `'`, attribute and all-quotes escaping agree |
| Escape.NotIdempotent | src/escape.rs:4-20 | every variant turns `&amp;` into `&amp;amp;`, so escaping twice is not escaping once |
| RoundTrip.SpellingIsKey | src/escape.rs:2-8 | each spelling `map_u8` produces is a key of the entity table, standing for the byte it spells |
| RoundTrip.DecodeEscapedByte | src/escape.rs:18-23 | one escaped byte followed by anything decodes to that byte followed by the decoded rest |
| RoundTrip.DecodeEscaped | src/escape.rs:13-27 | unescaping the output of any escaper gives back its input |
| UnescapeExamples.AlmostEntity | src/unescape.rs:311 | `&time` decodes to `&time` |
| UnescapeExamples.ExactNoSemicolon | src/unescape.rs:312 | `&times` decodes to `×` |
| UnescapeExamples.Exact | src/unescape.rs:313 | `&times;` decodes to `×` |
| UnescapeExamples.EntityChar | src/unescape.rs:314 | `&timesa` decodes to `×a` |
| UnescapeExamples.EntityCharIsPrefix | src/unescape.rs:315 | `&timesb` decodes to `×b` |
| UnescapeExamples.ExactTimesb | src/unescape.rs:316 | `&timesb;` decodes to `⊠` |
| UnescapeExamples.NoEntities | src/unescape.rs:318 | `none` decodes to `none` |
| UnescapeExamples.OnlyAmpersand | src/unescape.rs:319 | `&` decodes to `&` |
| UnescapeExamples.EmptyEntity | src/unescape.rs:320 | `&;` decodes to `&;` |
| UnescapeExamples.MiddleEntity | src/unescape.rs:321 | ` &amp; ` decodes to ` & ` |
| UnescapeExamples.ExtraAmpersands | src/unescape.rs:322 | `&&amp;&` decodes to `&&&` |
| UnescapeExamples.TwoEntities | src/unescape.rs:323 | `AND &amp;&AMP; and` decodes to `AND && and` |
| UnescapeExamples.CorrectHex | src/unescape.rs:330-333 | `&#x7a;`, `&#x7A;`, `&#X7a;` and `&#X7A;` decode to `z` |
| UnescapeExamples.CorrectDecimal | src/unescape.rs:334 | `&#122;` decodes to `z` |
| UnescapeExamples.CorrectHexUnicode | src/unescape.rs:335 | `&#x21D2;` decodes to `⇒` |
| UnescapeExamples.HexNoSemicolon | src/unescape.rs:337-338 | `&#x7Az` decodes to `zz` and `&#x7A` to `z` |
| UnescapeExamples.DecNoSemicolon | src/unescape.rs:339-340 | `&#122z` decodes to `zz` and `&#122` to `z` |
| UnescapeExamples.HexInsteadOfDec | src/unescape.rs:342 | `&#7a;` decodes to `&#7a;` |
| UnescapeExamples.InvalidHex | src/unescape.rs:343-344 | `&#xZ;` and `&#XZ;` decode to themselves |
| UnescapeExamples.SpecialEntityNull | src/unescape.rs:346 | `&#0;` decodes to U+FFFD |
| UnescapeExamples.SpecialEntityBullet | src/unescape.rs:347 | `&#x95;` decodes to `•` |
| UnescapeExamples.SpecialEntityBullets | src/unescape.rs:348-351 | `&#x95;&#149;&#x2022;•` decodes to `••••` |
| UnescapeExamples.SpecialEntitySpace | src/unescape.rs:352 | `&#x20` decodes to a space |
| UnescapeExamples.LongEntity | src/unescape.rs:324-328 | `&` followed by seventy `a` and `;` decodes to itself |
| EscapeExamples.CleanUnchanged | src/escape.rs:80-88 | the empty string and `clean` are unchanged under every variant |
| EscapeExamples.AngleBrackets | src/escape.rs:80-88 | `< >` becomes `&lt; &gt;` under every variant |
| EscapeExamples.AmpersandAgain | src/escape.rs:80-88 | `&amp;` becomes `&amp;amp;` under every variant |
| EscapeExamples.TextQuotes | src/escape.rs:91-94 | `escape_text` leaves `He said, "That's mine."` unchanged |
| EscapeExamples.AttributeQuotes | src/escape.rs:96-100 | `escape_attribute` escapes only the double quotes of that sentence |
| EscapeExamples.AllQuotesQuotes | src/escape.rs:102-106 | `escape_all_quotes` escapes its double quotes and its apostrophe |

## Left out

- The contents of the generated entity table (`src/unescape.rs:13`) and the build script that writes it are not part of this model. The table is abstract: its keys have the shape of keys, nine entries and five absent names agree with the WHATWG list, and no key is `&` followed only by `a`. No property beyond the worked examples and the round trip depends on particular entries.
- The corpus tests (`src/unescape.rs:354-358`, `src/escape.rs:108-120`) are left out. They read files that are not part of this model.
- `String::from_utf8(..).unwrap()` (`src/unescape.rs:37`, `src/unescape.rs:62`, `src/unescape.rs:69`, `src/escape.rs:25`) is not modelled. Outputs are byte sequences. Digit runs are ASCII, so those two conversions cannot fail. The final conversions panic only on input that is not UTF-8, and Rust's validator is not modelled.
- The `PEEK_MATCH_ERROR` panics (`src/unescape.rs:40-50`, `57`, `78`, `246`, `276`) are not modelled. Every consume in the model reads the byte it has just peeked, so those checks cannot fire.
- The special cases of the named character reference state that the source marks FIXME (`src/unescape.rs:22`) are not implemented by the code, and so not by the model.
- Rust generics (`AsRef<[u8]>`, `Into<u32>`), the `Peekable` iterator and the `consumer!`/`escape!` macros are not modelled as such. Each macro instance is one method, or one variant of a method, over an index. `Vec::with_capacity` hints are not modelled.
- `char::from_u32(..).unwrap()` in `correct_numeric_entity` (`src/unescape.rs:179`) is not modelled. It is only reached with scalar values, so the model encodes them directly.
