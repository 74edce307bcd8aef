/**
 * The decoder's unit tests from src/unescape.rs, proved from the general
 * properties. Some lemmas cover several tests that differ in one byte (`x` or `X`,
 * a trailing `z` or none). Inputs and outputs are written as bytes, with the text
 * they spell beside them.
 *
 * Each lemma states `Decode(s) == ...` for an input `s` fixed by its precondition,
 * rather than `Decode([...]) == ...` with the literal in place. Applied to a literal,
 * `Decode` is evaluated by unfolding its definition byte by byte, which costs far
 * more than the steps through the general lemmas. For the same reason longer inputs
 * are written as nested concatenations of their parts, each part a parameter or a
 * short literal.
 */
module UnescapeExamples {
  import opened Wrappers
  import opened Bytes
  import opened Entities
  import Numeric
  import opened Unescape
  import opened UnescapeProperties

  /** `&time` is no key, and no prefix of it is: it stays as it is. */
  lemma AlmostEntity(s: seq<byte>)
    requires s == [0x26, 0x74, 0x69, 0x6D, 0x65] // &time
    ensures Decode(s) == s
  {
    SpanOfRun(s, 1, 5, Alphanumeric);
    assert Candidate(s, 1) == s;
    assert s[..3] == [0x26, 0x74, 0x69] && s[..4] == [0x26, 0x74, 0x69, 0x6D] && s[..5] == s;
    AbsentName(s[..3]);
    AbsentName(s[..4]);
    AbsentName(s);
    NamedFallback(s, 0);
    assert s[0..5] == s;
  }

  /** `&times`, without `;`, is a key of its own. */
  lemma ExactNoSemicolon(s: seq<byte>)
    requires s == [0x26, 0x74, 0x69, 0x6D, 0x65, 0x73] // &times
    ensures Decode(s) == [0xC3, 0x97] // ×
  {
    assert s[0..6] == s;
    SampleEntry(s);
    DecodeKey(s, 0, s);
  }

  /** `&times;` */
  lemma Exact(s: seq<byte>)
    requires s == [0x26, 0x74, 0x69, 0x6D, 0x65, 0x73, 0x3B] // &times;
    ensures Decode(s) == [0xC3, 0x97] // ×
  {
    assert s[0..7] == s;
    SampleEntry(s);
    DecodeKey(s, 0, s);
  }

  /** `&timesa`: the longest key inside the candidate is `&times`; the `a` is kept. */
  lemma EntityChar(s: seq<byte>)
    requires s == [0x26, 0x74, 0x69, 0x6D, 0x65, 0x73, 0x61] // &timesa
    ensures Decode(s) == [0xC3, 0x97, 0x61] // ×a
  {
    SpanOfRun(s, 1, 7, Alphanumeric);
    assert Candidate(s, 1) == s;
    assert s[..6] == [0x26, 0x74, 0x69, 0x6D, 0x65, 0x73] && s[..7] == s;
    SampleEntry(s[..6]);
    AbsentName(s);
    LongestMatch(s, 0, 6);
    assert s[6..] == [0x61];
  }

  /** `&timesb` begins `&timesb;` but is not a key: `&times` matches and `b` is kept. */
  lemma EntityCharIsPrefix(s: seq<byte>)
    requires s == [0x26, 0x74, 0x69, 0x6D, 0x65, 0x73, 0x62] // &timesb
    ensures Decode(s) == [0xC3, 0x97, 0x62] // ×b
  {
    SpanOfRun(s, 1, 7, Alphanumeric);
    assert Candidate(s, 1) == s;
    assert s[..6] == [0x26, 0x74, 0x69, 0x6D, 0x65, 0x73] && s[..7] == s;
    SampleEntry(s[..6]);
    AbsentName(s);
    LongestMatch(s, 0, 6);
    assert s[6..] == [0x62];
  }

  /** `&timesb;`: the longer key wins. */
  lemma ExactTimesb(s: seq<byte>)
    requires s == [0x26, 0x74, 0x69, 0x6D, 0x65, 0x73, 0x62, 0x3B] // &timesb;
    ensures Decode(s) == [0xE2, 0x8A, 0xA0] // ⊠
  {
    assert s[0..8] == s;
    SampleEntry(s);
    DecodeKey(s, 0, s);
  }

  /** `none` */
  lemma NoEntities(s: seq<byte>)
    requires s == [0x6E, 0x6F, 0x6E, 0x65] // none
    ensures Decode(s) == s
  {
    NoAmpersandUnchanged(s);
  }

  /** `&` alone. */
  lemma OnlyAmpersand(s: seq<byte>)
    requires s == [0x26] // &
    ensures Decode(s) == s
  {
    BareAmpersand([]);
  }

  /** `&;`: the candidate is too short to be a key. */
  lemma EmptyEntity(s: seq<byte>)
    requires s == [0x26, 0x3B] // &;
    ensures Decode(s) == s
  {
    assert Candidate(s, 1) == s;
    NamedFallback(s, 0);
    assert s[0..2] == s;
  }

  /** ` &amp; ` */
  lemma MiddleEntity(s: seq<byte>)
    requires s == [0x20, 0x26, 0x61, 0x6D, 0x70, 0x3B, 0x20] // " &amp; "
    ensures Decode(s) == [0x20, 0x26, 0x20] // " & "
  {
    CopyStep(s, 0);
    assert s[1..6] == [0x26, 0x61, 0x6D, 0x70, 0x3B];
    SampleEntry(s[1..6]);
    DecodeKey(s, 1, s[1..6]);
    CopyStep(s, 6);
  }

  /** `&&amp;&`: bare ampersands on either side of a reference. */
  lemma ExtraAmpersands(s: seq<byte>, amp: seq<byte>)
    requires amp == [0x26] // &
    requires s == amp + ([0x26, 0x61, 0x6D, 0x70, 0x3B] + amp) // &, &amp;, &
    ensures Decode(s) == amp + amp + amp // &&&
  {
    SampleEntry([0x26, 0x61, 0x6D, 0x70, 0x3B]);
    BareAmpersand([0x26, 0x61, 0x6D, 0x70, 0x3B] + amp);
    DecodeKeyPrefix([0x26, 0x61, 0x6D, 0x70, 0x3B], amp);
    BareAmpersand([]);
  }

  /** `AND &amp;&AMP; and`: two references side by side, between plain text. */
  lemma TwoEntities(s: seq<byte>, text: seq<byte>, rest: seq<byte>)
    requires text == [0x41, 0x4E, 0x44, 0x20] // "AND "
    requires rest == [0x20, 0x61, 0x6E, 0x64] // " and"
    requires s == text + ([0x26, 0x61, 0x6D, 0x70, 0x3B] + ([0x26, 0x41, 0x4D, 0x50, 0x3B] + rest)) // &amp;&AMP;
    ensures Decode(s) == text + [0x26, 0x26] + rest // AND && and
  {
    var upper := [0x26, 0x41, 0x4D, 0x50, 0x3B] + rest;
    SampleEntry([0x26, 0x61, 0x6D, 0x70, 0x3B]);
    SampleEntry([0x26, 0x41, 0x4D, 0x50, 0x3B]);
    DecodeKeyPrefix([0x26, 0x41, 0x4D, 0x50, 0x3B], rest);
    NoAmpersandUnchanged(rest);
    assert Decode(upper) == [AMPERSAND] + rest;
    DecodeKeyPrefix([0x26, 0x61, 0x6D, 0x70, 0x3B], upper);
    assert Decode([0x26, 0x61, 0x6D, 0x70, 0x3B] + upper) == [AMPERSAND] + ([AMPERSAND] + rest);
    DecodePlainPrefix(text, [0x26, 0x61, 0x6D, 0x70, 0x3B] + upper);
  }

  /** `n` copies of the byte `b`. */
  function Repeat(b: byte, n: nat): seq<byte>
  {
    seq(n, _ => b)
  }

  /**
   * `&` and 70 `a`s, then `;`: the candidate runs past ENTITY_MAX_LENGTH, and no
   * prefix of it in range is a key, so it is kept as it is.
   */
  lemma LongEntity(s: seq<byte>)
    requires s == [AMPERSAND] + Repeat(0x61, 70) + [SEMICOLON]
    ensures Decode(s) == s
  {
    assert |s| == 72 && s[71] == SEMICOLON;
    assert forall m | 1 <= m < 71 :: s[m] == 0x61;
    SpanOfRun(s, 1, 71, Alphanumeric);
    assert s[1..72] == s[1..];
    assert Candidate(s, 1) == s;
    forall m | ENTITY_MIN_LENGTH <= m <= Min(|s|, ENTITY_MAX_LENGTH)
      ensures s[..m] !in ENTITIES
    {
      assert OnlyAs(s[..m]);
      OnlyAsAbsent(s[..m]);
    }
    NamedFallback(s, 0);
    assert s[0..72] == s;
  }

  // ---------------------------------------------------------------------------
  // Numeric references

  /**
   * A numeric reference whose digits have value `v`, which the correction table
   * maps to `out`.
   */
  lemma Resolves(lead: seq<byte>, ds: seq<byte>, tail: seq<byte>, hex: bool, v: int, out: seq<byte>)
    requires hex <==> |lead| == 1
    requires hex ==> lead[0] == LOWER_X || lead[0] == UPPER_X
    requires !hex ==> lead == []
    requires ds != [] && Numeric.AllDigits(ds, Radix(hex)) && Numeric.DigitsValue(ds, Radix(hex)) == v
    requires tail == [] || !Accepts(DigitClass(hex), tail[0])
    requires 0 <= v < 0x1_0000_0000 && !Numeric.KeepsLiteral(v) && Numeric.CorrectNumericEntity(v) == Some(out)
    ensures Decode(Spelling(lead, ds, tail)) == out + Decode(AfterDigits(tail))
  {
    ResolvedSpelling(lead, ds, tail, hex);
  }

  // Digit runs and their values.

  lemma Digits122(ds: seq<byte>)
    requires ds == [0x31, 0x32, 0x32] // 122
    ensures Numeric.AllDigits(ds, 10) && Numeric.DigitsValue(ds, 10) == 122
  {
    Numeric.DigitsValueAppend([], 0x31, 10);
    assert [] + [0x31] == [0x31];
    assert Numeric.DigitsValue([0x31], 10) == 1;
    Numeric.DigitsValueAppend([0x31], 0x32, 10);
    assert [0x31] + [0x32] == [0x31, 0x32];
    assert Numeric.DigitsValue([0x31, 0x32], 10) == 12;
    Numeric.DigitsValueAppend([0x31, 0x32], 0x32, 10);
    assert [0x31, 0x32] + [0x32] == [0x31, 0x32, 0x32];
    assert Numeric.DigitsValue([0x31, 0x32, 0x32], 10) == 122;
  }

  lemma Digits149(ds: seq<byte>)
    requires ds == [0x31, 0x34, 0x39] // 149
    ensures Numeric.AllDigits(ds, 10) && Numeric.DigitsValue(ds, 10) == 149
  {
    Numeric.DigitsValueAppend([], 0x31, 10);
    assert [] + [0x31] == [0x31];
    assert Numeric.DigitsValue([0x31], 10) == 1;
    Numeric.DigitsValueAppend([0x31], 0x34, 10);
    assert [0x31] + [0x34] == [0x31, 0x34];
    assert Numeric.DigitsValue([0x31, 0x34], 10) == 14;
    Numeric.DigitsValueAppend([0x31, 0x34], 0x39, 10);
    assert [0x31, 0x34] + [0x39] == [0x31, 0x34, 0x39];
    assert Numeric.DigitsValue([0x31, 0x34, 0x39], 10) == 149;
  }

  /** A single digit, in either radix. */
  lemma OneDigit(ds: seq<byte>, radix: nat)
    requires radix == 10 || radix == 16
    requires |ds| == 1 && IsDigit(ds[0])
    ensures Numeric.AllDigits(ds, radix) && Numeric.DigitsValue(ds, radix) == ds[0] - 0x30
  {
    Numeric.DigitsValueAppend([], ds[0], radix);
    assert [] + [ds[0]] == ds;
  }

  /** Two hexadecimal digits. */
  lemma TwoHexDigits(ds: seq<byte>)
    requires |ds| == 2 && IsHexDigit(ds[0]) && IsHexDigit(ds[1])
    ensures Numeric.AllDigits(ds, 16)
    ensures Numeric.DigitsValue(ds, 16) == Numeric.DigitValue(ds[0]) * 16 + Numeric.DigitValue(ds[1])
  {
    Numeric.DigitsValueAppend([], ds[0], 16);
    Numeric.DigitsValueAppend([ds[0]], ds[1], 16);
    assert [ds[0]] + [ds[1]] == ds;
  }

  lemma Digits21D2(ds: seq<byte>)
    requires ds == [0x32, 0x31, 0x44, 0x32] // 21D2
    ensures Numeric.AllDigits(ds, 16) && Numeric.DigitsValue(ds, 16) == 0x21D2
  {
    Numeric.DigitsValueAppend([], 0x32, 16);
    assert [] + [0x32] == [0x32];
    assert Numeric.DigitsValue([0x32], 16) == 0x2;
    Numeric.DigitsValueAppend([0x32], 0x31, 16);
    assert [0x32] + [0x31] == [0x32, 0x31];
    assert Numeric.DigitsValue([0x32, 0x31], 16) == 0x21;
    Numeric.DigitsValueAppend([0x32, 0x31], 0x44, 16);
    assert [0x32, 0x31] + [0x44] == [0x32, 0x31, 0x44];
    assert Numeric.DigitsValue([0x32, 0x31, 0x44], 16) == 0x21D;
    Numeric.DigitsValueAppend([0x32, 0x31, 0x44], 0x32, 16);
    assert [0x32, 0x31, 0x44] + [0x32] == [0x32, 0x31, 0x44, 0x32];
    assert Numeric.DigitsValue([0x32, 0x31, 0x44, 0x32], 16) == 0x21D2;
  }

  lemma Digits2022(ds: seq<byte>)
    requires ds == [0x32, 0x30, 0x32, 0x32] // 2022
    ensures Numeric.AllDigits(ds, 16) && Numeric.DigitsValue(ds, 16) == 0x2022
  {
    Numeric.DigitsValueAppend([], 0x32, 16);
    assert [] + [0x32] == [0x32];
    assert Numeric.DigitsValue([0x32], 16) == 0x2;
    Numeric.DigitsValueAppend([0x32], 0x30, 16);
    assert [0x32] + [0x30] == [0x32, 0x30];
    assert Numeric.DigitsValue([0x32, 0x30], 16) == 0x20;
    Numeric.DigitsValueAppend([0x32, 0x30], 0x32, 16);
    assert [0x32, 0x30] + [0x32] == [0x32, 0x30, 0x32];
    assert Numeric.DigitsValue([0x32, 0x30, 0x32], 16) == 0x202;
    Numeric.DigitsValueAppend([0x32, 0x30, 0x32], 0x32, 16);
    assert [0x32, 0x30, 0x32] + [0x32] == [0x32, 0x30, 0x32, 0x32];
    assert Numeric.DigitsValue([0x32, 0x30, 0x32, 0x32], 16) == 0x2022;
  }

  // What the correction table makes of the values the tests use.

  lemma CorrectsZ(v: int)
    requires v == 0x7A
    ensures !Numeric.KeepsLiteral(v) && Numeric.CorrectNumericEntity(v) == Some([0x7A]) // z
  {
  }

  lemma CorrectsDoubleArrow(v: int)
    requires v == 0x21D2
    ensures !Numeric.KeepsLiteral(v) && Numeric.CorrectNumericEntity(v) == Some([0xE2, 0x87, 0x92]) // ⇒
  {
  }

  lemma CorrectsNull(v: int)
    requires v == 0
    ensures !Numeric.KeepsLiteral(v) && Numeric.CorrectNumericEntity(v) == Some([0xEF, 0xBF, 0xBD]) // U+FFFD
  {
  }

  /** 0x95 is the Windows-1252 bullet; 0x2022 is the bullet itself. */
  lemma CorrectsBullet(v: int)
    requires v == 0x95 || v == 0x2022
    ensures !Numeric.KeepsLiteral(v) && Numeric.CorrectNumericEntity(v) == Some([0xE2, 0x80, 0xA2]) // •
  {
  }

  lemma CorrectsSpace(v: int)
    requires v == 0x20
    ensures !Numeric.KeepsLiteral(v) && Numeric.CorrectNumericEntity(v) == Some([0x20])
  {
  }

  /** U+0007 BELL is a control without a Windows-1252 meaning: the code keeps the text. */
  lemma KeepsBell(v: int)
    requires v == 7
    ensures Numeric.KeepsLiteral(v)
  {
  }

  // The tests.

  /** `&#122;` */
  lemma CorrectDecimal(s: seq<byte>)
    requires s == [0x26, 0x23, 0x31, 0x32, 0x32, 0x3B] // &#122;
    ensures Decode(s) == [0x7A] // z
  {
    var ds := s[2..5];
    Digits122(ds);
    CorrectsZ(122);
    Resolves([], ds, s[5..], false, 122, [0x7A]);
    assert Spelling([], ds, s[5..]) == s;
  }

  /** `&#x7a;`, `&#x7A;`, `&#X7a;` and `&#X7A;` */
  lemma CorrectHex(s: seq<byte>, x: byte, a: byte)
    requires x == LOWER_X || x == UPPER_X
    requires a == 0x61 || a == 0x41
    requires s == [0x26, 0x23, x, 0x37, a, 0x3B] // &#x7a; and its variants
    ensures Decode(s) == [0x7A] // z
  {
    var ds := s[3..5];
    TwoHexDigits(ds);
    CorrectsZ(0x7A);
    Resolves(s[2..3], ds, s[5..], true, 0x7A, [0x7A]);
    assert Spelling(s[2..3], ds, s[5..]) == s;
  }

  /** `&#x21D2;`: a character beyond Latin-1, three bytes of UTF-8. */
  lemma CorrectHexUnicode(s: seq<byte>)
    requires s == [0x26, 0x23, 0x78, 0x32, 0x31, 0x44, 0x32, 0x3B] // &#x21D2;
    ensures Decode(s) == [0xE2, 0x87, 0x92] // ⇒
  {
    var ds := s[3..7];
    Digits21D2(ds);
    CorrectsDoubleArrow(0x21D2);
    Resolves(s[2..3], ds, s[7..], true, 0x21D2, [0xE2, 0x87, 0x92]);
    assert Spelling(s[2..3], ds, s[7..]) == s;
  }

  /** `&#x7Az` and `&#x7A`: without `;` the reference ends at its last digit. */
  lemma HexNoSemicolon(s: seq<byte>, tail: seq<byte>)
    requires tail == [] || tail == [0x7A]
    requires s == [0x26, 0x23, 0x78, 0x37, 0x41] + tail // &#x7A, then z or nothing
    ensures Decode(s) == [0x7A] + tail // z, then z or nothing
  {
    var ds := s[3..5];
    TwoHexDigits(ds);
    CorrectsZ(0x7A);
    assert s[5..] == tail;
    Resolves(s[2..3], ds, tail, true, 0x7A, [0x7A]);
    assert Spelling(s[2..3], ds, tail) == s;
    NoAmpersandUnchanged(tail);
  }

  /** `&#122z` and `&#122` */
  lemma DecNoSemicolon(s: seq<byte>, tail: seq<byte>)
    requires tail == [] || tail == [0x7A]
    requires s == [0x26, 0x23, 0x31, 0x32, 0x32] + tail // &#122, then z or nothing
    ensures Decode(s) == [0x7A] + tail // z, then z or nothing
  {
    var ds := s[2..5];
    Digits122(ds);
    CorrectsZ(122);
    assert s[5..] == tail;
    Resolves([], ds, tail, false, 122, [0x7A]);
    assert Spelling([], ds, tail) == s;
    NoAmpersandUnchanged(tail);
  }

  /**
   * `&#7a;`: a decimal reference stops at `a`; U+0007 is a control the code leaves
   * alone, so the text stays as written.
   */
  lemma HexInsteadOfDec(s: seq<byte>)
    requires s == [0x26, 0x23, 0x37, 0x61, 0x3B] // &#7a;
    ensures Decode(s) == s
  {
    var ds := s[2..3];
    OneDigit(ds, 10);
    KeepsBell(7);
    LiteralSpelling([], ds, s[3..], false);
    assert Spelling([], ds, s[3..]) == s;
    NoAmpersandUnchanged(s[3..]);
    assert s[..3] + s[3..] == s;
  }

  /** `&#xZ;` and `&#XZ;`: no digits, so the text stays as written. */
  lemma InvalidHex(s: seq<byte>, x: byte)
    requires x == LOWER_X || x == UPPER_X
    requires s == [0x26, 0x23, x, 0x5A, 0x3B] // &#xZ; or &#XZ;
    ensures Decode(s) == s
  {
    SpanOfRun(s, 3, 3, Hexadecimal);
    NumericFallback(s, 0);
    DecodeFromSuffix(s, 3);
    NoAmpersandUnchanged(s[3..]);
    assert s[0..3] + s[3..] == s;
  }

  /** `&#0;`: the null reference becomes U+FFFD. */
  lemma SpecialEntityNull(s: seq<byte>)
    requires s == [0x26, 0x23, 0x30, 0x3B] // &#0;
    ensures Decode(s) == [0xEF, 0xBF, 0xBD] // U+FFFD
  {
    var ds := s[2..3];
    OneDigit(ds, 10);
    CorrectsNull(0);
    Resolves([], ds, s[3..], false, 0, [0xEF, 0xBF, 0xBD]);
    assert Spelling([], ds, s[3..]) == s;
  }

  /** `&#x95;` takes its Windows-1252 meaning, U+2022 BULLET. */
  lemma SpecialEntityBullet(s: seq<byte>, rest: seq<byte>)
    requires s == [0x26, 0x23, 0x78, 0x39, 0x35, 0x3B] + rest // &#x95;, then anything
    ensures Decode(s) == [0xE2, 0x80, 0xA2] + Decode(rest) // •
  {
    var ds := s[3..5];
    TwoHexDigits(ds);
    CorrectsBullet(0x95);
    Resolves(s[2..3], ds, s[5..], true, 0x95, [0xE2, 0x80, 0xA2]);
    assert Spelling(s[2..3], ds, s[5..]) == s;
    assert s[5..][1..] == rest;
  }

  /** `&#149;`, the same legacy reference in decimal. */
  lemma DecimalBullet(s: seq<byte>, rest: seq<byte>)
    requires s == [0x26, 0x23, 0x31, 0x34, 0x39, 0x3B] + rest // &#149;, then anything
    ensures Decode(s) == [0xE2, 0x80, 0xA2] + Decode(rest) // •
  {
    var ds := s[2..5];
    Digits149(ds);
    CorrectsBullet(149);
    Resolves([], ds, s[5..], false, 149, [0xE2, 0x80, 0xA2]);
    assert Spelling([], ds, s[5..]) == s;
    assert s[5..][1..] == rest;
  }

  /** `&#x2022;`, U+2022 itself. */
  lemma UnicodeBullet(s: seq<byte>, rest: seq<byte>)
    requires s == [0x26, 0x23, 0x78, 0x32, 0x30, 0x32, 0x32, 0x3B] + rest // &#x2022;, then anything
    ensures Decode(s) == [0xE2, 0x80, 0xA2] + Decode(rest) // •
  {
    var ds := s[3..7];
    Digits2022(ds);
    CorrectsBullet(0x2022);
    Resolves(s[2..3], ds, s[7..], true, 0x2022, [0xE2, 0x80, 0xA2]);
    assert Spelling(s[2..3], ds, s[7..]) == s;
    assert s[7..][1..] == rest;
  }

  /** `&#x95;&#149;&#x2022;•`: three spellings of the bullet, then the bullet itself. */
  lemma SpecialEntityBullets(s: seq<byte>, bullet: seq<byte>)
    requires bullet == [0xE2, 0x80, 0xA2] // •
    requires s == [0x26, 0x23, 0x78, 0x39, 0x35, 0x3B] + (            // &#x95;
                  [0x26, 0x23, 0x31, 0x34, 0x39, 0x3B] + (            // &#149;
                  [0x26, 0x23, 0x78, 0x32, 0x30, 0x32, 0x32, 0x3B] + // &#x2022;
                  bullet))
    ensures Decode(s) == bullet + bullet + bullet + bullet
  {
    var third := [0x26, 0x23, 0x78, 0x32, 0x30, 0x32, 0x32, 0x3B] + bullet;
    var second := [0x26, 0x23, 0x31, 0x34, 0x39, 0x3B] + third;
    UnicodeBullet(third, bullet);
    NoAmpersandUnchanged(bullet);
    DecimalBullet(second, third);
    SpecialEntityBullet(s, second);
  }

  /** `&#x20`: a space, with the `;` missing at the end of the input. */
  lemma SpecialEntitySpace(s: seq<byte>)
    requires s == [0x26, 0x23, 0x78, 0x32, 0x30] // &#x20
    ensures Decode(s) == [0x20] // space
  {
    var ds := s[3..5];
    TwoHexDigits(ds);
    CorrectsSpace(0x20);
    Resolves(s[2..3], ds, s[5..], true, 0x20, [0x20]);
    assert Spelling(s[2..3], ds, s[5..]) == s;
  }
}
