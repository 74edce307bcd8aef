/**
 * The pure half of the numeric character reference decoder: the code point
 * classes of the WHATWG Infra standard (section 4.5), the correction table of the
 * HTML standard's "numeric character reference end state" (section 13.2.5.80), and
 * Rust's `u32::from_str_radix` on the digit runs the decoder collects.
 */
module Numeric {
  import opened Wrappers
  import opened Bytes
  import Utf8

  /** U+FFFD REPLACEMENT CHARACTER. */
  const REPLACEMENT_CHAR: Utf8.Scalar := 0xFFFD

  /** The noncharacters: U+FDD0 to U+FDEF and the last two code points of every plane. */
  predicate IsNoncharacter(c: int)
  {
    0xFDD0 <= c <= 0xFDEF ||
    c in {0xFFFE, 0xFFFF, 0x1FFFE, 0x1FFFF, 0x2FFFE, 0x2FFFF, 0x3FFFE, 0x3FFFF,
          0x4FFFE, 0x4FFFF, 0x5FFFE, 0x5FFFF, 0x6FFFE, 0x6FFFF, 0x7FFFE, 0x7FFFF,
          0x8FFFE, 0x8FFFF, 0x9FFFE, 0x9FFFF, 0xAFFFE, 0xAFFFF, 0xBFFFE, 0xBFFFF,
          0xCFFFE, 0xCFFFF, 0xDFFFE, 0xDFFFF, 0xEFFFE, 0xEFFFF, 0xFFFFE, 0xFFFFF,
          0x10FFFE, 0x10FFFF}
  }

  predicate IsOutsideRange(c: int) { c > 0x10FFFF }

  predicate IsSurrogate(c: int) { 0xD800 <= c <= 0xDFFF }

  /** C0 controls and DELETE through the C1 controls. */
  predicate IsControl(c: int) { 0 <= c <= 0x1F || 0x7F <= c <= 0x9F }

  /** Tab, line feed, form feed, carriage return and space. */
  predicate IsAsciiWhitespace(c: int) { c == 0x09 || c == 0x0A || c == 0x0C || c == 0x0D || c == 0x20 }

  /**
   * How the classes relate: the scalars are the code points neither outside the
   * range nor surrogates; every noncharacter is a scalar; a control is neither a
   * surrogate nor a noncharacter; and the whitespace other than space is control.
   */
  lemma CodePointClasses(c: int)
    ensures Utf8.IsScalar(c) <==> 0 <= c && !IsOutsideRange(c) && !IsSurrogate(c)
    ensures IsNoncharacter(c) ==> Utf8.IsScalar(c)
    ensures IsControl(c) ==> !IsSurrogate(c) && !IsNoncharacter(c) && !IsOutsideRange(c)
    ensures IsAsciiWhitespace(c) ==> (IsControl(c) <==> c != 0x20)
  {
  }

  /** The enumerated noncharacters are exactly the code points U+FDD0..U+FDEF and those ending in FFFE or FFFF. */
  lemma NoncharacterPlanes(c: int)
    ensures IsNoncharacter(c) <==> 0xFDD0 <= c <= 0xFDEF || (0 <= c <= 0x10FFFF && c % 0x10000 >= 0xFFFE)
  {
    if 0 <= c <= 0x10FFFF && c % 0x10000 >= 0xFFFE {
      var plane := c / 0x10000;
      assert c == plane * 0x10000 + c % 0x10000;
      assert 0 <= plane <= 0x10;
    }
  }

  /**
   * The code points the HTML standard substitutes for the C1 control references
   * 0x80..0x9F, as Windows-1252 assigns them; the five bytes Windows-1252 leaves
   * undefined have no entry.
   */
  function Windows1252(c: int): (r: Option<Utf8.Scalar>)
    ensures r.Some? ==> 0x80 <= c <= 0x9F
    ensures 0x80 <= c <= 0x9F ==> (r.None? <==> c in {0x81, 0x8D, 0x8F, 0x90, 0x9D})
  {
    match c
    case 0x80 => Some(0x20AC) // EURO SIGN
    case 0x82 => Some(0x201A) // SINGLE LOW-9 QUOTATION MARK
    case 0x83 => Some(0x0192) // LATIN SMALL LETTER F WITH HOOK
    case 0x84 => Some(0x201E) // DOUBLE LOW-9 QUOTATION MARK
    case 0x85 => Some(0x2026) // HORIZONTAL ELLIPSIS
    case 0x86 => Some(0x2020) // DAGGER
    case 0x87 => Some(0x2021) // DOUBLE DAGGER
    case 0x88 => Some(0x02C6) // MODIFIER LETTER CIRCUMFLEX ACCENT
    case 0x89 => Some(0x2030) // PER MILLE SIGN
    case 0x8A => Some(0x0160) // LATIN CAPITAL LETTER S WITH CARON
    case 0x8B => Some(0x2039) // SINGLE LEFT-POINTING ANGLE QUOTATION MARK
    case 0x8C => Some(0x0152) // LATIN CAPITAL LIGATURE OE
    case 0x8E => Some(0x017D) // LATIN CAPITAL LETTER Z WITH CARON
    case 0x91 => Some(0x2018) // LEFT SINGLE QUOTATION MARK
    case 0x92 => Some(0x2019) // RIGHT SINGLE QUOTATION MARK
    case 0x93 => Some(0x201C) // LEFT DOUBLE QUOTATION MARK
    case 0x94 => Some(0x201D) // RIGHT DOUBLE QUOTATION MARK
    case 0x95 => Some(0x2022) // BULLET
    case 0x96 => Some(0x2013) // EN DASH
    case 0x97 => Some(0x2014) // EM DASH
    case 0x98 => Some(0x02DC) // SMALL TILDE
    case 0x99 => Some(0x2122) // TRADE MARK SIGN
    case 0x9A => Some(0x0161) // LATIN SMALL LETTER S WITH CARON
    case 0x9B => Some(0x203A) // SINGLE RIGHT-POINTING ANGLE QUOTATION MARK
    case 0x9C => Some(0x0153) // LATIN SMALL LIGATURE OE
    case 0x9E => Some(0x017E) // LATIN SMALL LETTER Z WITH CARON
    case 0x9F => Some(0x0178) // LATIN CAPITAL LETTER Y WITH DIAERESIS
    case _ => None
  }

  /** The UTF-8 bytes of one scalar, as `char::to_string` yields them. */
  function CharToBytes(c: Utf8.Scalar): (r: Option<seq<byte>>)
    ensures r.Some? && Utf8.Decode(r.value) == Some(c)
  {
    Utf8.DecodeEncode(c);
    Some(Utf8.Encode(c))
  }

  /** True when `n` draws no replacement and no correction: the reference text is kept. */
  predicate KeepsLiteral(n: int)
  {
    0 < n <= 0x10FFFF && !IsSurrogate(n) &&
    (IsNoncharacter(n) || n == 0x0D || (IsControl(n) && !IsAsciiWhitespace(n) && Windows1252(n).None?))
  }

  /**
   * The bytes a numeric reference with value `number` expands to, or None when the
   * reference is left as written. The arms are tried in order, first match wins.
   */
  function CorrectNumericEntity(number: u32): (r: Option<seq<byte>>)
    // The null reference, values past U+10FFFF and surrogates become U+FFFD.
    ensures number == 0 || IsOutsideRange(number) || IsSurrogate(number) ==>
              r == Some(Utf8.Encode(REPLACEMENT_CHAR))
    // Noncharacters, carriage return and the unmapped controls keep their text; nothing else does.
    ensures r.None? <==> KeepsLiteral(number)
    // The 27 legacy C1 references take their Windows-1252 meaning.
    ensures Windows1252(number).Some? ==> r == Some(Utf8.Encode(Windows1252(number).value))
    // Whitespace other than carriage return, and every ordinary scalar, stands for itself.
    ensures number in {0x09, 0x0A, 0x0C, 0x20} ==> r == Some(Utf8.Encode(number))
    ensures 0 < number && Utf8.IsScalar(number) && !IsNoncharacter(number) && !IsControl(number) ==>
              r == Some(Utf8.Encode(number))
    // Whatever comes out is the encoding of exactly one scalar value.
    ensures r.Some? ==> Utf8.Decode(r.value).Some?
  {
    if number == 0 then CharToBytes(REPLACEMENT_CHAR)
    else if IsOutsideRange(number) then CharToBytes(REPLACEMENT_CHAR)
    else if IsSurrogate(number) then CharToBytes(REPLACEMENT_CHAR)
    else if IsNoncharacter(number) then None
    else if Windows1252(number).Some? then CharToBytes(Windows1252(number).value)
    else if number == 0x0D then None
    else if IsAsciiWhitespace(number) then CharToBytes(number)
    else if IsControl(number) then None
    // `char::from_u32` succeeds here: every non-scalar was caught above.
    else if Utf8.IsScalar(number) then CharToBytes(number)
    else None
  }

  /** The value of one ASCII digit, in any case. */
  function DigitValue(b: byte): (v: nat)
    requires IsHexDigit(b)
    ensures v < 16 && (IsDigit(b) <==> v < 10)
  {
    if IsDigit(b) then b - 0x30
    else if IsLowerHexLetter(b) then b - 0x61 + 10
    else b - 0x41 + 10
  }

  predicate AllDigits(ds: seq<byte>, radix: nat)
  {
    forall k | 0 <= k < |ds| :: if radix == 16 then IsHexDigit(ds[k]) else IsDigit(ds[k])
  }

  /** The value of a digit run read most significant digit first. */
  function DigitsValue(ds: seq<byte>, radix: nat): nat
    requires radix == 10 || radix == 16
    requires AllDigits(ds, radix)
  {
    if ds == [] then 0
    else DigitsValue(ds[..|ds| - 1], radix) * radix + DigitValue(ds[|ds| - 1])
  }

  /**
   * `u32::from_str_radix` on a run of digits: the empty run and a value that does not
   * fit in 32 bits are errors.
   */
  function FromStrRadix(ds: seq<byte>, radix: nat): (r: Option<u32>)
    requires radix == 10 || radix == 16
    requires AllDigits(ds, radix)
    ensures r.Some? <==> ds != [] && DigitsValue(ds, radix) < 0x1_0000_0000
    ensures r.Some? ==> r.value == DigitsValue(ds, radix)
  {
    if ds == [] then None
    else
      var v := DigitsValue(ds, radix);
      if v < 0x1_0000_0000 then Some(v) else None
  }

  /** Appending a digit multiplies the value so far by the radix and adds the digit. */
  lemma DigitsValueAppend(ds: seq<byte>, d: byte, radix: nat)
    requires radix == 10 || radix == 16
    requires AllDigits(ds, radix) && (if radix == 16 then IsHexDigit(d) else IsDigit(d))
    ensures AllDigits(ds + [d], radix)
    ensures DigitsValue(ds + [d], radix) == DigitsValue(ds, radix) * radix + DigitValue(d)
  {
    assert (ds + [d])[..|ds|] == ds;
  }

  /** Hexadecimal digits read the same in either letter case. */
  lemma {:induction false} HexCaseInsensitive(a: seq<byte>, b: seq<byte>)
    requires AllDigits(a, 16) && AllDigits(b, 16) && |a| == |b|
    requires forall k | 0 <= k < |a| :: ToLower(a[k]) == ToLower(b[k])
    ensures DigitsValue(a, 16) == DigitsValue(b, 16)
  {
    if a != [] {
      var n := |a| - 1;
      HexCaseInsensitive(a[..n], b[..n]);
    }
  }
}
