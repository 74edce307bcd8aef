/** Bytes, the fixed-width integers of the source, and the ASCII byte classes the decoder uses. */
module Bytes {
  /** A Rust `u8`. */
  type byte = b: int | 0 <= b < 0x100

  /** A Rust `u32`. */
  type u32 = n: int | 0 <= n < 0x1_0000_0000

  const AMPERSAND: byte := 0x26    // &
  const HASH: byte := 0x23         // #
  const SEMICOLON: byte := 0x3B    // ;
  const LOWER_X: byte := 0x78      // x
  const UPPER_X: byte := 0x58      // X
  const LESS_THAN: byte := 0x3C    // <
  const GREATER_THAN: byte := 0x3E // >
  const QUOTE: byte := 0x22        // "
  const APOSTROPHE: byte := 0x27   // '

  predicate IsDigit(b: byte) { 0x30 <= b <= 0x39 }
  predicate IsLowerHexLetter(b: byte) { 0x61 <= b <= 0x66 }
  predicate IsUpperHexLetter(b: byte) { 0x41 <= b <= 0x46 }
  predicate IsHexDigit(b: byte) { IsDigit(b) || IsLowerHexLetter(b) || IsUpperHexLetter(b) }
  predicate IsAlphanumeric(b: byte) { IsDigit(b) || 0x61 <= b <= 0x7A || 0x41 <= b <= 0x5A }

  /** ASCII lower-casing of one byte (letters A-Z only). */
  function ToLower(b: byte): byte { if 0x41 <= b <= 0x5A then b + 0x20 else b }
}
