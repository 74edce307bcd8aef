/**
 * UTF-8 encoding of a single Unicode scalar value, following section 3 of RFC 3629.
 * This stands in for Rust's `char::to_string`, which the decoder uses to turn a
 * corrected code point into bytes.
 */
module Utf8 {
  import opened Wrappers
  import opened Bytes

  /** A Unicode scalar value: a code point that is not a surrogate. */
  predicate IsScalar(c: int) { 0 <= c <= 0x10FFFF && !(0xD800 <= c <= 0xDFFF) }

  type Scalar = c: int | IsScalar(c)

  predicate IsContinuation(b: byte) { 0x80 <= b <= 0xBF }

  /** The number of bytes RFC 3629 spends on a scalar. */
  function Width(c: Scalar): nat
  {
    if c < 0x80 then 1 else if c < 0x800 then 2 else if c < 0x10000 then 3 else 4
  }

  /** The shortest-form UTF-8 encoding of `c`: a lead byte followed by continuation bytes. */
  function Encode(c: Scalar): (r: seq<byte>)
    ensures |r| == Width(c)
    ensures forall k | 1 <= k < |r| :: IsContinuation(r[k])
  {
    assert IsScalar(c);
    if c < 0x80 then [c as byte]
    else if c < 0x800 then [0xC0 + c / 0x40, 0x80 + c % 0x40]
    else if c < 0x10000 then [0xE0 + c / 0x1000, 0x80 + c / 0x40 % 0x40, 0x80 + c % 0x40]
    else
      LeadBound(c);
      [0xF0 + c / 0x40000, 0x80 + c / 0x1000 % 0x40, 0x80 + c / 0x40 % 0x40, 0x80 + c % 0x40]
  }

  /**
   * Decodes a byte sequence that is exactly one well-formed UTF-8 character
   * (shortest form, no surrogates, nothing above U+10FFFF); anything else is None.
   */
  function Decode(bs: seq<byte>): Option<Scalar>
  {
    if |bs| == 1 && bs[0] < 0x80 then Some(bs[0] as int)
    else if |bs| == 2 && 0xC2 <= bs[0] <= 0xDF && IsContinuation(bs[1]) then
      Some((bs[0] as int - 0xC0) * 0x40 + (bs[1] as int - 0x80))
    else if |bs| == 3 && 0xE0 <= bs[0] <= 0xEF && IsContinuation(bs[1]) && IsContinuation(bs[2]) then
      var c := (bs[0] as int - 0xE0) * 0x1000 + (bs[1] as int - 0x80) * 0x40 + (bs[2] as int - 0x80);
      if 0x800 <= c && IsScalar(c) then Some(c) else None
    else if |bs| == 4 && 0xF0 <= bs[0] <= 0xF4 && IsContinuation(bs[1]) && IsContinuation(bs[2])
            && IsContinuation(bs[3]) then
      var c := (bs[0] as int - 0xF0) * 0x40000 + (bs[1] as int - 0x80) * 0x1000
               + (bs[2] as int - 0x80) * 0x40 + (bs[3] as int - 0x80);
      if 0x10000 <= c <= 0x10FFFF then Some(c) else None
    else None
  }

  /** Encoding is undone by decoding: the encoding of a scalar is one well-formed character. */
  lemma DecodeEncode(c: Scalar)
    ensures Decode(Encode(c)) == Some(c)
  {
    assert IsScalar(c);
    var q := c / 0x40;
    assert c == q * 0x40 + c % 0x40;
    if 0x800 <= c {
      var p := q / 0x40;
      assert p == c / 0x1000;
      assert q == p * 0x40 + q % 0x40;
      if 0x10000 <= c {
        LeadBound(c);
        assert p / 0x40 == c / 0x40000;
        assert p == (p / 0x40) * 0x40 + p % 0x40;
      }
    }
  }

  /** Every well-formed single character is the encoding of what it decodes to. */
  lemma EncodeDecode(bs: seq<byte>)
    requires Decode(bs).Some?
    ensures Encode(Decode(bs).value) == bs
  {
    if |bs| == 2 {
      EncodeDecodeTwo(bs);
    } else if |bs| == 3 {
      EncodeDecodeThree(bs);
    } else if |bs| == 4 {
      EncodeDecodeFour(bs);
    }
  }

  lemma EncodeDecodeTwo(bs: seq<byte>)
    requires |bs| == 2 && Decode(bs).Some?
    ensures Encode(Decode(bs).value) == bs
  {
    Split(bs[0] as int - 0xC0, bs[1] as int - 0x80, 0x40);
  }

  lemma EncodeDecodeThree(bs: seq<byte>)
    requires |bs| == 3 && Decode(bs).Some?
    ensures Encode(Decode(bs).value) == bs
  {
    var b0, b1, b2 := bs[0] as int - 0xE0, bs[1] as int - 0x80, bs[2] as int - 0x80;
    var c := Decode(bs).value;
    assert c == (b0 * 0x40 + b1) * 0x40 + b2;
    Split(b0 * 0x40 + b1, b2, 0x40);
    Split(b0, b1, 0x40);
    Split(b0, b1 * 0x40 + b2, 0x1000);
  }

  lemma EncodeDecodeFour(bs: seq<byte>)
    requires |bs| == 4 && Decode(bs).Some?
    ensures Encode(Decode(bs).value) == bs
  {
    var b0, b1, b2, b3 := bs[0] as int - 0xF0, bs[1] as int - 0x80, bs[2] as int - 0x80, bs[3] as int - 0x80;
    var c := Decode(bs).value;
    var top := b0 * 0x40 + b1;
    var mid := top * 0x40 + b2;
    assert c == mid * 0x40 + b3;
    Split(mid, b3, 0x40);
    Split(top, b2, 0x40);
    Split(b0, b1, 0x40);
    Split(top, b2 * 0x40 + b3, 0x1000);
    Split(b0, b1 * 0x1000 + b2 * 0x40 + b3, 0x40000);
  }

  /** The lead byte of a four-byte character carries at most 4, since U+10FFFF is the last scalar. */
  lemma LeadBound(c: int)
    requires 0 <= c <= 0x10FFFF
    ensures c / 0x40000 <= 4
  {
    var q, r := c / 0x40000, c % 0x40000;
    assert c == q * 0x40000 + r;
    assert 0 <= r;
  }

  /** Division and remainder by a power of two undo a multiply-and-add by it. */
  lemma Split(q: int, r: int, d: int)
    requires d == 0x40 || d == 0x1000 || d == 0x40000
    requires 0 <= r < d
    ensures (q * d + r) / d == q && (q * d + r) % d == r
  {
    if d == 0x40 {
      assert (q * 0x40 + r) / 0x40 == q;
    } else if d == 0x1000 {
      assert (q * 0x1000 + r) / 0x1000 == q;
    } else {
      assert (q * 0x40000 + r) / 0x40000 == q;
    }
  }
}
