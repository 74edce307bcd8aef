/**
 * What the decoder promises, stated over the specification functions the decoding
 * methods are proved to compute.
 */
module UnescapeProperties {
  import opened Wrappers
  import opened Bytes
  import opened Entities
  import Numeric
  import Utf8
  import opened Unescape

  // ---------------------------------------------------------------------------
  // Decoding looks only at what lies ahead

  /** Two inputs that agree from `i` and `k` on agree byte by byte there ... */
  lemma IndexShift(s: seq<byte>, i: nat, t: seq<byte>, k: nat, a: nat)
    requires i <= |s| && k <= |t| && s[i..] == t[k..]
    requires i <= a < |s|
    ensures a - i + k < |t| && s[a] == t[a - i + k]
  {
    assert |s| - i == |t| - k;
    assert s[a] == s[i..][a - i];
    assert t[a - i + k] == t[k..][a - i];
  }

  /** ... and on any slice taken there. */
  lemma SliceShift(s: seq<byte>, i: nat, t: seq<byte>, k: nat, a: nat, b: nat)
    requires i <= |s| && k <= |t| && s[i..] == t[k..]
    requires i <= a <= b <= |s|
    ensures b - i + k <= |t| && s[a..b] == t[a - i + k..b - i + k]
  {
    forall m | a <= m < b
      ensures s[m] == t[m - i + k]
    {
      IndexShift(s, i, t, k, m);
    }
    assert |s| - i == |t| - k;
  }

  /** ... and on what follows any point there. */
  lemma SuffixShift(s: seq<byte>, i: nat, t: seq<byte>, k: nat, a: nat)
    requires i <= |s| && k <= |t| && s[i..] == t[k..]
    requires i <= a <= |s|
    ensures a - i + k <= |t| && s[a..] == t[a - i + k..]
  {
    SliceShift(s, i, t, k, a, |s|);
    assert |s| - i == |t| - k;
    assert s[a..] == s[a..|s|];
    assert t[a - i + k..] == t[a - i + k..|t|];
  }

  lemma {:induction false} SpanShift(s: seq<byte>, i: nat, t: seq<byte>, k: nat, cls: ByteClass)
    requires i <= |s| && k <= |t| && s[i..] == t[k..]
    ensures Span(s, i, cls) - i == Span(t, k, cls) - k
    decreases |s| - i
  {
    if i < |s| {
      IndexShift(s, i, t, k, i);
      if Accepts(cls, s[i]) {
        SuffixShift(s, i, t, k, i + 1);
        SpanShift(s, i + 1, t, k + 1, cls);
      }
    } else {
      assert |t| == k;
    }
  }

  lemma ScanShift(s: seq<byte>, i: nat, t: seq<byte>, k: nat)
    requires i < |s| && k < |t| && s[i..] == t[k..] && s[i] == HASH && t[k] == HASH
    ensures ScanNumeric(s, i).hex == ScanNumeric(t, k).hex
    ensures ScanNumeric(s, i).digits == ScanNumeric(t, k).digits
    ensures ScanNumeric(s, i).end - i == ScanNumeric(t, k).end - k
  {
    HexShift(s, i, t, k);
    var hex := ScanNumeric(s, i).hex;
    var d := i + (if hex then 2 else 1);
    SuffixShift(s, i, t, k, d);
    SpanShift(s, d, t, d - i + k, DigitClass(hex));
    var e := Span(s, d, DigitClass(hex));
    SliceShift(s, i, t, k, d, e);
    if e < |s| {
      IndexShift(s, i, t, k, e);
    } else {
      assert e - i + k == |t|;
    }
  }

  /** Both inputs agree on whether the reference is hexadecimal. */
  lemma HexShift(s: seq<byte>, i: nat, t: seq<byte>, k: nat)
    requires i < |s| && k < |t| && s[i..] == t[k..] && s[i] == HASH && t[k] == HASH
    ensures ScanNumeric(s, i).hex == ScanNumeric(t, k).hex
  {
    if i + 1 < |s| {
      IndexShift(s, i, t, k, i + 1);
    } else {
      assert k + 1 == |t|;
    }
  }

  lemma NumericShift(s: seq<byte>, i: nat, t: seq<byte>, k: nat)
    requires i < |s| && k < |t| && s[i..] == t[k..] && s[i] == HASH && t[k] == HASH
    ensures NumericReference(s, i).0 == NumericReference(t, k).0
    ensures NumericReference(s, i).1 - i == NumericReference(t, k).1 - k
  {
    ScanShift(s, i, t, k);
    SliceShift(s, i, t, k, i, ScanNumeric(s, i).end);
  }

  lemma NamedShift(s: seq<byte>, i: nat, t: seq<byte>, k: nat)
    requires i <= |s| && k <= |t| && s[i..] == t[k..]
    ensures NamedReference(s, i).0 == NamedReference(t, k).0
    ensures NamedReference(s, i).1 - i == NamedReference(t, k).1 - k
  {
    SpanShift(s, i, t, k, Alphanumeric);
    var e := Span(s, i, Alphanumeric);
    if e < |s| {
      IndexShift(s, i, t, k, e);
    } else {
      assert e - i + k == |t|;
    }
    assert CandidateEnd(s, i) - i == CandidateEnd(t, k) - k;
    SliceShift(s, i, t, k, i, CandidateEnd(s, i));
    assert Candidate(s, i) == Candidate(t, k);
  }

  /** A reference reads the same, and consumes as much, wherever the input it reads from sits. */
  lemma ReferenceShift(s: seq<byte>, i: nat, t: seq<byte>, k: nat)
    requires i <= |s| && k <= |t| && s[i..] == t[k..]
    ensures Reference(s, i).0 == Reference(t, k).0
    ensures Reference(s, i).1 - i == Reference(t, k).1 - k
  {
    if i < |s| {
      IndexShift(s, i, t, k, i);
      if s[i] == HASH {
        NumericShift(s, i, t, k);
        return;
      }
    } else {
      assert |t| == k;
    }
    NamedShift(s, i, t, k);
  }

  /** After a reference, the two inputs still agree from where decoding resumes. */
  lemma ResumeShift(s: seq<byte>, i: nat, t: seq<byte>, k: nat) returns (j: nat, j': nat)
    requires i < |s| && k < |t| && s[i..] == t[k..]
    ensures j == Reference(s, i + 1).1 && j' == Reference(t, k + 1).1
    ensures Reference(s, i + 1).0 == Reference(t, k + 1).0
    ensures j <= |s| && j' <= |t| && s[j..] == t[j'..]
  {
    SuffixShift(s, i, t, k, i + 1);
    ReferenceShift(s, i + 1, t, k + 1);
    j, j' := Reference(s, i + 1).1, Reference(t, k + 1).1;
    SuffixShift(s, i, t, k, j);
  }

  /** The decoded rest of the input depends on nothing but the rest of the input. */
  lemma {:induction false} DecodeShift(s: seq<byte>, i: nat, t: seq<byte>, k: nat)
    requires i <= |s| && k <= |t| && s[i..] == t[k..]
    ensures DecodeFrom(s, i) == DecodeFrom(t, k)
    decreases |s| - i
  {
    if i < |s| {
      IndexShift(s, i, t, k, i);
      if s[i] != AMPERSAND {
        SuffixShift(s, i, t, k, i + 1);
        DecodeShift(s, i + 1, t, k + 1);
        CopyStep(s, i);
        CopyStep(t, k);
      } else {
        var j, j' := ResumeShift(s, i, t, k);
        DecodeShift(s, j, t, j');
        ReferenceStep(s, i);
        ReferenceStep(t, k);
      }
    } else {
      assert |t| == k;
    }
  }

  /** Decoding from position `i` is decoding the suffix that starts there. */
  lemma DecodeFromSuffix(s: seq<byte>, i: nat)
    requires i <= |s|
    ensures DecodeFrom(s, i) == Decode(s[i..])
  {
    DecodeShift(s, i, s[i..], 0);
  }

  // ---------------------------------------------------------------------------
  // Bytes other than `&`
  //
  // `ReferenceTo`, `SliceStep`, `Regroup` and `Substitute` are bookkeeping that the
  // proofs below call for one step each; they say nothing new about the decoder.

  /** `ReferenceStep` for a reference whose reading is already known. */
  lemma ReferenceTo(s: seq<byte>, i: nat, out: seq<byte>, j: nat)
    requires i < |s| && s[i] == AMPERSAND && Reference(s, i + 1) == (out, j)
    ensures DecodeFrom(s, i) == out + DecodeFrom(s, j)
  {
    ReferenceStep(s, i);
  }

  lemma SliceStep(s: seq<byte>, i: nat, k: nat)
    requires i < k <= |s|
    ensures s[i..k] == [s[i]] + s[i + 1..k]
  {
  }

  /** Regrouping of concatenations: a head before a middle before a tail. */
  lemma Regroup(whole: seq<byte>, head: seq<byte>, rest: seq<byte>, middle: seq<byte>, tail: seq<byte>)
    requires whole == head + rest && rest == middle + tail
    ensures whole == (head + middle) + tail
  {
  }

  /** Replacing the tail of a concatenation by an equal one. */
  lemma Substitute(whole: seq<byte>, head: seq<byte>, tail: seq<byte>, tail': seq<byte>)
    requires whole == head + tail && tail == tail'
    ensures whole == head + tail'
  {
  }

  /** A stretch without `&` is copied unchanged and in order. */
  lemma {:induction false} Passthrough(s: seq<byte>, i: nat, k: nat)
    requires i <= k <= |s|
    requires forall m | i <= m < k :: s[m] != AMPERSAND
    ensures DecodeFrom(s, i) == s[i..k] + DecodeFrom(s, k)
    decreases k - i
  {
    if i < k {
      Passthrough(s, i + 1, k);
      CopyStep(s, i);
      SliceStep(s, i, k);
      Regroup(DecodeFrom(s, i), [s[i]], DecodeFrom(s, i + 1), s[i + 1..k], DecodeFrom(s, k));
    } else {
      assert s[i..k] == [];
    }
  }

  /** Input without `&` decodes to itself. */
  lemma NoAmpersandUnchanged(s: seq<byte>)
    requires forall m | 0 <= m < |s| :: s[m] != AMPERSAND
    ensures Decode(s) == s
  {
    Passthrough(s, 0, |s|);
  }

  /** A prefix without `&` is copied, and the rest decodes as if it stood alone. */
  lemma DecodePlainPrefix(p: seq<byte>, q: seq<byte>)
    requires forall m | 0 <= m < |p| :: p[m] != AMPERSAND
    ensures Decode(p + q) == p + Decode(q)
  {
    var s := p + q;
    Passthrough(s, 0, |p|);
    assert s[..|p|] == p;
    assert s[|p|..] == q;
    DecodeFromSuffix(s, |p|);
  }

  // ---------------------------------------------------------------------------
  // Named references

  /** `&` at `i` begins a named reference: no `#` follows it. */
  predicate NamedAt(s: seq<byte>, i: nat)
  {
    i < |s| && s[i] == AMPERSAND && !(i + 1 < |s| && s[i + 1] == HASH)
  }

  /** An `&` that no name, `;` or `#` follows is kept as it is. */
  lemma BareAmpersand(rest: seq<byte>)
    requires rest == [] || (!IsAlphanumeric(rest[0]) && rest[0] != SEMICOLON && rest[0] != HASH)
    ensures Decode([AMPERSAND] + rest) == [AMPERSAND] + Decode(rest)
  {
    var s := [AMPERSAND] + rest;
    SpanOfRun(s, 1, 1, Alphanumeric);
    assert Candidate(s, 1) == [AMPERSAND];
    NamedFallback(s, 0);
    assert s[0..1] == [AMPERSAND] && s[1..] == rest;
    DecodeFromSuffix(s, 1);
  }

  /** The named reference at the longest key: its expansion, then the rest of the candidate. */
  lemma LongestNamed(s: seq<byte>, i: nat, k: nat)
    requires i <= |s|
    requires var cand := Candidate(s, i);
      ENTITY_MIN_LENGTH <= k <= Min(|cand|, ENTITY_MAX_LENGTH) && cand[..k] in ENTITIES &&
      forall m | k < m <= Min(|cand|, ENTITY_MAX_LENGTH) :: cand[..m] !in ENTITIES
    ensures var cand := Candidate(s, i);
      NamedReference(s, i) == (ENTITIES[cand[..k]] + cand[k..], CandidateEnd(s, i))
  {
    var cand := Candidate(s, i);
    LongestKeyIs(cand, Min(|cand|, ENTITY_MAX_LENGTH), k);
  }

  /**
   * Longest match: when `k` is the longest prefix length of the candidate that is
   * a key, the key's expansion is emitted, then the rest of the candidate verbatim,
   * and decoding resumes after the candidate.
   */
  lemma LongestMatch(s: seq<byte>, i: nat, k: nat)
    requires NamedAt(s, i)
    requires var cand := Candidate(s, i + 1);
      ENTITY_MIN_LENGTH <= k <= Min(|cand|, ENTITY_MAX_LENGTH) && cand[..k] in ENTITIES &&
      forall m | k < m <= Min(|cand|, ENTITY_MAX_LENGTH) :: cand[..m] !in ENTITIES
    ensures var cand := Candidate(s, i + 1);
      DecodeFrom(s, i) == ENTITIES[cand[..k]] + cand[k..] + DecodeFrom(s, CandidateEnd(s, i + 1))
  {
    LongestNamed(s, i + 1, k);
    ReferenceStep(s, i);
  }

  /**
   * Named fallback: a candidate too short to be a key, or none of whose prefixes in
   * range is one, is emitted exactly as it was consumed.
   */
  lemma NamedFallback(s: seq<byte>, i: nat)
    requires NamedAt(s, i)
    requires var cand := Candidate(s, i + 1);
      |cand| < ENTITY_MIN_LENGTH ||
      forall m | ENTITY_MIN_LENGTH <= m <= Min(|cand|, ENTITY_MAX_LENGTH) :: cand[..m] !in ENTITIES
    ensures DecodeFrom(s, i) == s[i..CandidateEnd(s, i + 1)] + DecodeFrom(s, CandidateEnd(s, i + 1))
  {
    var e := CandidateEnd(s, i + 1);
    FallbackReference(s, i);
    ReferenceStep(s, i);
    SliceStep(s, i, e);
  }

  /** The reference of such a candidate reads to the candidate itself, which is the input from `i` to its end. */
  lemma FallbackReference(s: seq<byte>, i: nat)
    requires NamedAt(s, i)
    requires var cand := Candidate(s, i + 1);
      |cand| < ENTITY_MIN_LENGTH ||
      forall m | ENTITY_MIN_LENGTH <= m <= Min(|cand|, ENTITY_MAX_LENGTH) :: cand[..m] !in ENTITIES
    ensures Reference(s, i + 1) == ([s[i]] + s[i + 1..CandidateEnd(s, i + 1)], CandidateEnd(s, i + 1))
  {
  }

  /** A candidate that is itself a key is replaced by the key's expansion, with nothing left over. */
  lemma WholeCandidateIsKey(s: seq<byte>, i: nat)
    requires NamedAt(s, i) && Candidate(s, i + 1) in ENTITIES
    ensures DecodeFrom(s, i) == ENTITIES[Candidate(s, i + 1)] + DecodeFrom(s, CandidateEnd(s, i + 1))
  {
    WholeCandidateReference(s, i);
    ReferenceStep(s, i);
  }

  /** The same, for the reference alone. */
  lemma WholeCandidateReference(s: seq<byte>, i: nat)
    requires NamedAt(s, i) && Candidate(s, i + 1) in ENTITIES
    ensures Reference(s, i + 1) == (ENTITIES[Candidate(s, i + 1)], CandidateEnd(s, i + 1))
  {
    var cand := Candidate(s, i + 1);
    var n := |cand|;
    KeyLength(cand);
    assert cand[..n] == cand && cand[n..] == [] && Min(n, ENTITY_MAX_LENGTH) == n;
    LongestNamed(s, i + 1, n);
    assert ENTITIES[cand] + [] == ENTITIES[cand];
  }

  /** A key written out in full, with nothing after it that could lengthen the name, is the candidate. */
  lemma KeyCandidate(s: seq<byte>, i: nat, key: seq<byte>)
    requires key in ENTITIES
    requires i + |key| <= |s| && s[i..i + |key|] == key
    requires key[|key| - 1] == SEMICOLON || i + |key| == |s| ||
             (!IsAlphanumeric(s[i + |key|]) && s[i + |key|] != SEMICOLON)
    ensures NamedAt(s, i) && ENTITY_MIN_LENGTH <= |key| <= ENTITY_MAX_LENGTH
    ensures CandidateEnd(s, i + 1) == i + |key| && Candidate(s, i + 1) == key
  {
    KeysWithinBounds(key);
    var n := |key|;
    forall m | i <= m < i + n
      ensures s[m] == key[m - i]
    {
      assert s[m] == s[i..i + n][m - i];
    }
    if key[n - 1] == SEMICOLON {
      SpanOfRun(s, i + 1, i + n - 1, Alphanumeric);
    } else {
      SpanOfRun(s, i + 1, i + n, Alphanumeric);
    }
    SliceStep(s, i, i + n);
  }

  /**
   * A key written out in full decodes to its expansion when it ends in `;`, or when
   * the byte after it could not lengthen the name.
   */
  lemma DecodeKey(s: seq<byte>, i: nat, key: seq<byte>)
    requires key in ENTITIES
    requires i + |key| <= |s| && s[i..i + |key|] == key
    requires key[|key| - 1] == SEMICOLON || i + |key| == |s| ||
             (!IsAlphanumeric(s[i + |key|]) && s[i + |key|] != SEMICOLON)
    ensures DecodeFrom(s, i) == ENTITIES[key] + DecodeFrom(s, i + |key|)
  {
    KeyReference(s, i, key);
    ReferenceTo(s, i, ENTITIES[key], i + |key|);
  }

  /** The same, for the reference alone. */
  lemma KeyReference(s: seq<byte>, i: nat, key: seq<byte>)
    requires key in ENTITIES
    requires i + |key| <= |s| && s[i..i + |key|] == key
    requires key[|key| - 1] == SEMICOLON || i + |key| == |s| ||
             (!IsAlphanumeric(s[i + |key|]) && s[i + |key|] != SEMICOLON)
    ensures i < |s| && s[i] == AMPERSAND
    ensures Reference(s, i + 1) == (ENTITIES[key], i + |key|)
  {
    KeyCandidate(s, i, key);
    WholeCandidateReference(s, i);
  }

  /** A key that ends in `;`, and whatever follows it, decode independently. */
  lemma DecodeKeyPrefix(key: seq<byte>, rest: seq<byte>)
    requires key in ENTITIES && key[|key| - 1] == SEMICOLON
    ensures Decode(key + rest) == ENTITIES[key] + Decode(rest)
  {
    var s := key + rest;
    assert s[..|key|] == key && s[|key|..] == rest;
    DecodeKey(s, 0, key);
    DecodeFromSuffix(s, |key|);
    Substitute(Decode(s), ENTITIES[key], DecodeFrom(s, |key|), Decode(rest));
  }

  // ---------------------------------------------------------------------------
  // Numeric references

  /** `&#` at `i` begins a numeric reference. */
  predicate NumericAt(s: seq<byte>, i: nat)
  {
    i + 1 < |s| && s[i] == AMPERSAND && s[i + 1] == HASH
  }

  /** The value of the digits a numeric reference scanned, when they parse. */
  function ScannedValue(s: seq<byte>, i: nat): Option<u32>
    requires NumericAt(s, i)
  {
    var sc := ScanNumeric(s, i + 1);
    Numeric.FromStrRadix(sc.digits, Radix(sc.hex))
  }

  /**
   * Numeric fallback: with no digits, digits past 32 bits, or a value the
   * correction table leaves alone, the consumed text is emitted exactly.
   */
  lemma NumericFallback(s: seq<byte>, i: nat)
    requires NumericAt(s, i)
    requires ScannedValue(s, i).None? || Numeric.KeepsLiteral(ScannedValue(s, i).value)
    ensures var end := ScanNumeric(s, i + 1).end;
      DecodeFrom(s, i) == s[i..end] + DecodeFrom(s, end)
  {
    var end := ScanNumeric(s, i + 1).end;
    KeptReference(s, i);
    ReferenceStep(s, i);
    SliceStep(s, i, end);
  }

  /** The same, for the reference alone: it reads to the text from `i` to where scanning resumes. */
  lemma KeptReference(s: seq<byte>, i: nat)
    requires NumericAt(s, i)
    requires ScannedValue(s, i).None? || Numeric.KeepsLiteral(ScannedValue(s, i).value)
    ensures var end := ScanNumeric(s, i + 1).end;
      Reference(s, i + 1) == ([s[i]] + s[i + 1..end], end)
  {
  }

  /** The same, for a numeric reference at the start of the input: what follows decodes as if it stood alone. */
  lemma NumericFallbackPrefix(s: seq<byte>)
    requires NumericAt(s, 0)
    requires ScannedValue(s, 0).None? || Numeric.KeepsLiteral(ScannedValue(s, 0).value)
    ensures var end := ScanNumeric(s, 1).end;
      Decode(s) == s[..end] + Decode(s[end..])
  {
    var end := ScanNumeric(s, 1).end;
    NumericFallback(s, 0);
    DecodeFromSuffix(s, end);
    assert s[..end] == s[0..end];
    Substitute(Decode(s), s[..end], DecodeFrom(s, end), Decode(s[end..]));
  }

  /**
   * Otherwise the reference becomes one character, the corrected value's UTF-8
   * encoding, and decoding resumes after the consumed text.
   */
  lemma NumericResolved(s: seq<byte>, i: nat)
    requires NumericAt(s, i)
    requires ScannedValue(s, i).Some? && !Numeric.KeepsLiteral(ScannedValue(s, i).value)
    ensures var c := Numeric.CorrectNumericEntity(ScannedValue(s, i).value);
      c.Some? && Utf8.Decode(c.value).Some? &&
      DecodeFrom(s, i) == c.value + DecodeFrom(s, ScanNumeric(s, i + 1).end)
  {
    ResolvedReference(s, i);
    ReferenceStep(s, i);
  }

  /** The same, for the reference alone. */
  lemma ResolvedReference(s: seq<byte>, i: nat)
    requires NumericAt(s, i)
    requires ScannedValue(s, i).Some? && !Numeric.KeepsLiteral(ScannedValue(s, i).value)
    ensures var c := Numeric.CorrectNumericEntity(ScannedValue(s, i).value);
      c.Some? && Utf8.Decode(c.value).Some? &&
      Reference(s, i + 1) == (c.value, ScanNumeric(s, i + 1).end)
  {
  }

  /** Where decoding resumes after a digit run that `tail` follows: past one `;`, if it comes next. */
  function AfterDigits(tail: seq<byte>): seq<byte>
  {
    if tail != [] && tail[0] == SEMICOLON then tail[1..] else tail
  }

  /** The spelling `&#` + `lead` + `ds`, then text that cannot extend the digits. */
  function Spelling(lead: seq<byte>, ds: seq<byte>, tail: seq<byte>): seq<byte>
  {
    [AMPERSAND, HASH] + lead + ds + tail
  }

  /** What the numeric scan makes of such a spelling. */
  lemma ScanSpelling(lead: seq<byte>, ds: seq<byte>, tail: seq<byte>, hex: bool)
    requires hex <==> |lead| == 1
    requires hex ==> lead[0] == LOWER_X || lead[0] == UPPER_X
    requires !hex ==> lead == []
    requires ds != [] && Numeric.AllDigits(ds, Radix(hex))
    requires tail == [] || !Accepts(DigitClass(hex), tail[0])
    ensures var s := Spelling(lead, ds, tail);
      var sc := ScanNumeric(s, 1);
      sc.hex == hex && sc.digits == ds && sc.end <= |s| && s[sc.end..] == AfterDigits(tail)
  {
    var s := Spelling(lead, ds, tail);
    var d := 2 + |lead|;
    var e := d + |ds|;
    assert s[2] == (if hex then lead[0] else ds[0]);
    assert s[d..e] == ds && s[e..] == tail;
    assert forall m | d <= m < e :: s[m] == ds[m - d];
    SpanOfRun(s, d, e, DigitClass(hex));
    if tail != [] {
      assert s[e] == tail[0];
      assert s[e + 1..] == tail[1..];
    }
  }

  /** Both spellings of the value read to the same bytes, and leave the same text behind. */
  lemma SameReference(x: byte, hex: seq<byte>, dec: seq<byte>, tail: seq<byte>)
    requires x == LOWER_X || x == UPPER_X
    requires hex != [] && Numeric.AllDigits(hex, 16)
    requires dec != [] && Numeric.AllDigits(dec, 10)
    requires Numeric.DigitsValue(hex, 16) == Numeric.DigitsValue(dec, 10) < 0x1_0000_0000
    requires !Numeric.KeepsLiteral(Numeric.DigitsValue(dec, 10))
    requires tail == [] || !IsHexDigit(tail[0])
    ensures var a := Spelling([x], hex, tail);
      var b := Spelling([], dec, tail);
      Reference(a, 1).0 == Reference(b, 1).0 &&
      a[Reference(a, 1).1..] == b[Reference(b, 1).1..]
  {
    var a, b := Spelling([x], hex, tail), Spelling([], dec, tail);
    SpellingScanned([x], hex, tail, true);
    SpellingScanned([], dec, tail, false);
    assert ScannedValue(a, 0) == ScannedValue(b, 0);
    ResolvedReference(a, 0);
    ResolvedReference(b, 0);
  }

  /**
   * Hexadecimal (with `x` or `X`) and decimal spellings of the same value decode
   * alike, and so does everything after them, provided the text that follows
   * cannot extend either digit run.
   */
  lemma HexDecimalEquivalent(x: byte, hex: seq<byte>, dec: seq<byte>, tail: seq<byte>)
    requires x == LOWER_X || x == UPPER_X
    requires hex != [] && Numeric.AllDigits(hex, 16)
    requires dec != [] && Numeric.AllDigits(dec, 10)
    requires Numeric.DigitsValue(hex, 16) == Numeric.DigitsValue(dec, 10) < 0x1_0000_0000
    requires !Numeric.KeepsLiteral(Numeric.DigitsValue(dec, 10))
    requires tail == [] || !IsHexDigit(tail[0])
    ensures Decode(Spelling([x], hex, tail)) == Decode(Spelling([], dec, tail))
  {
    var a := Spelling([x], hex, tail);
    var b := Spelling([], dec, tail);
    SameReference(x, hex, dec, tail);
    DecodeShift(a, Reference(a, 1).1, b, Reference(b, 1).1);
    ReferenceStep(a, 0);
    ReferenceStep(b, 0);
  }

  /**
   * A numeric reference whose digits parse to a value the correction table maps,
   * followed by text that cannot extend its digits, decodes to the corrected
   * character; the text after it (past one `;`) decodes as if it stood alone.
   */
  lemma ResolvedSpelling(lead: seq<byte>, ds: seq<byte>, tail: seq<byte>, hex: bool)
    requires hex <==> |lead| == 1
    requires hex ==> lead[0] == LOWER_X || lead[0] == UPPER_X
    requires !hex ==> lead == []
    requires ds != [] && Numeric.AllDigits(ds, Radix(hex))
    requires tail == [] || !Accepts(DigitClass(hex), tail[0])
    requires var v := Numeric.DigitsValue(ds, Radix(hex)); v < 0x1_0000_0000 && !Numeric.KeepsLiteral(v)
    ensures var c := Numeric.CorrectNumericEntity(Numeric.DigitsValue(ds, Radix(hex)));
      c.Some? && Decode(Spelling(lead, ds, tail)) == c.value + Decode(AfterDigits(tail))
  {
    var s, rest := Spelling(lead, ds, tail), AfterDigits(tail);
    SpellingScanned(lead, ds, tail, hex);
    var value := ScannedValue(s, 0);
    assert value == Some(Numeric.DigitsValue(ds, Radix(hex)) as u32);
    NumericResolved(s, 0);
    var end := ScanNumeric(s, 1).end;
    DecodeFromSuffix(s, end);
    Substitute(Decode(s), Numeric.CorrectNumericEntity(value.value).value, DecodeFrom(s, end), Decode(rest));
  }

  /**
   * The same reference with a value past 32 bits or one the correction table leaves
   * alone is kept as written, up to and including one `;`.
   */
  lemma LiteralSpelling(lead: seq<byte>, ds: seq<byte>, tail: seq<byte>, hex: bool)
    requires hex <==> |lead| == 1
    requires hex ==> lead[0] == LOWER_X || lead[0] == UPPER_X
    requires !hex ==> lead == []
    requires ds != [] && Numeric.AllDigits(ds, Radix(hex))
    requires tail == [] || !Accepts(DigitClass(hex), tail[0])
    requires var v := Numeric.DigitsValue(ds, Radix(hex)); v >= 0x1_0000_0000 || Numeric.KeepsLiteral(v)
    ensures var s := Spelling(lead, ds, tail);
      var rest := AfterDigits(tail);
      |rest| <= |s| && Decode(s) == s[..|s| - |rest|] + Decode(rest)
  {
    var s, rest := Spelling(lead, ds, tail), AfterDigits(tail);
    LiteralScanned(lead, ds, tail, hex);
    NumericFallbackPrefix(s);
    var end := ScanNumeric(s, 1).end;
    Substitute(Decode(s), s[..end], Decode(s[end..]), Decode(rest));
  }

  /** The scan of such a spelling: a value the decoder keeps as text, and the text after the digits. */
  lemma LiteralScanned(lead: seq<byte>, ds: seq<byte>, tail: seq<byte>, hex: bool)
    requires hex <==> |lead| == 1
    requires hex ==> lead[0] == LOWER_X || lead[0] == UPPER_X
    requires !hex ==> lead == []
    requires ds != [] && Numeric.AllDigits(ds, Radix(hex))
    requires tail == [] || !Accepts(DigitClass(hex), tail[0])
    requires var v := Numeric.DigitsValue(ds, Radix(hex)); v >= 0x1_0000_0000 || Numeric.KeepsLiteral(v)
    ensures var s := Spelling(lead, ds, tail);
      var end := ScanNumeric(s, 1).end;
      NumericAt(s, 0) && (ScannedValue(s, 0).None? || Numeric.KeepsLiteral(ScannedValue(s, 0).value)) &&
      end == |s| - |AfterDigits(tail)| && s[end..] == AfterDigits(tail)
  {
    SpellingScanned(lead, ds, tail, hex);
  }

  /** The numeric scan of a spelling reads its digits and resumes at the text after them. */
  lemma SpellingScanned(lead: seq<byte>, ds: seq<byte>, tail: seq<byte>, hex: bool)
    requires hex <==> |lead| == 1
    requires hex ==> lead[0] == LOWER_X || lead[0] == UPPER_X
    requires !hex ==> lead == []
    requires ds != [] && Numeric.AllDigits(ds, Radix(hex))
    requires tail == [] || !Accepts(DigitClass(hex), tail[0])
    ensures var s := Spelling(lead, ds, tail);
      var end := ScanNumeric(s, 1).end;
      NumericAt(s, 0) && ScannedValue(s, 0) == Numeric.FromStrRadix(ds, Radix(hex)) &&
      end == |s| - |AfterDigits(tail)| && s[end..] == AfterDigits(tail)
  {
    ScanSpelling(lead, ds, tail, hex);
  }
}
