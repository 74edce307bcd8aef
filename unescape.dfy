/**
 * The character reference decoder. A single left-to-right pass copies ordinary
 * bytes and hands every `&` to the reference matcher, which either resolves a
 * numeric reference (`&#...`, `&#x...`) through the correction table or looks up
 * the longest named reference the entity table holds; anything that does not
 * resolve is emitted exactly as it was consumed.
 *
 * The source walks a peekable iterator; here the iterator is an index `i` into
 * the input `s`: peeking is reading `s[i]`, consuming is advancing `i`. The
 * specification functions take the same index and return the bytes to emit with
 * the index where scanning resumes; the methods are proved to compute them.
 */
module Unescape {
  import opened Wrappers
  import opened Bytes
  import opened Entities
  import Numeric
  import Utf8

  function Min(a: nat, b: nat): nat { if a <= b then a else b }

  // ---------------------------------------------------------------------------
  // Consumers

  /** The byte classes of the three consumers. */
  datatype ByteClass = Decimal | Hexadecimal | Alphanumeric

  predicate Accepts(cls: ByteClass, b: byte)
  {
    match cls
    case Decimal => IsDigit(b)
    case Hexadecimal => IsHexDigit(b)
    case Alphanumeric => IsAlphanumeric(b)
  }

  /** Where the run of class-`cls` bytes that starts at `i` ends. */
  function Span(s: seq<byte>, i: nat, cls: ByteClass): (j: nat)
    requires i <= |s|
    ensures i <= j <= |s|
    ensures forall k | i <= k < j :: Accepts(cls, s[k])
    ensures j == |s| || !Accepts(cls, s[j])
    decreases |s| - i
  {
    if i == |s| || !Accepts(cls, s[i]) then i else Span(s, i + 1, cls)
  }

  /** A run of accepted bytes followed by a byte outside the class (or the end) is consumed exactly. */
  lemma {:induction false} SpanOfRun(s: seq<byte>, i: nat, k: nat, cls: ByteClass)
    requires i <= k <= |s|
    requires forall m | i <= m < k :: Accepts(cls, s[m])
    requires k == |s| || !Accepts(cls, s[k])
    ensures Span(s, i, cls) == k
    decreases k - i
  {
    if i < k {
      SpanOfRun(s, i + 1, k, cls);
    }
  }

  /**
   * One consumer: takes bytes of class `cls` from position `i` and stops, without
   * taking it, at the first byte outside the class.
   */
  method Consume(s: seq<byte>, i: nat, cls: ByteClass) returns (run: seq<byte>, j: nat)
    requires i <= |s|
    ensures j == Span(s, i, cls) && run == s[i..j]
  {
    run, j := [], i;
    while j < |s| && Accepts(cls, s[j])
      invariant i <= j <= |s| && run == s[i..j]
      invariant Span(s, i, cls) == Span(s, j, cls)
      decreases |s| - j
    {
      run, j := run + [s[j]], j + 1;
    }
  }

  // ---------------------------------------------------------------------------
  // Named references

  /**
   * Where a named reference whose name starts at `i` ends: after the maximal run
   * of ASCII alphanumerics, and after one `;` when it comes immediately next.
   */
  function CandidateEnd(s: seq<byte>, i: nat): (j: nat)
    requires i <= |s|
    ensures i <= j <= |s|
    ensures forall k | i <= k < j - 1 :: IsAlphanumeric(s[k])
    ensures i < j ==> IsAlphanumeric(s[j - 1]) || s[j - 1] == SEMICOLON
    // Consumption stops only after a `;`, or where the next byte could extend nothing.
    ensures j == |s| || (i < j && s[j - 1] == SEMICOLON) || (!IsAlphanumeric(s[j]) && s[j] != SEMICOLON)
  {
    var e := Span(s, i, Alphanumeric);
    if e < |s| && s[e] == SEMICOLON then e + 1 else e
  }

  /** The candidate: `&`, the name and the optional `;`. */
  function Candidate(s: seq<byte>, i: nat): seq<byte>
    requires i <= |s|
  {
    [AMPERSAND] + s[i..CandidateEnd(s, i)]
  }

  /** A candidate is `&`, ASCII alphanumerics, and a last byte that is alphanumeric or `;`. */
  lemma CandidateShape(s: seq<byte>, i: nat)
    requires i <= |s|
    ensures var cand := Candidate(s, i);
      |cand| == 1 + CandidateEnd(s, i) - i && cand[0] == AMPERSAND &&
      (forall k | 1 <= k < |cand| - 1 :: IsAlphanumeric(cand[k])) &&
      (|cand| > 1 ==> IsAlphanumeric(cand[|cand| - 1]) || cand[|cand| - 1] == SEMICOLON)
  {
    var cand := Candidate(s, i);
    forall k | 1 <= k < |cand| - 1
      ensures IsAlphanumeric(cand[k])
    {
      assert cand[k] == s[i + k - 1];
    }
  }

  /**
   * The descending search of the table: the longest prefix length `k`, from `hi`
   * down to ENTITY_MIN_LENGTH, for which `cand[..k]` is a key.
   */
  function LongestKey(cand: seq<byte>, hi: nat): (r: Option<nat>)
    requires hi <= |cand|
    ensures r.Some? ==> ENTITY_MIN_LENGTH <= r.value <= hi && cand[..r.value] in ENTITIES
    ensures r.Some? ==> forall m | r.value < m <= hi :: cand[..m] !in ENTITIES
    ensures r.None? ==> forall m | ENTITY_MIN_LENGTH <= m <= hi :: cand[..m] !in ENTITIES
    decreases hi
  {
    if hi < ENTITY_MIN_LENGTH then None
    else if cand[..hi] in ENTITIES then Some(hi)
    else LongestKey(cand, hi - 1)
  }

  /**
   * A named reference whose name starts at `i`: the expansion of the longest key
   * followed by the leftover candidate bytes, or the candidate as it was.
   */
  function NamedReference(s: seq<byte>, i: nat): (r: (seq<byte>, nat))
    requires i <= |s|
  {
    var j := CandidateEnd(s, i);
    var candidate := Candidate(s, i);
    if |candidate| < ENTITY_MIN_LENGTH then (candidate, j)
    else
      match LongestKey(candidate, Min(|candidate|, ENTITY_MAX_LENGTH))
      case Some(k) => (ENTITIES[candidate[..k]] + candidate[k..], j)
      case None => (candidate, j)
  }

  /**
   * A named reference consumes its whole candidate, whether or not a key matches,
   * and reads either to the candidate as it is or to a key's expansion followed by
   * the rest of the candidate.
   */
  lemma NamedReferenceShape(s: seq<byte>, i: nat)
    requires i <= |s|
    ensures NamedReference(s, i).1 == CandidateEnd(s, i)
    ensures var cand, r := Candidate(s, i), NamedReference(s, i).0;
      r == cand ||
      exists k | ENTITY_MIN_LENGTH <= k <= |cand| :: cand[..k] in ENTITIES && r == ENTITIES[cand[..k]] + cand[k..]
  {
  }

  // ---------------------------------------------------------------------------
  // Numeric references

  function Radix(hex: bool): nat { if hex then 16 else 10 }

  function DigitClass(hex: bool): ByteClass { if hex then Hexadecimal else Decimal }

  /**
   * What a numeric reference consumes: `#`, an optional `x`/`X`, a digit run and
   * an optional `;`. `end` is where scanning resumes.
   */
  datatype NumericScan = NumericScan(hex: bool, digits: seq<byte>, end: nat)

  /** The scan of the numeric reference whose `#` is at `i`. */
  function ScanNumeric(s: seq<byte>, i: nat): (sc: NumericScan)
    requires i < |s| && s[i] == HASH
    ensures sc.hex <==> i + 1 < |s| && (s[i + 1] == LOWER_X || s[i + 1] == UPPER_X)
    ensures Numeric.AllDigits(sc.digits, Radix(sc.hex))
    ensures var d := i + (if sc.hex then 2 else 1);
      var e := d + |sc.digits|;
      e <= |s| && sc.digits == s[d..e] &&
      // The digit run is maximal ...
      (e == |s| || !Accepts(DigitClass(sc.hex), s[e])) &&
      // ... and the reference ends at its last digit unless a `;` follows.
      sc.end == (if e < |s| && s[e] == SEMICOLON then e + 1 else e)
  {
    var hex := i + 1 < |s| && (s[i + 1] == LOWER_X || s[i + 1] == UPPER_X);
    var d := i + (if hex then 2 else 1);
    var e := Span(s, d, DigitClass(hex));
    var j := if e < |s| && s[e] == SEMICOLON then e + 1 else e;
    NumericScan(hex, s[d..e], j)
  }

  /**
   * The numeric reference whose `#` is at `i`: the corrected character when the
   * digits parse and the correction table gives one, otherwise the consumed text.
   */
  function NumericReference(s: seq<byte>, i: nat): (r: (seq<byte>, nat))
    requires i < |s| && s[i] == HASH
    ensures r.1 == ScanNumeric(s, i).end
  {
    var sc := ScanNumeric(s, i);
    var literal := [AMPERSAND] + s[i..sc.end];
    match Numeric.FromStrRadix(sc.digits, Radix(sc.hex))
    case None => (literal, sc.end)
    case Some(number) =>
      match Numeric.CorrectNumericEntity(number)
      case Some(expansion) => (expansion, sc.end)
      case None => (literal, sc.end)
  }

  // ---------------------------------------------------------------------------
  // References and the decoding pass

  /** The reference whose first byte after `&` is at `i`: numeric when it is `#`, named otherwise. */
  function Reference(s: seq<byte>, i: nat): (r: (seq<byte>, nat))
    requires i <= |s|
    ensures i <= r.1 <= |s|
  {
    if i < |s| && s[i] == HASH then NumericReference(s, i) else NamedReference(s, i)
  }

  /** The decoded form of `s` from position `i` on. */
  function DecodeFrom(s: seq<byte>, i: nat): seq<byte>
    requires i <= |s|
    decreases |s| - i
  {
    if i == |s| then []
    else if s[i] != AMPERSAND then [s[i]] + DecodeFrom(s, i + 1)
    else
      var (expansion, j) := Reference(s, i + 1);
      expansion + DecodeFrom(s, j)
  }

  /** The decoded form of `s`. */
  function Decode(s: seq<byte>): seq<byte>
  {
    DecodeFrom(s, 0)
  }

  // `CopyStep` and `ReferenceStep` are the two defining equations of `DecodeFrom`,
  // stated as lemmas so that proofs can take one step of the decoder at a time.

  /** A byte other than `&` is copied as it is. */
  lemma CopyStep(s: seq<byte>, i: nat)
    requires i < |s| && s[i] != AMPERSAND
    ensures DecodeFrom(s, i) == [s[i]] + DecodeFrom(s, i + 1)
  {
  }

  /** An `&` is replaced by what its reference reads to, and decoding resumes after it. */
  lemma ReferenceStep(s: seq<byte>, i: nat)
    requires i < |s| && s[i] == AMPERSAND
    ensures DecodeFrom(s, i) == Reference(s, i + 1).0 + DecodeFrom(s, Reference(s, i + 1).1)
  {
  }

  // ---------------------------------------------------------------------------
  // The imperative decoder
  //
  // `DriverStep`, `Grow`, `GrowOne`, `NumericScanAt`, `CandidateAt` and `RunDigits` are proof steps
  // for the methods below: each restates what a method has gathered so far in the
  // terms of the specification functions. They model nothing of their own.

  /** The driver's output so far, followed by what decoding still has to produce, is the decoded input. */
  lemma DriverStep(s: seq<byte>, i: nat, buffer: seq<byte>, out: seq<byte>, j: nat)
    requires i < j <= |s|
    requires buffer + DecodeFrom(s, i) == Decode(s)
    requires DecodeFrom(s, i) == out + DecodeFrom(s, j)
    ensures (buffer + out) + DecodeFrom(s, j) == Decode(s)
  {
  }

  /** The reference text kept so far, `&` and the input from `i` to `j`, grows by a slice ... */
  lemma Grow(s: seq<byte>, i: nat, j: nat, k: nat, kept: seq<byte>)
    requires i <= j <= k <= |s| && kept == [AMPERSAND] + s[i..j]
    ensures kept + s[j..k] == [AMPERSAND] + s[i..k]
  {
    assert s[i..j] + s[j..k] == s[i..k];
  }

  /** ... or by the byte at `j`. */
  lemma GrowOne(s: seq<byte>, i: nat, j: nat, kept: seq<byte>)
    requires i <= j < |s| && kept == [AMPERSAND] + s[i..j]
    ensures kept + [s[j]] == [AMPERSAND] + s[i..j + 1]
  {
    assert s[i..j] + [s[j]] == s[i..j + 1];
  }

  /** What the numeric matcher has gathered, once it reaches the end of the reference, is the scan. */
  lemma NumericScanAt(s: seq<byte>, i: nat, hex: bool, e: nat, end: nat)
    requires i < |s| && s[i] == HASH
    requires hex <==> i + 1 < |s| && (s[i + 1] == LOWER_X || s[i + 1] == UPPER_X)
    requires i + (if hex then 2 else 1) <= |s|
    requires e == Span(s, i + (if hex then 2 else 1), DigitClass(hex))
    requires end == (if e < |s| && s[e] == SEMICOLON then e + 1 else e)
    ensures ScanNumeric(s, i) == NumericScan(hex, s[i + (if hex then 2 else 1)..e], end)
  {
  }

  /** The run the digit consumer takes is a run of digits in the radix. */
  lemma RunDigits(s: seq<byte>, d: nat, hex: bool)
    requires d <= |s|
    ensures Numeric.AllDigits(s[d..Span(s, d, DigitClass(hex))], Radix(hex))
  {
    var e := Span(s, d, DigitClass(hex));
    forall k | 0 <= k < e - d
      ensures Accepts(DigitClass(hex), s[d..e][k])
    {
      assert s[d..e][k] == s[d + k];
    }
  }

  /** `match_numeric_entity`: the iterator stands on the `#` that follows an `&`. */
  method MatchNumericEntity(s: seq<byte>, i: nat) returns (expansion: seq<byte>, j: nat)
    requires i < |s| && s[i] == HASH
    ensures (expansion, j) == NumericReference(s, i)
  {
    GrowOne(s, i, i, [AMPERSAND]);
    var bestExpansion := [AMPERSAND, HASH];
    j := i + 1;
    if j == |s| {
      // The input ends right after `&#`.
      NumericScanAt(s, i, false, j, j);
      assert bestExpansion == [AMPERSAND] + s[i..j];
      return bestExpansion, j;
    }
    var isHex := s[j] == LOWER_X || s[j] == UPPER_X;
    if isHex {
      // Hexadecimal reference.
      GrowOne(s, i, j, bestExpansion);
      bestExpansion := bestExpansion + [s[j]];
      j := j + 1;
    }
    var digits, e := Consume(s, j, DigitClass(isHex));
    RunDigits(s, j, isHex);
    Grow(s, i, j, e, bestExpansion);
    bestExpansion := bestExpansion + digits;
    var number := Numeric.FromStrRadix(digits, Radix(isHex));
    j := e;
    if j < |s| && s[j] == SEMICOLON {
      GrowOne(s, i, j, bestExpansion);
      bestExpansion := bestExpansion + [s[j]];
      j := j + 1;
    }
    NumericScanAt(s, i, isHex, e, j);
    if number.Some? {
      var corrected := Numeric.CorrectNumericEntity(number.value);
      if corrected.Some? {
        return corrected.value, j;
      }
    }
    return bestExpansion, j;
  }

  /** The candidate the named matcher has gathered is the one the specification describes. */
  lemma CandidateAt(s: seq<byte>, i: nat, e: nat, j: nat, candidate: seq<byte>)
    requires i <= |s| && e == Span(s, i, Alphanumeric)
    requires j == (if e < |s| && s[e] == SEMICOLON then e + 1 else e)
    requires candidate == [AMPERSAND] + s[i..j]
    ensures CandidateEnd(s, i) == j && Candidate(s, i) == candidate
  {
  }

  /** A key with no longer key above it, up to `hi`, is the one the search finds. */
  lemma LongestKeyIs(cand: seq<byte>, hi: nat, k: nat)
    requires ENTITY_MIN_LENGTH <= k <= hi <= |cand| && cand[..k] in ENTITIES
    requires forall m | k < m <= hi :: cand[..m] !in ENTITIES
    ensures LongestKey(cand, hi) == Some(k)
  {
  }

  /** `match_entity`: the iterator stands just after an `&`. */
  method MatchEntity(s: seq<byte>, i: nat) returns (expansion: seq<byte>, j: nat)
    requires i <= |s|
    ensures (expansion, j) == Reference(s, i)
  {
    if i < |s| && s[i] == HASH {
      expansion, j := MatchNumericEntity(s, i);
      return;
    }
    // The longest possible candidate, including `&` and any trailing `;`.
    var run, e := Consume(s, i, Alphanumeric);
    var candidate := [AMPERSAND] + run;
    j := e;
    if j < |s| && s[j] == SEMICOLON {
      GrowOne(s, i, j, candidate);
      candidate := candidate + [s[j]];
      j := j + 1;
    }
    CandidateAt(s, i, e, j, candidate);
    if |candidate| < ENTITY_MIN_LENGTH {
      return candidate, j;
    }
    // Find the longest matching key.
    var maxLen := Min(|candidate|, ENTITY_MAX_LENGTH);
    for checkLen := maxLen + 1 downto ENTITY_MIN_LENGTH
      invariant forall m | checkLen <= m <= maxLen :: candidate[..m] !in ENTITIES
    {
      if candidate[..checkLen] in ENTITIES {
        var result := ENTITIES[candidate[..checkLen]];
        if checkLen < |candidate| {
          result := result + candidate[checkLen..];
        } else {
          assert result == result + candidate[checkLen..];
        }
        LongestKeyIs(candidate, maxLen, checkLen);
        return result, j;
      }
    }
    return candidate, j;
  }

  /** `unescape`: expands every reference in `escaped`. */
  method Unescape(escaped: seq<byte>) returns (buffer: seq<byte>)
    ensures buffer == Decode(escaped)
  {
    buffer := [];
    var i := 0;
    while i < |escaped|
      invariant i <= |escaped|
      invariant buffer + DecodeFrom(escaped, i) == Decode(escaped)
      decreases |escaped| - i
    {
      var c := escaped[i];
      i := i + 1;
      if c == AMPERSAND {
        var expansion, j := MatchEntity(escaped, i);
        ReferenceStep(escaped, i - 1);
        DriverStep(escaped, i - 1, buffer, expansion, j);
        buffer := buffer + expansion;
        i := j;
      } else {
        CopyStep(escaped, i - 1);
        DriverStep(escaped, i - 1, buffer, [c], i);
        buffer := buffer + [c];
      }
    }
  }
}
