/**
 * The named character reference table. The real table is generated at build time
 * from the WHATWG entity list and is not part of this model. Here it is a constant
 * known only through what every such table satisfies (the shape of its keys) and a
 * handful of entries, present and absent, as the WHATWG list has them. The
 * decoder's properties are proved from the shape alone; only the worked examples
 * look at the entries.
 */
module Entities {
  import opened Bytes

  /** Length in bytes of the shortest key, `&lt` and its kin. */
  const ENTITY_MIN_LENGTH: nat := 3

  /** Length in bytes of the longest key, `&CounterClockwiseContourIntegral;`. */
  const ENTITY_MAX_LENGTH: nat := 33

  /** A key: `&`, a name of ASCII alphanumerics and possibly a closing `;`, within the two bounds. */
  predicate IsKey(key: seq<byte>)
  {
    ENTITY_MIN_LENGTH <= |key| <= ENTITY_MAX_LENGTH && key[0] == AMPERSAND &&
    (forall k | 1 <= k < |key| - 1 :: IsAlphanumeric(key[k])) &&
    (IsAlphanumeric(key[|key| - 1]) || key[|key| - 1] == SEMICOLON)
  }

  /** Every key of the table has the shape of one. */
  predicate WellShaped(table: map<seq<byte>, seq<byte>>)
  {
    forall key | key in table :: IsKey(key)
  }

  /** A table holding the entries of the WHATWG list the worked examples rely on, and nothing else. */
  const SAMPLE: map<seq<byte>, seq<byte>> := map[
    [0x26, 0x61, 0x6D, 0x70, 0x3B] := [AMPERSAND], // &amp;
    [0x26, 0x41, 0x4D, 0x50, 0x3B] := [AMPERSAND], // &AMP;
    [0x26, 0x6C, 0x74, 0x3B] := [LESS_THAN], // &lt;
    [0x26, 0x67, 0x74, 0x3B] := [GREATER_THAN], // &gt;
    [0x26, 0x71, 0x75, 0x6F, 0x74, 0x3B] := [QUOTE], // &quot;
    [0x26, 0x61, 0x70, 0x6F, 0x73, 0x3B] := [APOSTROPHE], // &apos;
    [0x26, 0x74, 0x69, 0x6D, 0x65, 0x73] := [0xC3, 0x97], // &times → U+00D7 MULTIPLICATION SIGN
    [0x26, 0x74, 0x69, 0x6D, 0x65, 0x73, 0x3B] := [0xC3, 0x97], // &times;
    [0x26, 0x74, 0x69, 0x6D, 0x65, 0x73, 0x62, 0x3B] := [0xE2, 0x8A, 0xA0] // &timesb; → U+22A0 SQUARED TIMES
  ]

  /** Names the worked examples rely on the WHATWG list not having. */
  const ABSENT: set<seq<byte>> := {
    [0x26, 0x74, 0x69], // &ti
    [0x26, 0x74, 0x69, 0x6D], // &tim
    [0x26, 0x74, 0x69, 0x6D, 0x65], // &time
    [0x26, 0x74, 0x69, 0x6D, 0x65, 0x73, 0x61], // &timesa
    [0x26, 0x74, 0x69, 0x6D, 0x65, 0x73, 0x62] // &timesb
  }

  /** `key` is one of the sample keys. */
  predicate Sampled(key: seq<byte>)
  {
    key in SAMPLE
  }

  /** The expansion the WHATWG list gives a sample key. */
  function SampleExpansion(key: seq<byte>): seq<byte>
    requires Sampled(key)
  {
    SAMPLE[key]
  }

  /** `name` is one of the names the WHATWG list does not have. */
  predicate Absent(name: seq<byte>)
  {
    name in ABSENT
  }

  /** `name` is `&` followed by nothing but `a`: no name of the WHATWG list has that form. */
  predicate OnlyAs(name: seq<byte>)
  {
    |name| >= 1 && name[0] == AMPERSAND && forall k | 1 <= k < |name| :: name[k] == 0x61
  }

  /**
   * The table agrees with SAMPLE on its keys, has none of the ABSENT names and no
   * name made of `a` alone. The facts are reached through `Sampled`, `Absent` and
   * `OnlyAs`, so that proofs which name no such key never see them.
   */
  ghost predicate HasSampleEntries(table: map<seq<byte>, seq<byte>>)
  {
    (forall key {:trigger Sampled(key)} | Sampled(key) :: key in table && table[key] == SampleExpansion(key)) &&
    (forall name {:trigger Absent(name)} | Absent(name) :: name !in table) &&
    (forall name {:trigger OnlyAs(name)} | OnlyAs(name) :: name !in table)
  }

  /** The sample table is one: its keys have the shape of keys. */
  lemma SampleIsTable()
    ensures WellShaped(SAMPLE) && HasSampleEntries(SAMPLE)
  {
    forall key | key in SAMPLE
      ensures IsKey(key)
    {
      KeyShape(key);
    }
    forall name | Absent(name)
      ensures name !in SAMPLE
    {
      NotSampled(name);
    }
    forall name | OnlyAs(name)
      ensures name !in SAMPLE
    {
      NotOnlyAs(name);
    }
  }

  /** No sample key is made of `a` alone. */
  lemma NotOnlyAs(name: seq<byte>)
    requires OnlyAs(name)
    ensures name !in SAMPLE
  {
    assert |name| < 3 || (name[1] == 0x61 && name[2] == 0x61);
    forall key | key in SAMPLE
      ensures |key| >= 3 && (key[1] != 0x61 || key[2] != 0x61)
    {
    }
  }

  /** No absent name is a sample key. */
  lemma NotSampled(name: seq<byte>)
    requires Absent(name)
    ensures name !in SAMPLE
  {
  }

  /** A sample key has the shape of a key. */
  lemma KeyShape(key: seq<byte>)
    requires key in SAMPLE
    ensures IsKey(key)
  {
    assert forall k | 1 <= k < |key| - 1 :: IsAlphanumeric(key[k]);
  }

  type Table = table: map<seq<byte>, seq<byte>> | WellShaped(table) && HasSampleEntries(table)
    witness (SampleIsTable(); SAMPLE)

  /** The generated table. */
  const ENTITIES: Table

  /** Every key of the table has the shape of a key. */
  lemma KeysWithinBounds(key: seq<byte>)
    requires key in ENTITIES
    ensures IsKey(key)
  {
  }

  /** The length of every key lies within the two bounds. */
  lemma KeyLength(key: seq<byte>)
    requires key in ENTITIES
    ensures ENTITY_MIN_LENGTH <= |key| <= ENTITY_MAX_LENGTH
  {
    KeysWithinBounds(key);
  }

  /** Each sample entry is an entry of the table. */
  lemma SampleEntry(key: seq<byte>)
    requires key in SAMPLE
    ensures key in ENTITIES && ENTITIES[key] == SAMPLE[key]
  {
    assert Sampled(key);
  }

  /** No absent name is a key of the table. */
  lemma AbsentName(name: seq<byte>)
    requires name in ABSENT
    ensures name !in ENTITIES
  {
    assert Absent(name);
  }

  /** No name of the table is `&` followed by `a` alone. */
  lemma OnlyAsAbsent(name: seq<byte>)
    requires OnlyAs(name)
    ensures name !in ENTITIES
  {
  }
}
