/** The metadata map of `Metadata` (fitz.go:287-314). */
module Meta {
  import opened Bytes

  /** The fixed 256-byte buffer the native metadata lookup writes into */
  const BufferSize: nat := 256

  type Buffer = b: seq<byte> | |b| == BufferSize witness seq(BufferSize, _ => 0)

  /** `bytes.TrimRight(buf, "\x00")`: drop every trailing NUL byte */
  function TrimNul(b: seq<byte>): (r: seq<byte>)
    ensures |r| <= |b| && r == b[..|r|]
    ensures r == [] || r[|r| - 1] != 0
    ensures forall i :: |r| <= i < |b| ==> b[i] == 0
  {
    if |b| > 0 && b[|b| - 1] == 0 then TrimNul(b[..|b| - 1]) else b
  }

  /** TrimNul is the only split of `b` into a part without a trailing NUL and a run of NULs */
  lemma TrimNulUnique(b: seq<byte>, p: seq<byte>)
    requires |p| <= |b| && p == b[..|p|]
    requires p == [] || p[|p| - 1] != 0
    requires forall i :: |p| <= i < |b| ==> b[i] == 0
    ensures p == TrimNul(b)
  {
  }

  /** Output key and native lookup key, in the order the source fills the map.
      The modification date is looked up as `info:modDate`, with a lower-case m. */
  const Fields: seq<(string, string)> := [
    ("format", "format"),
    ("encryption", "encryption"),
    ("title", "info:Title"),
    ("author", "info:Author"),
    ("subject", "info:Subject"),
    ("keywords", "info:Keywords"),
    ("creator", "info:Creator"),
    ("producer", "info:Producer"),
    ("creationDate", "info:CreationDate"),
    ("modDate", "info:modDate")
  ]

  const Keys: set<string> :=
    {"format", "encryption", "title", "author", "subject",
     "keywords", "creator", "producer", "creationDate", "modDate"}

  /** The `lookup` closure: query the native dictionary, trim the NUL padding.
      A Go string is a byte sequence, so the value stays in bytes. */
  function Lookup(native: string -> Buffer, key: string): (value: seq<byte>)
    ensures |value| <= BufferSize
    ensures value == [] || value[|value| - 1] != 0
    ensures native(key) == value + seq(BufferSize - |value|, _ => 0)
  {
    TrimNul(native(key))
  }

  /** True when no output key is assigned twice */
  predicate DistinctOutputs(fields: seq<(string, string)>) {
    forall i, j :: 0 <= i < j < |fields| ==> fields[i].0 != fields[j].0
  }

  lemma FieldsDistinct()
    ensures DistinctOutputs(Fields)
    ensures |Keys| == 10
  {
  }

  /** The output keys of the table are exactly the ten keys */
  lemma FieldKeys()
    ensures (set i | 0 <= i < |Fields| :: Fields[i].0) == Keys
  {
    assert Fields[0].0 == "format";
    assert Fields[1].0 == "encryption";
    assert Fields[2].0 == "title";
    assert Fields[3].0 == "author";
    assert Fields[4].0 == "subject";
    assert Fields[5].0 == "keywords";
    assert Fields[6].0 == "creator";
    assert Fields[7].0 == "producer";
    assert Fields[8].0 == "creationDate";
    assert Fields[9].0 == "modDate";
  }

  /** The map after the assignments `data[out] = lookup(key)` for `fields`, in order */
  function Assign(fields: seq<(string, string)>, native: string -> Buffer): (data: map<string, seq<byte>>)
    ensures data.Keys == set i | 0 <= i < |fields| :: fields[i].0
    decreases |fields|
  {
    if fields == [] then map[]
    else
      var last := fields[|fields| - 1];
      var earlier := fields[..|fields| - 1];
      var data := Assign(earlier, native);
      assert (set i | 0 <= i < |fields| :: fields[i].0)
          == (set i | 0 <= i < |earlier| :: earlier[i].0) + {last.0};
      data[last.0 := Lookup(native, last.1)]
  }

  /** With distinct output keys, each one holds the lookup of its own native key */
  lemma {:induction false} AssignValues(fields: seq<(string, string)>, native: string -> Buffer)
    requires DistinctOutputs(fields)
    ensures forall i :: 0 <= i < |fields| ==> Assign(fields, native)[fields[i].0] == Lookup(native, fields[i].1)
    decreases |fields|
  {
    if fields != [] {
      var earlier := fields[..|fields| - 1];
      AssignValues(earlier, native);
      forall i | 0 <= i < |fields|
        ensures Assign(fields, native)[fields[i].0] == Lookup(native, fields[i].1)
      {
        if i < |fields| - 1 {
          assert earlier[i] == fields[i];
        }
      }
    }
  }

  /** The metadata map, given the native lookup as an oracle from a key to the
      buffer it fills: one entry per row of the table, holding the lookup of that
      row's native key */
  function Metadata(native: string -> Buffer): (data: map<string, seq<byte>>)
    ensures data.Keys == set i | 0 <= i < |Fields| :: Fields[i].0
    ensures forall i :: 0 <= i < |Fields| ==> data[Fields[i].0] == Lookup(native, Fields[i].1)
  {
    FieldsDistinct();
    AssignValues(Fields, native);
    Assign(Fields, native)
  }

  /** The map always holds exactly the ten keys, never fewer or more */
  lemma MetadataKeys(native: string -> Buffer)
    ensures Metadata(native).Keys == Keys
    ensures |Metadata(native)| == 10
  {
    FieldKeys();
    FieldsDistinct();
  }
}
