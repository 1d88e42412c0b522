/**
 The schema-driven codec between the flat face-data array of a raw record
 and the nested face-data tree of a parsed record (`decodeRawToParsed` and
 `encodeParsedToRaw`). Hair data is carried through untouched both ways.
 */
module FaceCodec {
  import opened Json
  import opened Accessor
  import opened Schema

  /** The hair parameters of a record; opaque to the face codec. */
  datatype HairData = HairData(
    heroId: real,
    hairId: real,
    version: real,
    baseLevelId: real,
    paramData: map<string, map<string, seq<real>>>)

  /** A record with the face data as a flat array (the wire form). */
  datatype RawData = RawData(faceData: seq<Node>, hairData: HairData)

  /** A record with the face data as a tree; `None` when the field is missing. */
  datatype ParsedData = ParsedData(faceData: Option<Node>, hairData: HairData)

  /** `a[i]`: `undefined` past the end. */
  function ElementAt(a: seq<Node>, i: nat): (r: Option<Node>)
    ensures r.Some? <==> i < |a|
    ensures r.Some? ==> r.value == a[i]
  {
    if i < |a| then Some(a[i]) else None
  }

  /** The assignment `a[i] = v`: past the end it grows the array, leaving
      holes (read back as `null`) between the old end and `i`. */
  function Store(a: seq<Node>, i: nat, v: Node): (r: seq<Node>)
    ensures |r| == if i < |a| then |a| else i + 1
    ensures r[i] == v
    ensures forall j :: 0 <= j < |a| && j != i ==> r[j] == a[j]
  {
    if i < |a| then a[i := v] else a + seq(i - |a|, _ => Null) + [v]
  }

  /** `new Array(n).fill(0)`. */
  function Zeros(n: nat): (r: seq<Node>)
    ensures |r| == n
    ensures forall i :: 0 <= i < n ==> r[i] == Num(0.0)
  {
    seq(n, _ => Num(0.0))
  }

  /** What the decoder writes at every entry: `raw.faceData[entry.index] ?? 0`. */
  function DecodePlan(schema: seq<Entry>, a: seq<Node>): (plan: seq<Option<Node>>)
    ensures |plan| == |schema|
    ensures forall k :: 0 <= k < |schema| ==> plan[k] == Some(Coalesce(ElementAt(a, schema[k].index)))
  {
    seq(|schema|, k requires 0 <= k < |schema| => Some(Coalesce(ElementAt(a, schema[k].index))))
  }

  /** `decodeRawToParsed`: starting from `{}`, write every entry's array value
      at its path, creating intermediate objects. */
  function DecodeRawToParsed(schema: seq<Entry>, raw: RawData): (r: Result<ParsedData>)
    ensures r.Err? ==> r.error == TypeError
    ensures r.Ok? ==> r.value.hairData == raw.hairData
    ensures r.Ok? ==> r.value.faceData.Some? && r.value.faceData.value.Obj?
  {
    match Apply(schema, DecodePlan(schema, raw.faceData), Obj(map[]), 0)
    case Err(e) => Err(e)
    case Ok(root) => Ok(ParsedData(Some(root), raw.hairData))
  }

  /** The inner loop of `encodeParsedToRaw` for one entry: 0 as soon as the
      walk meets `undefined` or `null`, otherwise the last property `?? 0`. */
  function ReadSlot(current: Option<Node>, parts: seq<string>): (r: Node)
    requires |parts| >= 1
    ensures r != Null
    decreases |parts|
  {
    if current == None || current == Some(Null) then Num(0.0)
    else if |parts| == 1 then Coalesce(Index(current.value, parts[0]))
    else ReadSlot(Index(current.value, parts[0]), parts[1..])
  }

  /** The outer loop of `encodeParsedToRaw`, from entry `from` on. */
  function FillSlots(schema: seq<Entry>, face: Option<Node>, acc: seq<Node>, from: nat): (r: seq<Node>)
    ensures |r| >= |acc|
    ensures forall k :: from <= k < |schema| ==> schema[k].index < |r|
    decreases |schema| - from
  {
    if from >= |schema| then acc
    else
      var e := schema[from];
      FillSlots(schema, face, Store(acc, e.index, ReadSlot(face, Segments(e))), from + 1)
  }

  /** `encodeParsedToRaw`: a zero array of schema length, then every entry's
      path read back into its slot. */
  function EncodeParsedToRaw(schema: seq<Entry>, parsed: ParsedData): (r: RawData)
    ensures r.hairData == parsed.hairData
    ensures |r.faceData| >= |schema|
  {
    RawData(FillSlots(schema, parsed.faceData, Zeros(|schema|), 0), parsed.hairData)
  }

  /** The array the codec reconstructs from `a`: `n` slots, each `a[i] ?? 0`. */
  function Normalize(a: seq<Node>, n: nat): (r: seq<Node>)
    ensures |r| == n
  {
    seq(n, i requires 0 <= i < n => Coalesce(ElementAt(a, i)))
  }

  // ---------------------------------------------------------------------
  // The encoder's read agrees with getValueByPath.

  /** The encoder's inline walk is `getValueByPath(...) ?? 0`. */
  lemma {:induction false} ReadSlotIsGetPath(current: Option<Node>, parts: seq<string>)
    requires |parts| >= 1
    ensures ReadSlot(current, parts) == Coalesce(GetPath(current, parts))
    decreases |parts|
  {
    if current != None && current != Some(Null) && |parts| > 1 {
      ReadSlotIsGetPath(Index(current.value, parts[0]), parts[1..]);
    }
  }

  // ---------------------------------------------------------------------
  // The shape of the encoder's output.

  /** With indices in range, the loop never grows the array. */
  lemma {:induction false} FillKeepsLength(schema: seq<Entry>, face: Option<Node>, acc: seq<Node>, from: nat)
    requires forall k :: from <= k < |schema| ==> schema[k].index < |acc|
    ensures |FillSlots(schema, face, acc, from)| == |acc|
    decreases |schema| - from
  {
    if from < |schema| {
      var e := schema[from];
      FillKeepsLength(schema, face, Store(acc, e.index, ReadSlot(face, Segments(e))), from + 1);
    }
  }

  /** A slot no remaining entry owns keeps its value. */
  lemma {:induction false} FillUntouched(schema: seq<Entry>, face: Option<Node>, acc: seq<Node>, from: nat, i: nat)
    requires i < |acc|
    requires forall k :: from <= k < |schema| ==> schema[k].index != i
    ensures FillSlots(schema, face, acc, from)[i] == acc[i]
    decreases |schema| - from
  {
    if from < |schema| {
      var e := schema[from];
      FillUntouched(schema, face, Store(acc, e.index, ReadSlot(face, Segments(e))), from + 1, i);
    }
  }

  /** With distinct indices, each entry's slot holds what its path reads. */
  lemma {:induction false} FillWritten(schema: seq<Entry>, face: Option<Node>, acc: seq<Node>, from: nat)
    requires DistinctIndices(schema)
    ensures forall k :: from <= k < |schema| ==>
      FillSlots(schema, face, acc, from)[schema[k].index] == ReadSlot(face, Segments(schema[k]))
    decreases |schema| - from
  {
    if from < |schema| {
      var e := schema[from];
      var acc' := Store(acc, e.index, ReadSlot(face, Segments(e)));
      FillWritten(schema, face, acc', from + 1);
      FillUntouched(schema, face, acc', from + 1, e.index);
    }
  }

  /** `encodeParsedToRaw` returns exactly N slots when the indices are in
      range, at least N in any case, and 0 in every slot no entry owns. */
  lemma EncodeShape(schema: seq<Entry>, parsed: ParsedData)
    ensures var a := EncodeParsedToRaw(schema, parsed).faceData;
      && (IndicesInRange(schema) ==> |a| == |schema|)
      && forall i: nat :: i < |schema| && !Covers(schema, i) ==> a[i] == Num(0.0)
  {
    var z := Zeros(|schema|);
    if IndicesInRange(schema) {
      FillKeepsLength(schema, parsed.faceData, z, 0);
    }
    forall i: nat | i < |schema| && !Covers(schema, i)
      ensures EncodeParsedToRaw(schema, parsed).faceData[i] == Num(0.0)
    {
      FillUntouched(schema, parsed.faceData, z, 0, i);
    }
  }

  /** Each entry's slot holds the value at its path, and 0 when the path is
      broken partway, reaches `null`, or its last property is absent. */
  lemma EncodeReadsPaths(schema: seq<Entry>, parsed: ParsedData, k: nat)
    requires DistinctIndices(schema) && k < |schema|
    ensures var a := EncodeParsedToRaw(schema, parsed).faceData;
      var v := GetPath(parsed.faceData, Segments(schema[k]));
      && a[schema[k].index] == Coalesce(v)
      && (v == None || v == Some(Null) ==> a[schema[k].index] == Num(0.0))
  {
    FillWritten(schema, parsed.faceData, Zeros(|schema|), 0);
    ReadSlotIsGetPath(parsed.faceData, Segments(schema[k]));
  }

  // ---------------------------------------------------------------------
  // The decoder's output and the round trips.

  /** On a schema with independent paths the decoder never throws. */
  lemma DecodeSucceeds(schema: seq<Entry>, raw: RawData)
    requires IndependentPaths(schema)
    ensures DecodeRawToParsed(schema, raw).Ok?
  {
    forall k | 0 <= k < |schema|
      ensures Settable(Obj(map[]), Segments(schema[k]))
    {
      SettableInEmpty(Segments(schema[k]));
    }
    ApplySucceeds(schema, DecodePlan(schema, raw.faceData), Obj(map[]), 0);
  }

  /** After decoding, the leaf at every entry's path is the array value at
      its index, or 0 when that index is missing or `null`. */
  lemma DecodeValues(schema: seq<Entry>, raw: RawData)
    requires IndependentPaths(schema)
    ensures DecodeRawToParsed(schema, raw).Ok?
    ensures forall k :: 0 <= k < |schema| ==>
      GetPath(DecodeRawToParsed(schema, raw).value.faceData, Segments(schema[k])) ==
        Some(Coalesce(ElementAt(raw.faceData, schema[k].index)))
  {
    DecodeSucceeds(schema, raw);
    ApplyValues(schema, DecodePlan(schema, raw.faceData), Obj(map[]), 0);
  }

  /** Decoding then encoding gives back the array as the codec reads it:
      N slots, each `raw.faceData[i] ?? 0`, and the same hair data. */
  lemma {:induction false} EncodeDecode(schema: seq<Entry>, raw: RawData)
    requires WellFormed(schema)
    ensures DecodeRawToParsed(schema, raw).Ok?
    ensures EncodeParsedToRaw(schema, DecodeRawToParsed(schema, raw).value) ==
      RawData(Normalize(raw.faceData, |schema|), raw.hairData)
  {
    DecodeValues(schema, raw);
    var p := DecodeRawToParsed(schema, raw).value;
    var a := EncodeParsedToRaw(schema, p).faceData;
    EncodeShape(schema, p);
    forall i: nat | i < |schema|
      ensures a[i] == Coalesce(ElementAt(raw.faceData, i))
    {
      assert Covers(schema, i);
      var k :| 0 <= k < |schema| && schema[k].index == i;
      EncodeReadsPaths(schema, p, k);
    }
    assert a == Normalize(raw.faceData, |schema|);
  }

  /** For an N-slot array without `null`s, decoding then encoding is the identity. */
  lemma EncodeDecodeIdentity(schema: seq<Entry>, raw: RawData)
    requires WellFormed(schema)
    requires |raw.faceData| == |schema|
    requires forall i :: 0 <= i < |raw.faceData| ==> raw.faceData[i] != Null
    ensures DecodeRawToParsed(schema, raw).Ok?
    ensures EncodeParsedToRaw(schema, DecodeRawToParsed(schema, raw).value) == raw
  {
    EncodeDecode(schema, raw);
    assert Normalize(raw.faceData, |schema|) == raw.faceData;
  }

  /** The decoder reads the array only through `a[index] ?? 0` at schema indices. */
  lemma DecodeSameReads(schema: seq<Entry>, raw: RawData, raw': RawData)
    requires raw.hairData == raw'.hairData
    requires forall k :: 0 <= k < |schema| ==>
      Coalesce(ElementAt(raw.faceData, schema[k].index)) == Coalesce(ElementAt(raw'.faceData, schema[k].index))
    ensures DecodeRawToParsed(schema, raw) == DecodeRawToParsed(schema, raw')
  {
    assert DecodePlan(schema, raw.faceData) == DecodePlan(schema, raw'.faceData);
  }

  /** Encoding then decoding a decoded record gives it back: on the trees the
      decoder produces (only schema paths populated, no `null` leaves) the
      codec is lossless. */
  lemma DecodeEncode(schema: seq<Entry>, raw: RawData)
    requires WellFormed(schema)
    ensures DecodeRawToParsed(schema, raw).Ok?
    ensures var p := DecodeRawToParsed(schema, raw).value;
      DecodeRawToParsed(schema, EncodeParsedToRaw(schema, p)) == Ok(p)
  {
    EncodeDecode(schema, raw);
    var p := DecodeRawToParsed(schema, raw).value;
    var raw' := EncodeParsedToRaw(schema, p);
    forall k | 0 <= k < |schema|
      ensures Coalesce(ElementAt(raw.faceData, schema[k].index)) ==
              Coalesce(ElementAt(raw'.faceData, schema[k].index))
    {
      CoalesceIdempotent(ElementAt(raw.faceData, schema[k].index));
    }
    DecodeSameReads(schema, raw, raw');
  }
}
