/**
 The preset transforms of the preset manager: smart apply, randomize and
 nullify. Each starts from (a copy of) the current record, makes sure its
 face data is an object, walks the schema skipping the `HeroID` and
 `Version` paths, writes through `setValueByPath`, and leaves the hair data
 alone. Records are values here, so the inputs are never changed.
 */
module Presets {
  import opened Json
  import opened Accessor
  import opened Schema
  import opened FaceCodec

  /** `if (!newState.faceData) newState.faceData = {}`. */
  function StartingTree(face: Option<Node>): (r: Node)
    ensures Truthy(Some(r))
    ensures Truthy(face) ==> r == face.value
  {
    if Truthy(face) then face.value else Obj(map[])
  }

  /** What a transform returns: the walked tree and the current hair data. */
  function Transform(current: ParsedData, schema: seq<Entry>, plan: seq<Option<Node>>): (r: Result<ParsedData>)
    requires |plan| == |schema|
    ensures r.Err? ==> r.error == TypeError
    ensures r.Ok? ==> r.value.hairData == current.hairData && r.value.faceData.Some?
  {
    match Apply(schema, plan, StartingTree(current.faceData), 0)
    case Err(e) => Err(e)
    case Ok(root) => Ok(ParsedData(Some(root), current.hairData))
  }

  /** `typeof v === 'number' && v >= 0 && v <= 100`. */
  predicate IsSliderValue(v: Option<Node>) {
    v.Some? && v.value.Num? && 0.0 <= v.value.n <= 100.0
  }

  /** Smart apply writes the preset's value at a non-identity path when it
      is a slider value, and nothing otherwise. */
  function SmartPlan(schema: seq<Entry>, presetFace: Option<Node>): (plan: seq<Option<Node>>)
    ensures |plan| == |schema|
  {
    seq(|schema|, k requires 0 <= k < |schema| =>
      var v := GetPath(presetFace, Segments(schema[k]));
      if !IsIdentityField(schema[k]) && IsSliderValue(v) then v else None)
  }

  /** `Math.floor(Math.random() * 101)` for a draw of `Math.random()`. */
  function RandomSlider(draw: real): real {
    (draw * 101.0).Floor as real
  }

  /** Randomize writes a fresh slider value at every non-identity path. */
  function RandomPlan(schema: seq<Entry>, draws: seq<real>): (plan: seq<Option<Node>>)
    requires |draws| == |schema|
    ensures |plan| == |schema|
  {
    seq(|schema|, k requires 0 <= k < |schema| =>
      if IsIdentityField(schema[k]) then None else Some(Num(RandomSlider(draws[k]))))
  }

  /** Nullify writes 0 at every non-identity path. */
  function NullPlan(schema: seq<Entry>): (plan: seq<Option<Node>>)
    ensures |plan| == |schema|
  {
    seq(|schema|, k requires 0 <= k < |schema| =>
      if IsIdentityField(schema[k]) then None else Some(Num(0.0)))
  }

  /** `applySmartPreset(current, preset)`. */
  function ApplySmartPreset(current: ParsedData, preset: ParsedData, schema: seq<Entry>): (r: Result<ParsedData>)
    ensures r.Ok? ==> r.value.hairData == current.hairData
  {
    Transform(current, schema, SmartPlan(schema, preset.faceData))
  }

  /** `randomizeParsedData(current)`; `draws[k]` is the `Math.random()` value
      drawn for schema entry `k`. */
  function RandomizeParsedData(current: ParsedData, schema: seq<Entry>, draws: seq<real>): (r: Result<ParsedData>)
    requires |draws| == |schema|
    requires forall k :: 0 <= k < |draws| ==> 0.0 <= draws[k] < 1.0
    ensures r.Ok? ==> r.value.hairData == current.hairData
  {
    Transform(current, schema, RandomPlan(schema, draws))
  }

  /** `nullifyParsedData(current)`. */
  function NullifyParsedData(current: ParsedData, schema: seq<Entry>): (r: Result<ParsedData>)
    ensures r.Ok? ==> r.value.hairData == current.hairData
  {
    Transform(current, schema, NullPlan(schema))
  }

  // ---------------------------------------------------------------------
  // Reading the starting tree.

  /** Replacing a falsy face-data field by `{}` changes no path's value. */
  lemma StartingTreeReads(face: Option<Node>, p: seq<string>)
    requires |p| >= 1
    ensures GetPath(Some(StartingTree(face)), p) == GetPath(face, p)
  {
    if !Truthy(face) {
      assert GetPath(Some(Obj(map[])), p) == None;
    }
  }

  /** After a transform, every entry's path holds its planned value, or the
      value it held in the current record when the plan skips it. */
  lemma TransformValues(current: ParsedData, schema: seq<Entry>, plan: seq<Option<Node>>, k: nat)
    requires |plan| == |schema| && IndependentPaths(schema) && k < |schema|
    requires Transform(current, schema, plan).Ok?
    ensures GetPath(Transform(current, schema, plan).value.faceData, Segments(schema[k])) ==
      (if plan[k].Some? then plan[k] else GetPath(current.faceData, Segments(schema[k])))
  {
    ApplyValues(schema, plan, StartingTree(current.faceData), 0);
    StartingTreeReads(current.faceData, Segments(schema[k]));
  }

  // ---------------------------------------------------------------------
  // The three transforms, entry by entry.

  /** Smart apply: a non-identity path whose preset value is a number in
      [0, 100] takes that value; identity paths and every other path keep
      the current record's value. */
  lemma SmartPresetValues(current: ParsedData, preset: ParsedData, schema: seq<Entry>, k: nat)
    requires IndependentPaths(schema) && k < |schema|
    requires ApplySmartPreset(current, preset, schema).Ok?
    ensures var v := GetPath(preset.faceData, Segments(schema[k]));
      var after := GetPath(ApplySmartPreset(current, preset, schema).value.faceData, Segments(schema[k]));
      && (!IsIdentityField(schema[k]) && IsSliderValue(v) ==> after == v)
      && (IsIdentityField(schema[k]) || !IsSliderValue(v) ==>
            after == GetPath(current.faceData, Segments(schema[k])))
  {
    TransformValues(current, schema, SmartPlan(schema, preset.faceData), k);
  }

  /** `Math.floor(Math.random() * 101)` is a whole number from 0 to 100. */
  lemma RandomSliderRange(draw: real)
    requires 0.0 <= draw < 1.0
    ensures 0.0 <= RandomSlider(draw) <= 100.0
    ensures RandomSlider(draw).Floor as real == RandomSlider(draw)
  {
    var f := (draw * 101.0).Floor;
    assert f as real <= draw * 101.0 < 101.0;
  }

  /** Randomize: identity paths keep the current value; every other path,
      whatever it held before, becomes a whole number from 0 to 100. */
  lemma RandomizeValues(current: ParsedData, schema: seq<Entry>, draws: seq<real>, k: nat)
    requires IndependentPaths(schema) && k < |schema|
    requires |draws| == |schema|
    requires forall j :: 0 <= j < |draws| ==> 0.0 <= draws[j] < 1.0
    requires RandomizeParsedData(current, schema, draws).Ok?
    ensures var after := GetPath(RandomizeParsedData(current, schema, draws).value.faceData, Segments(schema[k]));
      && (IsIdentityField(schema[k]) ==> after == GetPath(current.faceData, Segments(schema[k])))
      && (!IsIdentityField(schema[k]) ==>
            after.Some? && after.value.Num? && 0.0 <= after.value.n <= 100.0
            && after.value.n.Floor as real == after.value.n)
  {
    TransformValues(current, schema, RandomPlan(schema, draws), k);
    RandomSliderRange(draws[k]);
  }

  /** Nullify: identity paths keep the current value; every other path,
      whatever it held before, becomes 0. */
  lemma NullifyValues(current: ParsedData, schema: seq<Entry>, k: nat)
    requires IndependentPaths(schema) && k < |schema|
    requires NullifyParsedData(current, schema).Ok?
    ensures var after := GetPath(NullifyParsedData(current, schema).value.faceData, Segments(schema[k]));
      && (IsIdentityField(schema[k]) ==> after == GetPath(current.faceData, Segments(schema[k])))
      && (!IsIdentityField(schema[k]) ==> after == Some(Num(0.0)))
  {
    TransformValues(current, schema, NullPlan(schema), k);
  }

  /** Nullifying a nullified record changes nothing. */
  lemma NullifyIdempotent(current: ParsedData, schema: seq<Entry>)
    requires IndependentPaths(schema)
    requires NullifyParsedData(current, schema).Ok?
    ensures NullifyParsedData(NullifyParsedData(current, schema).value, schema) ==
      NullifyParsedData(current, schema)
  {
    var plan := NullPlan(schema);
    var start := StartingTree(current.faceData);
    var root := Apply(schema, plan, start, 0).value;
    assert Truthy(Some(root));
    assert StartingTree(Some(root)) == root;
    ApplyValues(schema, plan, start, 0);
    ApplyIdle(schema, plan, root, 0);
  }

  // ---------------------------------------------------------------------
  // When the transforms succeed.

  /** A path that leads to a value through objects can be written. */
  lemma {:induction false} PresentIsSettable(root: Node, p: seq<string>)
    requires |p| >= 1 && GetPath(Some(root), p).Some?
    ensures Settable(root, p)
    decreases |p|
  {
    if |p| > 1 {
      var c := root.fields[p[0]];
      assert GetPath(Some(c), p[1..]).Some?;
      PresentIsSettable(c, p[1..]);
    }
  }

  /** The current face data admits a write at every schema path. */
  predicate Writable(face: Option<Node>, schema: seq<Entry>) {
    forall k :: 0 <= k < |schema| ==> Settable(StartingTree(face), Segments(schema[k]))
  }

  /** On writable face data every transform succeeds. */
  lemma TransformSucceeds(current: ParsedData, schema: seq<Entry>, plan: seq<Option<Node>>)
    requires |plan| == |schema| && IndependentPaths(schema)
    requires Writable(current.faceData, schema)
    ensures Transform(current, schema, plan).Ok?
  {
    ApplySucceeds(schema, plan, StartingTree(current.faceData), 0);
  }

  /** Every record the decoder produces is writable, so smart apply,
      randomize and nullify never throw on it. */
  lemma DecodedIsWritable(schema: seq<Entry>, raw: RawData)
    requires IndependentPaths(schema)
    ensures DecodeRawToParsed(schema, raw).Ok?
    ensures Writable(DecodeRawToParsed(schema, raw).value.faceData, schema)
  {
    DecodeValues(schema, raw);
    var face := DecodeRawToParsed(schema, raw).value.faceData;
    forall k | 0 <= k < |schema|
      ensures Settable(StartingTree(face), Segments(schema[k]))
    {
      PresentIsSettable(face.value, Segments(schema[k]));
    }
  }

  /** Smart apply, randomize and nullify all succeed on writable face data. */
  lemma TransformsSucceed(current: ParsedData, preset: ParsedData, schema: seq<Entry>, draws: seq<real>)
    requires IndependentPaths(schema) && Writable(current.faceData, schema)
    requires |draws| == |schema|
    requires forall k :: 0 <= k < |draws| ==> 0.0 <= draws[k] < 1.0
    ensures ApplySmartPreset(current, preset, schema).Ok?
    ensures RandomizeParsedData(current, schema, draws).Ok?
    ensures NullifyParsedData(current, schema).Ok?
  {
    TransformSucceeds(current, schema, SmartPlan(schema, preset.faceData));
    TransformSucceeds(current, schema, RandomPlan(schema, draws));
    TransformSucceeds(current, schema, NullPlan(schema));
  }
}
