/**
 The face-data schema: an ordered list of (path, index) entries, one per
 scalar field of the face data, and the walk over it that the decoder and
 the three preset transforms share (each writes one value, or nothing, at
 every entry's path, in schema order).
 */
module Schema {
  import opened Json
  import opened Paths
  import opened Accessor

  /** One scalar field: its slash-delimited path and its slot in the flat array. */
  datatype Entry = Entry(path: string, index: nat)

  /** The path segments of an entry, `entry.path.split("/")`. */
  function Segments(e: Entry): (r: seq<string>)
    ensures |r| >= 1
  {
    Split(e.path)
  }

  /** The identity fields the preset transforms never touch. */
  predicate IsIdentityField(e: Entry) {
    e.path == "HeroID" || e.path == "Version"
  }

  /** No entry's path is a prefix of (or equal to) another entry's path. */
  predicate IndependentPaths(schema: seq<Entry>) {
    forall j, k :: 0 <= j < |schema| && 0 <= k < |schema| && j != k ==>
      Unrelated(Segments(schema[j]), Segments(schema[k]))
  }

  /** Some entry owns slot `i`. */
  predicate Covers(schema: seq<Entry>, i: nat) {
    exists k :: 0 <= k < |schema| && schema[k].index == i
  }

  predicate IndicesInRange(schema: seq<Entry>) {
    forall k :: 0 <= k < |schema| ==> schema[k].index < |schema|
  }

  predicate DistinctIndices(schema: seq<Entry>) {
    forall j, k :: 0 <= j < |schema| && 0 <= k < |schema| && j != k ==>
      schema[j].index != schema[k].index
  }

  /** The indices are exactly 0 .. N-1, each owned by one entry. */
  predicate IndexPermutation(schema: seq<Entry>) {
    && IndicesInRange(schema)
    && DistinctIndices(schema)
    && forall i: nat :: i < |schema| ==> Covers(schema, i)
  }

  predicate WellFormed(schema: seq<Entry>) {
    IndependentPaths(schema) && IndexPermutation(schema)
  }

  /** The schema loop: at entry `from` and after it, write `plan[k]` at the
      entry's path when the plan has a value for it, in schema order; the
      first failing write aborts the whole walk. */
  function Apply(schema: seq<Entry>, plan: seq<Option<Node>>, root: Node, from: nat): (r: Result<Node>)
    requires |plan| == |schema|
    ensures r.Err? ==> r.error == TypeError
    ensures r.Ok? ==> r.value == root || r.value.Obj?
    decreases |schema| - from
  {
    if from >= |schema| then Ok(root)
    else
      match plan[from]
      case None => Apply(schema, plan, root, from + 1)
      case Some(v) =>
        match SetPath(root, Segments(schema[from]), v)
        case Err(e) => Err(e)
        case Ok(next) => Apply(schema, plan, next, from + 1)
  }

  /** A path unrelated to every written path reads the same after the walk. */
  lemma {:induction false} ApplyFrame(schema: seq<Entry>, plan: seq<Option<Node>>, root: Node, from: nat, p: seq<string>)
    requires |plan| == |schema| && Apply(schema, plan, root, from).Ok?
    requires forall k :: from <= k < |schema| && plan[k].Some? ==> Unrelated(p, Segments(schema[k]))
    ensures GetPath(Some(Apply(schema, plan, root, from).value), p) == GetPath(Some(root), p)
    decreases |schema| - from
  {
    if from < |schema| {
      match plan[from]
      case None =>
        ApplyFrame(schema, plan, root, from + 1, p);
      case Some(v) =>
        var next := SetPath(root, Segments(schema[from]), v).value;
        SetFrame(root, Segments(schema[from]), v, p);
        ApplyFrame(schema, plan, next, from + 1, p);
    }
  }

  /** After the walk, every entry's path holds its planned value, or the
      value it held before when the plan skips it. */
  lemma {:induction false} ApplyValues(schema: seq<Entry>, plan: seq<Option<Node>>, root: Node, from: nat)
    requires |plan| == |schema| && IndependentPaths(schema)
    requires Apply(schema, plan, root, from).Ok?
    ensures forall k :: from <= k < |schema| ==>
      GetPath(Some(Apply(schema, plan, root, from).value), Segments(schema[k])) ==
        (if plan[k].Some? then plan[k] else GetPath(Some(root), Segments(schema[k])))
    decreases |schema| - from
  {
    if from < |schema| {
      var r := Apply(schema, plan, root, from).value;
      var p := Segments(schema[from]);
      assert forall k :: from + 1 <= k < |schema| && plan[k].Some? ==> Unrelated(p, Segments(schema[k]));
      match plan[from]
      case None =>
        ApplyValues(schema, plan, root, from + 1);
        ApplyFrame(schema, plan, root, from + 1, p);
      case Some(v) =>
        var next := SetPath(root, p, v).value;
        ApplyValues(schema, plan, next, from + 1);
        ApplyFrame(schema, plan, next, from + 1, p);
        forall k | from + 1 <= k < |schema|
          ensures GetPath(Some(next), Segments(schema[k])) == GetPath(Some(root), Segments(schema[k]))
        {
          SetFrame(root, p, v, Segments(schema[k]));
        }
    }
  }

  /** The walk succeeds when every path it writes is writable to begin with
      and the paths are independent. */
  lemma {:induction false} ApplySucceeds(schema: seq<Entry>, plan: seq<Option<Node>>, root: Node, from: nat)
    requires |plan| == |schema| && IndependentPaths(schema)
    requires forall k :: from <= k < |schema| && plan[k].Some? ==> Settable(root, Segments(schema[k]))
    ensures Apply(schema, plan, root, from).Ok?
    decreases |schema| - from
  {
    if from < |schema| {
      match plan[from]
      case None =>
        ApplySucceeds(schema, plan, root, from + 1);
      case Some(v) =>
        var p := Segments(schema[from]);
        var next := SetPath(root, p, v).value;
        forall k | from + 1 <= k < |schema| && plan[k].Some?
          ensures Settable(next, Segments(schema[k]))
        {
          SetKeepsSettable(root, p, v, Segments(schema[k]));
        }
        ApplySucceeds(schema, plan, next, from + 1);
    }
  }

  /** A walk whose every planned value is already in place changes nothing. */
  lemma {:induction false} ApplyIdle(schema: seq<Entry>, plan: seq<Option<Node>>, root: Node, from: nat)
    requires |plan| == |schema|
    requires forall k :: from <= k < |schema| && plan[k].Some? ==>
      GetPath(Some(root), Segments(schema[k])) == plan[k]
    ensures Apply(schema, plan, root, from) == Ok(root)
    decreases |schema| - from
  {
    if from < |schema| {
      match plan[from]
      case None =>
        ApplyIdle(schema, plan, root, from + 1);
      case Some(v) =>
        SetIdle(root, Segments(schema[from]), v);
        ApplyIdle(schema, plan, root, from + 1);
    }
  }

  /** Every path can be written into an empty object. */
  lemma SettableInEmpty(p: seq<string>)
    requires |p| >= 1
    ensures Settable(Obj(map[]), p)
  {
  }
}
