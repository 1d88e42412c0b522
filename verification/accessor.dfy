/**
 Reading and writing a value inside the face-data tree by its path segments:
 `getValueByPath` and `setValueByPath` of the preset manager. The inner loop
 of `decodeRawToParsed` is the same walk as `setValueByPath` and uses `SetPath`.
 */
module Accessor {
  import opened Json
  import opened Paths

  /** `getValueByPath`: walk the segments; as soon as the current value is
      `undefined` or `null` the answer is `undefined`. Never throws. */
  function GetPath(root: Option<Node>, parts: seq<string>): (r: Option<Node>)
    ensures |parts| == 0 ==> r == root
    ensures |parts| > 0 && (root == None || root == Some(Null)) ==> r == None
    ensures |parts| > 0 && !(root.Some? && root.value.Obj?) ==> r == None
    ensures |parts| > 0 && r.Some? ==> parts[0] in root.value.fields
    decreases |parts|
  {
    if |parts| == 0 then root
    else
      match root
      case None => None
      case Some(Null) => None
      case Some(v) => GetPath(Index(v, parts[0]), parts[1..])
  }

  /** The writes of `setValueByPath` succeed: the walk starts at an object,
      and every intermediate it steps into is either falsy (and is replaced
      by a fresh `{}`) or an object it can write into in turn. */
  predicate Settable(root: Node, parts: seq<string>)
    requires |parts| >= 1
    decreases |parts|
  {
    && root.Obj?
    && (|parts| == 1 ||
        var c := Index(root, parts[0]);
        !Truthy(c) || Settable(c.value, parts[1..]))
  }

  /** `setValueByPath`: every segment but the last replaces a falsy
      intermediate by `{}` and steps into it; the last one is assigned.
      Assigning a property of a primitive throws a TypeError (strict mode). */
  function SetPath(root: Node, parts: seq<string>, value: Node): (r: Result<Node>)
    requires |parts| >= 1
    ensures r.Ok? <==> Settable(root, parts)
    ensures r.Err? ==> r.error == TypeError
    ensures r.Ok? ==> r.value.Obj? && GetPath(Some(r.value), parts) == Some(value)
    decreases |parts|
  {
    match root
    case Obj(m) =>
      var key := parts[0];
      if |parts| == 1 then Ok(Obj(m[key := value]))
      else
        var child := if key in m && Truthy(Some(m[key])) then m[key] else Obj(map[]);
        (match SetPath(child, parts[1..], value)
         case Ok(c) => Ok(Obj(m[key := c]))
         case Err(e) => Err(e))
    case _ => Err(TypeError)
  }

  /** Two unrelated paths that share their first segment both go on
      beyond it, and stay unrelated after it. */
  lemma UnrelatedTails(p: seq<string>, q: seq<string>)
    requires |p| >= 1 && |q| >= 1 && p[0] == q[0] && Unrelated(p, q)
    ensures |p| >= 2 && |q| >= 2 && Unrelated(p[1..], q[1..])
  {
    assert |q| != 1 || q <= p;
    assert |p| != 1 || p <= q;
    assert p[1..] <= q[1..] ==> p <= q;
    assert q[1..] <= p[1..] ==> q <= p;
  }

  /** A write at `q` leaves the value at every path that is neither a
      prefix nor an extension of `q` as it was. */
  lemma {:induction false} SetFrame(root: Node, q: seq<string>, value: Node, p: seq<string>)
    requires |q| >= 1 && Unrelated(p, q)
    requires SetPath(root, q, value).Ok?
    ensures GetPath(Some(SetPath(root, q, value).value), p) == GetPath(Some(root), p)
    decreases |q|
  {
    var m := root.fields;
    var r := SetPath(root, q, value).value;
    var key := q[0];
    if p[0] != key {
      assert Index(r, p[0]) == Index(root, p[0]);
    } else {
      UnrelatedTails(p, q);
      var child := if key in m && Truthy(Some(m[key])) then m[key] else Obj(map[]);
      var c := SetPath(child, q[1..], value).value;
      assert r == Obj(m[key := c]);
      SetFrame(child, q[1..], value, p[1..]);
      assert GetPath(Some(r), p) == GetPath(Some(c), p[1..]);
      if !(key in m && Truthy(Some(m[key]))) {
        assert GetPath(Some(child), p[1..]) == None;
        assert GetPath(Some(root), p) == GetPath(Index(root, key), p[1..]);
      }
    }
  }

  /** A write at `q` keeps every unrelated path writable. */
  lemma {:induction false} SetKeepsSettable(root: Node, q: seq<string>, value: Node, p: seq<string>)
    requires |q| >= 1 && |p| >= 1 && Unrelated(p, q)
    requires SetPath(root, q, value).Ok? && Settable(root, p)
    ensures Settable(SetPath(root, q, value).value, p)
    decreases |q|
  {
    var m := root.fields;
    var r := SetPath(root, q, value).value;
    var key := q[0];
    if |p| > 1 && p[0] == key {
      UnrelatedTails(p, q);
      var child := if key in m && Truthy(Some(m[key])) then m[key] else Obj(map[]);
      var c := SetPath(child, q[1..], value).value;
      assert r == Obj(m[key := c]);
      assert Settable(child, p[1..]);
      SetKeepsSettable(child, q[1..], value, p[1..]);
      assert Index(r, p[0]) == Some(c);
    } else if |p| > 1 {
      assert Index(r, p[0]) == Index(root, p[0]);
    }
  }

  /** Writing the value a path already holds changes nothing. */
  lemma {:induction false} SetIdle(root: Node, p: seq<string>, value: Node)
    requires |p| >= 1 && GetPath(Some(root), p) == Some(value)
    ensures SetPath(root, p, value) == Ok(root)
    decreases |p|
  {
    var m := root.fields;
    var key := p[0];
    if |p| == 1 {
      assert m[key := value] == m;
    } else {
      assert GetPath(Some(m[key]), p[1..]) == Some(value);
      SetIdle(m[key], p[1..], value);
      assert m[key := m[key]] == m;
    }
  }

  /** Reading a path in two pieces: the walk for `p + q` is the walk for `q`
      started from wherever the walk for `p` stopped. */
  lemma {:induction false} GetPathAppend(root: Option<Node>, p: seq<string>, q: seq<string>)
    ensures GetPath(root, p + q) == GetPath(GetPath(root, p), q)
    decreases |p|
  {
    if |p| == 0 {
      assert p + q == q;
    } else if root == None || root == Some(Null) {
      if |q| > 0 {
        assert GetPath(GetPath(root, p), q) == None;
      }
    } else {
      assert (p + q)[0] == p[0];
      assert (p + q)[1..] == p[1..] + q;
      GetPathAppend(Index(root.value, p[0]), p[1..], q);
    }
  }

  /** Once an intermediate value on the way is `undefined`, `null` or not an
      object, reading any longer path gives `undefined`, at every depth. */
  lemma BrokenIntermediate(root: Option<Node>, p: seq<string>, q: seq<string>)
    requires |q| > 0
    requires !(GetPath(root, p).Some? && GetPath(root, p).value.Obj?)
    ensures GetPath(root, p + q) == None
  {
    GetPathAppend(root, p, q);
  }
}
