/**
 The JavaScript values the character editor manipulates: a JSON tree of
 numbers, null, strings, booleans and objects, plus `undefined` (a missing
 property), which is not a value of the tree and is written `None`.
 */
module Json {

  /** A JSON value. Arrays never occur inside the face-data tree and are not modelled. */
  datatype Node =
    | Num(n: real)
    | Null
    | Str(s: string)
    | Bool(b: bool)
    | Obj(fields: map<string, Node>)

  /** `Some(v)` is a present value, `None` is JavaScript `undefined`. */
  datatype Option<+T> = None | Some(value: T)

  /** The exceptions the modelled code can throw. */
  datatype Error =
    | TypeError              // property assignment on a primitive (strict mode)
    | RangeError             // a typed-array `set` that does not fit its target
    | InvalidCharacterError  // `atob` / `btoa` refusing their input
    | DecompressError        // the LZMA decoder rejecting its input
    | ParseError             // `JSON.parse` rejecting its input

  /** The outcome of a call that either returns a value or throws. */
  datatype Result<+T> = Ok(value: T) | Err(error: Error) {

    predicate IsFailure() {
      Err?
    }

    function PropagateFailure<U>(): Result<U>
      requires Err?
    {
      Err(error)
    }

    function Extract(): T
      requires Ok?
    {
      value
    }
  }

  /** JavaScript truthiness: `undefined`, `null`, `0`, `""` and `false` are falsy. */
  predicate Truthy(v: Option<Node>) {
    match v
    case None => false
    case Some(Null) => false
    case Some(Num(n)) => n != 0.0
    case Some(Str(s)) => s != ""
    case Some(Bool(b)) => b
    case Some(Obj(_)) => true
  }

  /** `v[key]` for a non-null `v`: an own property of an object, and
      `undefined` for any key of a primitive. */
  function Index(v: Node, key: string): (r: Option<Node>)
    ensures r.Some? ==> v.Obj? && key in v.fields && r.value == v.fields[key]
    ensures v.Obj? && key in v.fields ==> r.Some?
  {
    match v
    case Obj(m) => if key in m then Some(m[key]) else None
    case _ => None
  }

  /** `v ?? 0`: the value itself unless it is `null` or `undefined`. */
  function Coalesce(v: Option<Node>): (r: Node)
    ensures r != Null
    ensures v.Some? && v.value != Null ==> r == v.value
  {
    match v
    case None => Num(0.0)
    case Some(Null) => Num(0.0)
    case Some(x) => x
  }

  /** Coalescing twice is coalescing once. */
  lemma CoalesceIdempotent(v: Option<Node>)
    ensures Coalesce(Some(Coalesce(v))) == Coalesce(v)
  {
  }
}
