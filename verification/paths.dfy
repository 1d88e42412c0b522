/**
 Slash-delimited field paths ("ParamData/Eyes/Right") and their segments,
 as produced by JavaScript's `path.split("/")`.
 */
module Paths {

  /** `s.split("/")`: the pieces of `s` between slashes, empty pieces included. */
  function Split(s: string): (r: seq<string>)
    ensures |r| >= 1
    ensures forall i :: 0 <= i < |r| ==> '/' !in r[i]
    decreases |s|
  {
    if |s| == 0 then [""]
    else
      var rest := Split(s[1..]);
      if s[0] == '/' then [""] + rest
      else [[s[0]] + rest[0]] + rest[1..]
  }

  /** `parts.join("/")`, the inverse of `Split`. */
  function Join(parts: seq<string>): string
    requires |parts| >= 1
    decreases |parts|
  {
    if |parts| == 1 then parts[0] else parts[0] + "/" + Join(parts[1..])
  }

  /** Two paths are independent when neither is a prefix of the other
      (so in particular they differ). */
  predicate Unrelated(p: seq<string>, q: seq<string>) {
    !(p <= q) && !(q <= p)
  }

  /** Joining the pieces of a split gives the original path back. */
  lemma {:induction false} JoinSplit(s: string)
    ensures Join(Split(s)) == s
    decreases |s|
  {
    if |s| > 0 {
      var rest := Split(s[1..]);
      JoinSplit(s[1..]);
      if s[0] == '/' {
        assert Split(s) == [""] + rest;
        assert ([""] + rest)[1..] == rest;
      } else {
        var r := Split(s);
        assert r == [[s[0]] + rest[0]] + rest[1..];
        if |rest| == 1 {
          assert Join(r) == [s[0]] + rest[0];
        } else {
          assert r[1..] == rest[1..];
          assert Join(r) == [s[0]] + rest[0] + "/" + Join(rest[1..]);
        }
        assert s == [s[0]] + s[1..];
      }
    }
  }

  /** A path without slashes splits into itself. */
  lemma {:induction false} SplitPlain(w: string)
    requires '/' !in w
    ensures Split(w) == [w]
    decreases |w|
  {
    if |w| > 0 {
      SplitPlain(w[1..]);
      assert w == [w[0]] + w[1..];
    }
  }

  /** Splitting at the first slash. */
  lemma {:induction false} SplitAtSlash(w: string, t: string)
    requires '/' !in w
    ensures Split(w + "/" + t) == [w] + Split(t)
    decreases |w|
  {
    var s := w + "/" + t;
    if |w| == 0 {
      assert s == "/" + t;
      assert s[1..] == t;
    } else {
      assert s[1..] == w[1..] + "/" + t;
      SplitAtSlash(w[1..], t);
      assert w == [w[0]] + w[1..];
    }
  }

  /** Splitting a join of slash-free segments gives the segments back. */
  lemma {:induction false} SplitJoin(parts: seq<string>)
    requires |parts| >= 1
    requires forall i :: 0 <= i < |parts| ==> '/' !in parts[i]
    ensures Split(Join(parts)) == parts
    decreases |parts|
  {
    if |parts| == 1 {
      SplitPlain(parts[0]);
    } else {
      SplitJoin(parts[1..]);
      SplitAtSlash(parts[0], Join(parts[1..]));
      assert parts == [parts[0]] + parts[1..];
    }
  }

  /** Distinct path strings have distinct segment lists. */
  lemma SplitInjective(s: string, t: string)
    requires Split(s) == Split(t)
    ensures s == t
  {
    JoinSplit(s);
    JoinSplit(t);
  }
}
