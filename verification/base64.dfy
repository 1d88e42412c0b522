/**
 `btoa` and `atob` on binary strings (every character a byte value):
 `btoa` is the base64 encoding of section 4 of RFC 4648 with `=` padding,
 and `atob` is the WHATWG "forgiving-base64 decode" (ASCII whitespace
 ignored, up to two trailing `=` optional, unused trailing bits ignored).
 */
module Base64 {
  import opened Json

  /** A character of the alphabet of table 1 in section 4 of RFC 4648. */
  predicate IsAlphabet(c: char) {
    ('A' <= c <= 'Z') || ('a' <= c <= 'z') || ('0' <= c <= '9') || c == '+' || c == '/'
  }

  /** The 6-bit value a character of the alphabet stands for. */
  function ValueOf(c: char): (v: nat)
    requires IsAlphabet(c)
    ensures v < 64
  {
    if 'A' <= c <= 'Z' then c as nat - 'A' as nat
    else if 'a' <= c <= 'z' then c as nat - 'a' as nat + 26
    else if '0' <= c <= '9' then c as nat - '0' as nat + 52
    else if c == '+' then 62
    else 63
  }

  /** The character that encodes a 6-bit value. */
  function CharOf(v: nat): (c: char)
    requires v < 64
    ensures IsAlphabet(c) && ValueOf(c) == v
  {
    if v < 26 then ('A' as nat + v) as char
    else if v < 52 then ('a' as nat + v - 26) as char
    else if v < 62 then ('0' as nat + v - 52) as char
    else if v == 62 then '+'
    else '/'
  }

  /** Every character is in the alphabet. */
  predicate IsData(d: string) {
    forall i :: 0 <= i < |d| ==> IsAlphabet(d[i])
  }

  /** Every character is a byte value (what `btoa` accepts). */
  predicate IsBinary(s: string) {
    forall i :: 0 <= i < |s| ==> s[i] as nat < 256
  }

  /** The base64 characters of a binary string, without padding: three bytes
      become four characters, and a final one or two bytes become two or
      three characters whose unused low bits are zero. */
  function EncodeGroups(s: string): (r: string)
    requires IsBinary(s)
    ensures IsData(r)
    ensures |r| == GroupsLength(|s|)
  {
    if |s| == 0 then ""
    else
      var x := s[0] as nat;
      if |s| == 1 then [CharOf(x / 4), CharOf(x % 4 * 16)]
      else
        var y := s[1] as nat;
        if |s| == 2 then [CharOf(x / 4), CharOf(x % 4 * 16 + y / 16), CharOf(y % 16 * 4)]
        else
          Quad(x, y, s[2] as nat) + EncodeGroups(s[3..])
  }

  /** How many characters `EncodeGroups` makes of n bytes. */
  function GroupsLength(n: nat): nat {
    if n == 0 then 0 else if n == 1 then 2 else if n == 2 then 3 else 4 + GroupsLength(n - 3)
  }

  /** The last group is two, three or four characters long. */
  lemma {:induction false} GroupsLengthMod(n: nat)
    ensures GroupsLength(n) % 4 == (if n % 3 == 0 then 0 else n % 3 + 1)
  {
    if n >= 3 {
      GroupsLengthMod(n - 3);
    }
  }

  /** The `=` padding that completes the last group of four. */
  function Padding(n: nat): string {
    if n % 3 == 1 then "==" else if n % 3 == 2 then "=" else ""
  }

  /** `btoa`: throws an InvalidCharacterError on a character above U+00FF. */
  function Btoa(s: string): (r: Result<string>)
    ensures r.Ok? <==> IsBinary(s)
    ensures r.Err? ==> r.error == InvalidCharacterError
  {
    if IsBinary(s) then Ok(EncodeGroups(s) + Padding(|s|)) else Err(InvalidCharacterError)
  }

  /** The ASCII whitespace `atob` skips: tab, line feed, form feed, carriage return, space. */
  predicate IsAsciiWhitespace(c: char) {
    c == '\t' || c == '\n' || c == 12 as char || c == '\r' || c == ' '
  }

  function RemoveWhitespace(s: string): (r: string)
    ensures forall i :: 0 <= i < |r| ==> !IsAsciiWhitespace(r[i])
  {
    if |s| == 0 then ""
    else (if IsAsciiWhitespace(s[0]) then "" else [s[0]]) + RemoveWhitespace(s[1..])
  }

  /** Up to two trailing `=`, removed only when the length is a multiple of four. */
  function RemovePadding(d: string): (r: string)
    ensures r <= d && |r| + 2 >= |d|
  {
    if |d| % 4 != 0 then d
    else if |d| >= 2 && d[|d| - 2..] == "==" then d[..|d| - 2]
    else if |d| >= 1 && d[|d| - 1] == '=' then d[..|d| - 1]
    else d
  }

  /** The three bytes four 6-bit values carry. */
  function Triple(a: nat, b: nat, c: nat, e: nat): (r: string)
    requires a < 64 && b < 64 && c < 64 && e < 64
    ensures |r| == 3 && IsBinary(r)
  {
    [(a * 4 + b / 16) as char, (b % 16 * 16 + c / 4) as char, (c % 4 * 64 + e) as char]
  }

  /** The bytes of the data characters, as characters of a binary string:
      each full group of four gives three bytes, a final two or three
      characters give one or two bytes, and the leftover bits are dropped. */
  function DecodeGroups(d: string): (r: string)
    requires IsData(d)
    requires |d| % 4 != 1
    ensures IsBinary(r)
  {
    if |d| == 0 then ""
    else
      var a, b := ValueOf(d[0]), ValueOf(d[1]);
      if |d| == 2 then [(a * 4 + b / 16) as char]
      else
        var c := ValueOf(d[2]);
        if |d| == 3 then [(a * 4 + b / 16) as char, (b % 16 * 16 + c / 4) as char]
        else
          Triple(a, b, c, ValueOf(d[3])) + DecodeGroups(d[4..])
  }

  /** `atob`: throws an InvalidCharacterError when, after whitespace and
      padding are removed, one character is left over in the last group or
      a character outside the alphabet remains. */
  function Atob(s: string): (r: Result<string>)
    ensures r.Err? ==> r.error == InvalidCharacterError
    ensures r.Ok? ==> IsBinary(r.value)
  {
    var d := RemovePadding(RemoveWhitespace(s));
    if |d| % 4 == 1 then Err(InvalidCharacterError)
    else if !IsData(d) then Err(InvalidCharacterError)
    else Ok(DecodeGroups(d))
  }

  // ---------------------------------------------------------------------
  // Round trip.

  lemma RemoveWhitespaceKeeps(s: string)
    requires forall i :: 0 <= i < |s| ==> !IsAsciiWhitespace(s[i])
    ensures RemoveWhitespace(s) == s
  {
    if |s| > 0 {
      RemoveWhitespaceKeeps(s[1..]);
      assert s == [s[0]] + s[1..];
    }
  }

  /** One full group: three bytes through four characters and back. */
  lemma GroupRoundTrip(x: nat, y: nat, z: nat)
    requires x < 256 && y < 256 && z < 256
    ensures (x / 4) * 4 + (x % 4 * 16 + y / 16) / 16 == x
    ensures (x % 4 * 16 + y / 16) % 16 * 16 + (y % 16 * 4 + z / 64) / 4 == y
    ensures (y % 16 * 4 + z / 64) % 4 * 64 + z % 64 == z
  {
  }

  /** The four characters that encode three bytes. */
  function Quad(x: nat, y: nat, z: nat): (r: string)
    requires x < 256 && y < 256 && z < 256
    ensures |r| == 4 && IsData(r)
  {
    [CharOf(x / 4), CharOf(x % 4 * 16 + y / 16), CharOf(y % 16 * 4 + z / 64), CharOf(z % 64)]
  }

  lemma TripleOfQuad(x: nat, y: nat, z: nat)
    requires x < 256 && y < 256 && z < 256
    ensures var q := Quad(x, y, z);
      Triple(ValueOf(q[0]), ValueOf(q[1]), ValueOf(q[2]), ValueOf(q[3])) == [x as char, y as char, z as char]
  {
    GroupRoundTrip(x, y, z);
  }

  lemma DataAppend(a: string, b: string)
    requires IsData(a) && IsData(b)
    ensures IsData(a + b)
  {
    assert forall i :: 0 <= i < |a + b| ==> (a + b)[i] == if i < |a| then a[i] else b[i - |a|];
  }

  /** One full group of four characters decodes to three bytes. */
  lemma DecodeStep(d: string)
    requires IsData(d) && |d| % 4 != 1 && |d| >= 4
    ensures DecodeGroups(d) == Triple(ValueOf(d[0]), ValueOf(d[1]), ValueOf(d[2]), ValueOf(d[3])) + DecodeGroups(d[4..])
  {
  }

  lemma DecodeQuad(x: nat, y: nat, z: nat, rest: string)
    requires x < 256 && y < 256 && z < 256
    requires IsData(rest) && |rest| % 4 != 1
    ensures IsData(Quad(x, y, z) + rest) && |Quad(x, y, z) + rest| % 4 != 1
    ensures DecodeGroups(Quad(x, y, z) + rest) == [x as char, y as char, z as char] + DecodeGroups(rest)
  {
    var q := Quad(x, y, z);
    var d := q + rest;
    DataAppend(q, rest);
    DecodeStep(d);
    assert d[4..] == rest;
    assert d[0] == q[0] && d[1] == q[1] && d[2] == q[2] && d[3] == q[3];
    TripleOfQuad(x, y, z);
  }

  lemma DecodeLastOne(x: nat)
    requires x < 256
    ensures DecodeGroups([CharOf(x / 4), CharOf(x % 4 * 16)]) == [x as char]
  {
    GroupRoundTrip(x, 0, 0);
  }

  lemma DecodeLastTwo(x: nat, y: nat)
    requires x < 256 && y < 256
    ensures DecodeGroups([CharOf(x / 4), CharOf(x % 4 * 16 + y / 16), CharOf(y % 16 * 4)]) == [x as char, y as char]
  {
    GroupRoundTrip(x, y, 0);
  }

  lemma EncodeLastOne(s: string)
    requires IsBinary(s) && |s| == 1
    ensures |EncodeGroups(s)| == 2
    ensures DecodeGroups(EncodeGroups(s)) == s
  {
    var x := s[0] as nat;
    assert EncodeGroups(s) == [CharOf(x / 4), CharOf(x % 4 * 16)];
    DecodeLastOne(x);
    assert s == [s[0]];
  }

  lemma EncodeLastTwo(s: string)
    requires IsBinary(s) && |s| == 2
    ensures |EncodeGroups(s)| == 3
    ensures DecodeGroups(EncodeGroups(s)) == s
  {
    var x, y := s[0] as nat, s[1] as nat;
    assert EncodeGroups(s) == [CharOf(x / 4), CharOf(x % 4 * 16 + y / 16), CharOf(y % 16 * 4)];
    DecodeLastTwo(x, y);
    assert s == [s[0], s[1]];
  }

  /** The first three bytes of a longer string become one full group. */
  lemma EncodeStep(s: string)
    requires IsBinary(s) && |s| >= 3
    ensures EncodeGroups(s) == Quad(s[0] as nat, s[1] as nat, s[2] as nat) + EncodeGroups(s[3..])
  {
  }

  /** Decoding the unpadded characters of a binary string gives it back. */
  lemma {:induction false} DecodeEncodeGroups(s: string)
    requires IsBinary(s)
    ensures |EncodeGroups(s)| % 4 != 1
    ensures DecodeGroups(EncodeGroups(s)) == s
    decreases |s|
  {
    if |s| == 1 {
      EncodeLastOne(s);
    } else if |s| == 2 {
      EncodeLastTwo(s);
    } else if |s| >= 3 {
      var x, y, z := s[0] as nat, s[1] as nat, s[2] as nat;
      var rest := EncodeGroups(s[3..]);
      EncodeStep(s);
      DecodeEncodeGroups(s[3..]);
      DecodeQuad(x, y, z, rest);
      FirstThree(s);
    }
  }

  lemma FirstThree(s: string)
    requires IsBinary(s) && |s| >= 3
    ensures [(s[0] as nat) as char, (s[1] as nat) as char, (s[2] as nat) as char] + s[3..] == s
  {
    var t := [(s[0] as nat) as char, (s[1] as nat) as char, (s[2] as nat) as char] + s[3..];
    assert |t| == |s|;
    forall i | 0 <= i < |s|
      ensures t[i] == s[i]
    {
      if i >= 3 {
        assert t[i] == s[3..][i - 3];
      }
    }
  }

  /** Padding a whole number of groups out to a multiple of four, then
      removing the padding, gives the groups back. */
  lemma RemovePaddingOfPadded(g: string, n: nat)
    requires IsData(g)
    requires |g| == GroupsLength(n)
    ensures RemovePadding(g + Padding(n)) == g
  {
    GroupsLengthMod(n);
    if n % 3 == 1 {
      RemoveTwo(g);
    } else if n % 3 == 2 {
      RemoveOne(g);
    } else {
      assert g + Padding(n) == g;
      RemoveNone(g);
    }
  }

  lemma RemoveTwo(g: string)
    requires IsData(g) && |g| % 4 == 2
    ensures RemovePadding(g + "==") == g
  {
    var t := g + "==";
    assert t[|t| - 2..] == "==";
    assert t[..|t| - 2] == g;
  }

  lemma RemoveOne(g: string)
    requires IsData(g) && |g| % 4 == 3
    ensures RemovePadding(g + "=") == g
  {
    var t := g + "=";
    assert t[|t| - 2] == g[|g| - 1] && IsAlphabet(g[|g| - 1]);
    assert t[|t| - 2..] != "==";
    assert t[..|t| - 1] == g;
  }

  lemma RemoveNone(g: string)
    requires IsData(g) && |g| % 4 == 0
    ensures RemovePadding(g) == g
  {
    if |g| >= 1 {
      assert IsAlphabet(g[|g| - 1]) && IsAlphabet(g[|g| - 2]);
      assert g[|g| - 2..] != "==";
    }
  }

  /** `btoa` makes four characters for every started group of three bytes. */
  lemma {:induction false} BtoaLength(s: string)
    requires IsBinary(s)
    ensures Btoa(s).Ok?
    ensures |Btoa(s).value| == 4 * ((|s| + 2) / 3)
  {
    PaddedLength(|s|);
  }

  lemma {:induction false} PaddedLength(n: nat)
    ensures GroupsLength(n) + |Padding(n)| == 4 * ((n + 2) / 3)
  {
    if n >= 3 {
      PaddedLength(n - 3);
      assert Padding(n) == Padding(n - 3);
      assert (n + 2) / 3 == (n - 1) / 3 + 1;
    }
  }

  /** `atob` undoes `btoa` on every binary string. */
  lemma AtobBtoa(s: string)
    requires IsBinary(s)
    ensures Btoa(s).Ok?
    ensures Atob(Btoa(s).value) == Ok(s)
  {
    var g := EncodeGroups(s);
    var t := g + Padding(|s|);
    assert Btoa(s).value == t;
    assert forall i :: 0 <= i < |t| ==> IsAlphabet(t[i]) || t[i] == '=';
    RemoveWhitespaceKeeps(t);
    RemovePaddingOfPadded(g, |s|);
    DecodeEncodeGroups(s);
    assert RemovePadding(RemoveWhitespace(t)) == g;
  }
}
