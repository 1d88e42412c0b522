/**
 The token's header quirk. An LZMA-alone stream starts with a 13-byte
 header: one properties byte, a dictionary size (bytes 1-4), and the
 uncompressed size as an 8-byte little-endian field (bytes 5-12). The token
 format stores the low 4 bytes of that size twice (bytes 5-8 and 9-12);
 decoding puts zeros back in bytes 9-12. Both rewrites go through
 `Uint8Array.prototype.set`, which throws a RangeError when the source does
 not fit at the offset.
 */
module Header {
  import opened Json

  /** Where the compressed payload starts, after the 13-byte header. */
  const PayloadOffset: nat := 13

  /** `new Uint8Array(n)`: n zero bytes. */
  function NewBuffer(n: nat): (r: seq<bv8>)
    ensures |r| == n
    ensures forall i :: 0 <= i < n ==> r[i] == 0
  {
    seq(n, _ => 0)
  }

  /** `b.subarray(begin, end)` for non-negative arguments: both bounds are
      clamped to the length, and an end before the begin gives nothing. */
  function Subarray(b: seq<bv8>, begin: nat, end: nat): (r: seq<bv8>)
    ensures end <= |b| && begin <= end ==> r == b[begin..end]
    ensures |b| <= begin ==> r == []
    ensures begin <= |b| <= end ==> r == b[begin..]
  {
    var e := if end <= |b| then end else |b|;
    var s := if begin <= e then begin else e;
    b[s..e]
  }

  /** `target.set(source, offset)`: copies `source` over `target` starting at
      `offset`, or throws a RangeError when it would run past the end. */
  function TypedSet(target: seq<bv8>, source: seq<bv8>, offset: nat): (r: Result<seq<bv8>>)
    ensures r.Ok? <==> offset + |source| <= |target|
    ensures r.Err? ==> r.error == RangeError
    ensures r.Ok? ==> |r.value| == |target|
    ensures r.Ok? ==> r.value[offset..offset + |source|] == source
    ensures r.Ok? ==> r.value[..offset] == target[..offset]
    ensures r.Ok? ==> r.value[offset + |source|..] == target[offset + |source|..]
  {
    if offset + |source| > |target| then Err(RangeError)
    else Ok(target[..offset] + source + target[offset + |source|..])
  }

  /** The quirk of `encodeRawToCode`: bytes 0-4 copied, the low size bytes
      5-8 written at 5 and again at 9, the payload from 13 on copied. */
  function Quirk(compressed: seq<bv8>): (r: Result<seq<bv8>>)
    ensures r.Ok? <==> |compressed| >= PayloadOffset
    ensures r.Err? ==> r.error == RangeError
    ensures r.Ok? ==> |r.value| == |compressed|
    ensures r.Ok? ==> r.value[..9] == compressed[..9]
    ensures r.Ok? ==> r.value[9..13] == compressed[5..9]
    ensures r.Ok? ==> r.value[13..] == compressed[13..]
  {
    var buf0 := NewBuffer(|compressed|);
    var buf1 :- TypedSet(buf0, Subarray(compressed, 0, 5), 0);
    var sizeLow := Subarray(compressed, 5, 9);
    var buf2 :- TypedSet(buf1, sizeLow, 5);
    var buf3 :- TypedSet(buf2, sizeLow, 9);
    match TypedSet(buf3, Subarray(compressed, 13, |compressed|), 13)
    case Err(e) => Err(e)
    case Ok(buf4) =>
      assert buf4[..9] == buf3[..9] == buf2[..9];
      assert buf2[..5] == buf1[..5] == compressed[..5];
      assert buf2[..9] == buf2[..5] + buf2[5..9];
      assert compressed[..9] == compressed[..5] + compressed[5..9];
      assert buf4[9..13] == buf3[9..13];
      Ok(buf4)
  }

  /** The restore of `decodeCodeToRaw`: bytes 0-8 copied, zeros at 9-12,
      the payload from 13 on copied. */
  function Restore(token: seq<bv8>): (r: Result<seq<bv8>>)
    ensures r.Ok? <==> |token| >= PayloadOffset
    ensures r.Err? ==> r.error == RangeError
    ensures r.Ok? ==> |r.value| == |token|
    ensures r.Ok? ==> r.value[..9] == token[..9]
    ensures r.Ok? ==> r.value[9..13] == [0, 0, 0, 0]
    ensures r.Ok? ==> r.value[13..] == token[13..]
  {
    var buf0 := NewBuffer(|token|);
    var buf1 :- TypedSet(buf0, Subarray(token, 0, 9), 0);
    var buf2 :- TypedSet(buf1, [0, 0, 0, 0], 9);
    match TypedSet(buf2, Subarray(token, 13, |token|), 13)
    case Err(e) => Err(e)
    case Ok(buf3) =>
      assert buf3[..9] == buf2[..9] == buf1[..9];
      assert buf3[9..13] == buf2[9..13];
      Ok(buf3)
  }

  /** Two buffers of one length agree when their three header regions do. */
  lemma RegionsDetermine(a: seq<bv8>, b: seq<bv8>)
    requires |a| == |b| >= PayloadOffset
    requires a[..9] == b[..9] && a[9..13] == b[9..13] && a[13..] == b[13..]
    ensures a == b
  {
    assert a == a[..9] + a[9..13] + a[13..];
    assert b == b[..9] + b[9..13] + b[13..];
  }

  /** Restoring a quirked header gives the original buffer back exactly when
      the high half of its size field (bytes 9-12) is zero. */
  lemma RestoreQuirk(b: seq<bv8>)
    requires |b| >= PayloadOffset
    ensures Quirk(b).Ok?
    ensures Restore(Quirk(b).value) == Ok(b) <==> b[9..13] == [0, 0, 0, 0]
  {
    var q := Quirk(b).value;
    var r := Restore(q).value;
    if b[9..13] == [0, 0, 0, 0] {
      RegionsDetermine(r, b);
    }
  }

  /** Quirking a restored header gives the token's buffer back exactly when
      the token carries the low size bytes twice. */
  lemma QuirkRestore(t: seq<bv8>)
    requires |t| >= PayloadOffset
    ensures Restore(t).Ok?
    ensures Quirk(Restore(t).value) == Ok(t) <==> t[9..13] == t[5..9]
  {
    var r := Restore(t).value;
    var q := Quirk(r).value;
    assert r[5..9] == r[..9][5..9] == t[..9][5..9] == t[5..9];
    if t[9..13] == t[5..9] {
      RegionsDetermine(q, t);
    }
  }

  // ---------------------------------------------------------------------
  // The size field read as a number.

  /** A little-endian unsigned number. */
  function LittleEndian(s: seq<bv8>): nat
    decreases |s|
  {
    if |s| == 0 then 0 else s[0] as nat + 256 * LittleEndian(s[1..])
  }

  function Pow256(n: nat): (r: nat)
    ensures r >= 1
  {
    if n == 0 then 1 else 256 * Pow256(n - 1)
  }

  /** The uncompressed size the header announces (bytes 5-12). */
  function SizeField(header: seq<bv8>): nat
    requires |header| >= PayloadOffset
  {
    LittleEndian(header[5..13])
  }

  lemma {:induction false} LittleEndianBound(s: seq<bv8>)
    ensures LittleEndian(s) < Pow256(|s|)
    decreases |s|
  {
    if |s| > 0 {
      LittleEndianBound(s[1..]);
    }
  }

  lemma ScaleProduct(p: nat, q: nat)
    ensures 256 * (p * q) == (256 * p) * q
  {
  }

  lemma {:induction false} LittleEndianAppend(s: seq<bv8>, t: seq<bv8>)
    ensures LittleEndian(s + t) == LittleEndian(s) + Pow256(|s|) * LittleEndian(t)
    decreases |s|
  {
    if |s| > 0 {
      assert (s + t)[1..] == s[1..] + t;
      LittleEndianAppend(s[1..], t);
      var p, lt := Pow256(|s| - 1), LittleEndian(t);
      assert Pow256(|s|) == 256 * p;
      ScaleProduct(p, lt);
    } else {
      assert s + t == t;
    }
  }

  lemma {:induction false} LittleEndianZero(s: seq<bv8>)
    ensures LittleEndian(s) == 0 <==> forall i :: 0 <= i < |s| ==> s[i] == 0
    decreases |s|
  {
    if |s| > 0 {
      LittleEndianZero(s[1..]);
      assert forall i :: 1 <= i < |s| ==> s[i] == s[1..][i - 1];
    }
  }

  /** The high half of the size field is zero exactly when the announced
      size is below 4 GiB: the assumption the quirk depends on. */
  lemma HighHalfZeroIffSmall(header: seq<bv8>)
    requires |header| >= PayloadOffset
    ensures header[9..13] == [0, 0, 0, 0] <==> SizeField(header) < 0x1_0000_0000
  {
    var low := header[5..9];
    var high := header[9..13];
    assert header[5..13] == low + high;
    LittleEndianAppend(low, high);
    LittleEndianBound(low);
    assert Pow256(4) == 0x1_0000_0000;
    LittleEndianZero(high);
    if LittleEndian(high) != 0 {
      assert 0x1_0000_0000 * LittleEndian(high) >= 0x1_0000_0000;
    }
    if forall i :: 0 <= i < 4 ==> high[i] == 0 {
      assert high == [0, 0, 0, 0];
    }
  }

  /** A restored header announces the size the token stores first (bytes 5-8),
      which is always below 4 GiB. */
  lemma RestoredSize(t: seq<bv8>)
    requires |t| >= PayloadOffset
    ensures Restore(t).Ok?
    ensures SizeField(Restore(t).value) == LittleEndian(t[5..9]) < 0x1_0000_0000
  {
    var r := Restore(t).value;
    assert r[5..13] == t[5..9] + [0, 0, 0, 0] by {
      assert r[5..9] == r[..9][5..9];
    }
    LittleEndianAppend(t[5..9], [0, 0, 0, 0]);
    LittleEndianZero([0, 0, 0, 0]);
    LittleEndianBound(t[5..9]);
    assert Pow256(4) == 0x1_0000_0000;
  }
}
