/**
 The shareable token: `"NARAKA-FACEHAIR-"` followed by the base64 text of
 the quirked LZMA stream of the record's JSON. Serialisation to JSON bytes,
 LZMA compression and decompression, and JSON parsing are foreign code here
 and enter as function parameters; everything between the compressed bytes
 and the token text is modelled.
 */
module Token {
  import opened Json
  import opened Header
  import opened Base64
  import opened Schema
  import opened FaceCodec

  /** The fixed text every token starts with. */
  const CodePrefix: string := "NARAKA-FACEHAIR-"

  /** The compression mode `encodeRawToCode` passes to the LZMA encoder. */
  const CompressionMode: int := 5

  /** The prefix handling of `decodeCodeToRaw`: a leading prefix is removed
      (its first occurrence is the one at the start), anything else is kept. */
  function StripPrefix(code: string): (r: string)
    ensures |r| <= |code|
  {
    if CodePrefix <= code then code[|CodePrefix|..] else code
  }

  /** `String.fromCharCode` of every byte, joined. */
  function BytesToBinary(b: seq<bv8>): (s: string)
    ensures |s| == |b| && IsBinary(s)
  {
    seq(|b|, i requires 0 <= i < |b| => (b[i] as nat) as char)
  }

  /** `charCodeAt` of every character, stored into a `Uint8Array` (which
      keeps the code modulo 256). */
  function BinaryToBytes(s: string): (b: seq<bv8>)
    ensures |b| == |s|
  {
    seq(|s|, i requires 0 <= i < |s| => ((s[i] as nat) % 256) as bv8)
  }

  /** The token-building half of `encodeRawToCode`, from the compressed bytes on. */
  function EncodeCompressedToCode(compressed: seq<bv8>): (r: Result<string>)
    ensures r.Ok? <==> |compressed| >= PayloadOffset
    ensures r.Err? ==> r.error == RangeError
    ensures r.Ok? ==> CodePrefix <= r.value
  {
    match Quirk(compressed)
    case Err(e) => Err(e)
    case Ok(quirked) =>
      match Btoa(BytesToBinary(quirked))
      case Err(e) => Err(e)
      case Ok(text) => Ok(CodePrefix + text)
  }

  /** The token-reading half of `decodeCodeToRaw`, up to the bytes handed
      to the LZMA decoder. */
  function DecodeCodeToCompressed(code: string): (r: Result<seq<bv8>>)
    ensures r.Err? ==> r.error in {InvalidCharacterError, RangeError}
  {
    var binary :- Atob(StripPrefix(code));
    Restore(BinaryToBytes(binary))
  }

  /** `encodeRawToCode`: `serialize` is `TextEncoder.encode(JSON.stringify(.))`
      and `compress` the LZMA encoder. */
  function EncodeRawToCode<R>(raw: R, serialize: R -> seq<bv8>, compress: (seq<bv8>, int) -> seq<bv8>): (r: Result<string>)
    ensures r.Ok? ==> CodePrefix <= r.value
  {
    EncodeCompressedToCode(compress(serialize(raw), CompressionMode))
  }

  /** `decodeCodeToRaw`: `decompress` is the LZMA decoder and `parse` is
      `JSON.parse(TextDecoder.decode(.))`. */
  function DecodeCodeToRaw<R>(code: string, decompress: seq<bv8> -> Result<seq<bv8>>, parse: seq<bv8> -> Result<R>): (r: Result<R>)
    ensures DecodeCodeToCompressed(code).Err? ==> r.Err?
  {
    var compressed :- DecodeCodeToCompressed(code);
    var bytes :- decompress(compressed);
    parse(bytes)
  }

  /** `encodeParsedToCode`. */
  function EncodeParsedToCode(schema: seq<Entry>, parsed: ParsedData,
                              serialize: RawData -> seq<bv8>, compress: (seq<bv8>, int) -> seq<bv8>): (r: Result<string>)
    ensures r.Ok? ==> CodePrefix <= r.value
  {
    EncodeRawToCode(EncodeParsedToRaw(schema, parsed), serialize, compress)
  }

  /** `decodeCodeToParsed`. */
  function DecodeCodeToParsed(schema: seq<Entry>, code: string,
                              decompress: seq<bv8> -> Result<seq<bv8>>, parse: seq<bv8> -> Result<RawData>): (r: Result<ParsedData>)
    ensures r.Ok? ==> DecodeCodeToRaw(code, decompress, parse).Ok?
    ensures r.Ok? ==> r.value.hairData == DecodeCodeToRaw(code, decompress, parse).value.hairData
  {
    var raw :- DecodeCodeToRaw(code, decompress, parse);
    DecodeRawToParsed(schema, raw)
  }

  /** With independent schema paths, `decodeCodeToParsed` fails exactly when
      `decodeCodeToRaw` does, and otherwise keeps the raw record's hair data. */
  lemma DecodeCodeToParsedSucceeds(schema: seq<Entry>, code: string,
                                   decompress: seq<bv8> -> Result<seq<bv8>>, parse: seq<bv8> -> Result<RawData>)
    requires IndependentPaths(schema)
    ensures DecodeCodeToParsed(schema, code, decompress, parse).Ok? <==> DecodeCodeToRaw(code, decompress, parse).Ok?
  {
    var raw := DecodeCodeToRaw(code, decompress, parse);
    if raw.Ok? {
      DecodeSucceeds(schema, raw.value);
    }
  }

  // ---------------------------------------------------------------------
  // Prefix.

  /** Stripping a prefixed body gives the body back exactly, even a body
      that itself starts with the prefix. */
  lemma StripPrefixed(body: string)
    ensures StripPrefix(CodePrefix + body) == body
  {
    assert CodePrefix <= CodePrefix + body;
  }

  /** A text without the prefix passes through unchanged. */
  lemma StripUnprefixed(code: string)
    requires !(CodePrefix <= code)
    ensures StripPrefix(code) == code
  {
  }

  /** A token decodes the same with or without its prefix. */
  lemma PrefixOptional(body: string)
    requires !(CodePrefix <= body)
    ensures DecodeCodeToCompressed(CodePrefix + body) == DecodeCodeToCompressed(body)
  {
    StripPrefixed(body);
  }

  /** Only one prefix is removed: a doubly prefixed token is rejected, since
      `-` is not a base64 character. */
  lemma DoublePrefixRejected(body: string)
    ensures DecodeCodeToCompressed(CodePrefix + CodePrefix + body).Err?
  {
    StripPrefixed(CodePrefix + body);
    assert CodePrefix + CodePrefix + body == CodePrefix + (CodePrefix + body);
    var t := CodePrefix + body;
    WhitespaceKeepsPrefix(t);
    var w := RemoveWhitespace(t);
    var d := RemovePadding(w);
    assert d[6] == '-' && !IsAlphabet(d[6]);
  }

  /** Removing whitespace keeps the token prefix, which has none. */
  lemma WhitespaceKeepsPrefix(t: string)
    requires CodePrefix <= t
    ensures CodePrefix <= RemoveWhitespace(t)
  {
    var p := CodePrefix;
    assert t == p + t[|p|..];
    RemoveWhitespaceAppend(p, t[|p|..]);
    PrefixHasNoWhitespace();
    RemoveWhitespaceKeeps(p);
  }

  lemma PrefixHasNoWhitespace()
    ensures forall i :: 0 <= i < |CodePrefix| ==> !IsAsciiWhitespace(CodePrefix[i])
  {
    forall i | 0 <= i < |CodePrefix|
      ensures !IsAsciiWhitespace(CodePrefix[i])
    {
      assert CodePrefix[i] == '-' || 'A' <= CodePrefix[i] <= 'Z';
    }
  }

  lemma {:induction false} RemoveWhitespaceAppend(a: string, b: string)
    ensures RemoveWhitespace(a + b) == RemoveWhitespace(a) + RemoveWhitespace(b)
    decreases |a|
  {
    if |a| > 0 {
      assert (a + b)[1..] == a[1..] + b;
      RemoveWhitespaceAppend(a[1..], b);
    } else {
      assert a + b == b;
    }
  }

  // ---------------------------------------------------------------------
  // Bytes and binary strings.

  /** Bytes survive the trip through a binary string. */
  lemma BinaryOfBytes(b: seq<bv8>)
    ensures BinaryToBytes(BytesToBinary(b)) == b
  {
    var s := BytesToBinary(b);
    forall i | 0 <= i < |b|
      ensures BinaryToBytes(s)[i] == b[i]
    {
      ByteOfChar(b[i]);
    }
  }

  /** One byte through its character and back. */
  lemma ByteOfChar(x: bv8)
    ensures (((x as nat) as char as nat) % 256) as bv8 == x
  {
    CharCode(x as nat);
    ByteCode(x);
  }

  lemma CharCode(n: nat)
    requires n < 256
    ensures (n as char) as nat % 256 == n
  {
  }

  lemma ByteCode(x: bv8)
    ensures (x as nat) as bv8 == x
  {
  }

  /** A string survives the trip through bytes exactly when it is binary. */
  lemma BytesOfBinary(s: string)
    ensures BytesToBinary(BinaryToBytes(s)) == s <==> IsBinary(s)
  {
    var t := BytesToBinary(BinaryToBytes(s));
    if IsBinary(s) {
      forall i | 0 <= i < |s|
        ensures t[i] == s[i]
      {
        assert (s[i] as nat) % 256 == s[i] as nat;
      }
    }
  }

  // ---------------------------------------------------------------------
  // Round trips.

  /** The token of a compressed stream decodes back to that stream exactly
      when its announced size is below 4 GiB (the high half of the size
      field is zero). */
  lemma CompressedRoundTrip(compressed: seq<bv8>)
    requires |compressed| >= PayloadOffset
    ensures EncodeCompressedToCode(compressed).Ok?
    ensures DecodeCodeToCompressed(EncodeCompressedToCode(compressed).value) == Ok(compressed)
        <==> SizeField(compressed) < 0x1_0000_0000
  {
    var q := Quirk(compressed).value;
    var binary := BytesToBinary(q);
    var text := Btoa(binary).value;
    StripPrefixed(text);
    AtobBtoa(binary);
    BinaryOfBytes(q);
    RestoreQuirk(compressed);
    HighHalfZeroIffSmall(compressed);
  }

  /** A record survives `encodeRawToCode` then `decodeCodeToRaw` when the
      foreign pieces are inverse to each other on it and its compressed
      stream announces a size below 4 GiB. */
  lemma RawRoundTrip<R>(raw: R, serialize: R -> seq<bv8>, compress: (seq<bv8>, int) -> seq<bv8>,
                        decompress: seq<bv8> -> Result<seq<bv8>>, parse: seq<bv8> -> Result<R>)
    requires |compress(serialize(raw), CompressionMode)| >= PayloadOffset
    requires SizeField(compress(serialize(raw), CompressionMode)) < 0x1_0000_0000
    requires decompress(compress(serialize(raw), CompressionMode)) == Ok(serialize(raw))
    requires parse(serialize(raw)) == Ok(raw)
    ensures EncodeRawToCode(raw, serialize, compress).Ok?
    ensures DecodeCodeToRaw(EncodeRawToCode(raw, serialize, compress).value, decompress, parse) == Ok(raw)
  {
    CompressedRoundTrip(compress(serialize(raw), CompressionMode));
  }

  /** A decoded record survives `encodeParsedToCode` then `decodeCodeToParsed`
      under the same conditions on the foreign pieces. */
  lemma ParsedRoundTrip(schema: seq<Entry>, raw: RawData,
                        serialize: RawData -> seq<bv8>, compress: (seq<bv8>, int) -> seq<bv8>,
                        decompress: seq<bv8> -> Result<seq<bv8>>, parse: seq<bv8> -> Result<RawData>)
    requires WellFormed(schema)
    requires DecodeRawToParsed(schema, raw).Ok?
    requires var wire := EncodeParsedToRaw(schema, DecodeRawToParsed(schema, raw).value);
      && |compress(serialize(wire), CompressionMode)| >= PayloadOffset
      && SizeField(compress(serialize(wire), CompressionMode)) < 0x1_0000_0000
      && decompress(compress(serialize(wire), CompressionMode)) == Ok(serialize(wire))
      && parse(serialize(wire)) == Ok(wire)
    ensures var p := DecodeRawToParsed(schema, raw).value;
      && EncodeParsedToCode(schema, p, serialize, compress).Ok?
      && DecodeCodeToParsed(schema, EncodeParsedToCode(schema, p, serialize, compress).value, decompress, parse) == Ok(p)
  {
    var p := DecodeRawToParsed(schema, raw).value;
    var wire := EncodeParsedToRaw(schema, p);
    RawRoundTrip(wire, serialize, compress, decompress, parse);
    DecodeEncode(schema, raw);
  }
}
