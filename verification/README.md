# Naraka character-editor codec, in Dafny

This project models the codec core of a character-customisation editor for
the game Naraka. A character's face is stored in three forms:

- a *raw* record: a flat array of face values, plus hair parameters;
- a *parsed* record: the same face values as a nested tree addressed by
  slash-delimited paths such as `ParamData/Eyes/Right`, plus the same hair
  parameters;
- a shareable *token*: `NARAKA-FACEHAIR-` followed by base64 text. The text
  encodes the LZMA-compressed JSON of the raw record, with the compressed
  stream's header rewritten (the "header quirk").

The model covers these parts:

- the schema-driven codec between the array and the tree
  (`decodeRawToParsed`, `encodeParsedToRaw`);
- the token framing (header quirk and restore, byte↔binary-string
  conversion, `btoa`/`atob`, and adding and stripping the prefix);
- the path accessor of the preset manager (`getValueByPath`,
  `setValueByPath`);
- the three preset transforms built on it (smart apply, randomize,
  nullify).

Modules, one per concern:

- `Json` (json.dfy): JSON values (`Node`), `undefined` as `None`, the
  exceptions as `Result`, JavaScript truthiness, property reads and `?? 0`.
- `Paths` (paths.dfy): `path.split("/")` and its inverse.
- `Accessor` (accessor.dfy): `getValueByPath` and `setValueByPath` on
  immutable trees. In strict mode, assigning a property of a primitive
  throws a TypeError, so a write can fail.
- `Schema` (schema.dfy): schema entries and their well-formedness, and the
  schema walk shared by the decoder and the presets.
- `FaceCodec` (codec.dfy): the raw and parsed records, the array↔tree
  codec, and its round trips.
- `Header` (header.dfy): the quirk and restore rewrites, stated through
  `Uint8Array.prototype.set` and `subarray`, and the 8-byte size field.
- `Base64` (base64.dfy): `btoa` (section 4 of RFC 4648) and `atob` (the
  WHATWG forgiving-base64 decode).
- `Token` (token.dfy): the prefix, the binary string, and the encode and
  decode pipelines. The foreign pieces are parameters: JSON plus
  `TextEncoder`/`TextDecoder`, and the LZMA encoder and decoder.
- `Presets` (presets.dfy): smart apply, randomize and nullify.

The schema itself (the list of paths and indices in `./facedata`) is not
part of this model. It is a parameter, and the lemmas that need it assume it
is well formed:

- the indices are a permutation of `0..N-1`;
- no path equals or is a prefix of another path.

The doc comment of `randomizeParsedData` (src/lib/utils/preset-manager.ts:85)
says it randomizes "valid sliders only", but its loop (lines 91-112)
overwrites every schema path other than `HeroID` and `Version`, whatever it
held. The model follows the code.

## Model

| member | source | states |
|---|---|---|
| `Accessor.GetPath` | src/lib/utils/preset-manager.ts:17-25 | reading a path never throws; the answer is `undefined` when the starting value is `undefined`, `null` or not an object, and a found value sits under an existing key |
| `Accessor.GetPathAppend` | src/lib/utils/preset-manager.ts:19-24 | reading `p + q` is reading `q` from wherever reading `p` stopped |
| `Accessor.BrokenIntermediate` | src/lib/utils/preset-manager.ts:20-22 | once the value reached at any depth is `undefined`, `null` or not an object, every longer path reads `undefined` |
| `Accessor.SetPath` | src/lib/utils/preset-manager.ts:30-39 | the write succeeds exactly when every intermediate is an object or falsy (falsy ones are replaced by `{}`), otherwise it throws a TypeError; after it, reading the same path gives the written value |
| `Accessor.SetFrame` | src/lib/utils/preset-manager.ts:30-39 | a write leaves the value at every path that is neither a prefix nor an extension of the written path unchanged |
| `Accessor.SetKeepsSettable` | src/lib/utils/preset-manager.ts:33-37 | a write keeps every unrelated path writable |
| `Accessor.SetIdle` | src/lib/utils/preset-manager.ts:30-39 | writing the value a path already holds gives back the same tree |
| `Paths.JoinSplit` | src/lib/utils/preset-manager.ts:18 | joining the pieces of `path.split("/")` with `/` gives the path back |
| `Paths.SplitInjective` | src/lib/utils/preset-manager.ts:18 | two paths with the same segment list are the same path |
| `Paths.SplitJoin` | src/lib/utils/naraka/char-editor.ts:37 | splitting a join of slash-free segments gives the segments back |
| `Schema.ApplyValues` | src/lib/utils/preset-manager.ts:60-77 | with independent schema paths, after the schema walk every entry's path holds its planned value, or its earlier value when the plan skips it |
| `Schema.ApplyFrame` | src/lib/utils/preset-manager.ts:60-77 | a path unrelated to every written path reads the same after the walk |
| `Schema.ApplySucceeds` | src/lib/utils/naraka/char-editor.ts:36-48 | the walk does not throw when every written path is writable at the start and the paths are independent |
| `Schema.ApplyIdle` | src/lib/utils/preset-manager.ts:124-129 | a walk whose planned values are all in place already returns the tree unchanged |
| `FaceCodec.DecodeRawToParsed` | src/lib/utils/naraka/char-editor.ts:33-55 | decoding throws nothing but a TypeError, returns an object tree, and passes `hairData` through unchanged |
| `FaceCodec.DecodeSucceeds` | src/lib/utils/naraka/char-editor.ts:36-48 | on a schema with independent paths decoding never throws |
| `FaceCodec.DecodeValues` | src/lib/utils/naraka/char-editor.ts:36-48 | after decoding, the leaf at each schema path is `faceData[index]` when that element exists and is not null, and 0 otherwise |
| `FaceCodec.EncodeParsedToRaw` | src/lib/utils/naraka/char-editor.ts:60-85 | encoding returns at least N slots and passes `hairData` through unchanged |
| `FaceCodec.EncodeShape` | src/lib/utils/naraka/char-editor.ts:61 | with indices in range the array has exactly N slots, and every slot no entry owns keeps its initial 0 |
| `FaceCodec.EncodeReadsPaths` | src/lib/utils/naraka/char-editor.ts:63-78 | each entry's slot holds the value at its path, and 0 when an intermediate is missing or null or the leaf is absent or null |
| `FaceCodec.ReadSlotIsGetPath` | src/lib/utils/naraka/char-editor.ts:65-77 | the encoder's inline walk reads exactly `getValueByPath(...) ?? 0` |
| `FaceCodec.FillWritten` | src/lib/utils/naraka/char-editor.ts:63-79 | with distinct indices, later entries never overwrite an earlier entry's slot |
| `FaceCodec.Store` | src/lib/utils/naraka/char-editor.ts:74 | an array assignment sets that slot, keeps the others, and grows the array when the index is past its end |
| `FaceCodec.EncodeDecode` | src/lib/utils/naraka/char-editor.ts:33-85 | for a well-formed schema, decoding then encoding gives N slots, each `faceData[i] ?? 0`, and the same `hairData` |
| `FaceCodec.EncodeDecodeIdentity` | src/lib/utils/naraka/char-editor.ts:33-85 | for a well-formed schema and an N-element array without nulls, `encodeParsedToRaw(decodeRawToParsed(raw)) == raw` |
| `FaceCodec.DecodeEncode` | src/lib/utils/naraka/char-editor.ts:33-85 | for a well-formed schema, encoding then decoding a decoded record gives the same record back |
| `Header.TypedSet` | src/lib/utils/naraka/char-editor.ts:100-104 | `set` copies the source in at the offset and keeps the rest of the buffer, or throws a RangeError when the source does not fit |
| `Header.Quirk` | src/lib/utils/naraka/char-editor.ts:99-104 | the quirk throws a RangeError exactly for buffers under 13 bytes; otherwise it keeps the length, bytes 0-8 and 13 onward, and copies bytes 5-8 into 9-12 |
| `Header.Restore` | src/lib/utils/naraka/char-editor.ts:129-132 | the restore throws a RangeError exactly for buffers under 13 bytes; otherwise it keeps the length, bytes 0-8 and 13 onward, and zeroes bytes 9-12 |
| `Header.RestoreQuirk` | src/lib/utils/naraka/char-editor.ts:99-132 | restoring a quirked buffer gives the original back if and only if its bytes 9-12 are zero |
| `Header.QuirkRestore` | src/lib/utils/naraka/char-editor.ts:99-132 | quirking a restored buffer gives the token bytes back if and only if bytes 9-12 repeat bytes 5-8 |
| `Header.HighHalfZeroIffSmall` | src/lib/utils/naraka/char-editor.ts:128-132 | the high half of the size field is zero if and only if the announced uncompressed size is below 4 GiB |
| `Header.RestoredSize` | src/lib/utils/naraka/char-editor.ts:128-132 | a restored header announces the size stored in bytes 5-8, which is below 4 GiB |
| `Base64.Btoa` | src/lib/utils/naraka/char-editor.ts:109 | `btoa` accepts exactly the binary strings, and throws an InvalidCharacterError on any other |
| `Base64.BtoaLength` | src/lib/utils/naraka/char-editor.ts:109 | the base64 text of n bytes is `4 * ceil(n / 3)` characters long, padding included |
| `Base64.Atob` | src/lib/utils/naraka/char-editor.ts:122 | `atob` throws only InvalidCharacterError and returns a binary string |
| `Base64.AtobBtoa` | src/lib/utils/naraka/char-editor.ts:109-122 | `atob(btoa(s)) == s` for every binary string |
| `Token.BinaryOfBytes` | src/lib/utils/naraka/char-editor.ts:106-126 | bytes turned into a binary string and back are unchanged |
| `Token.BytesOfBinary` | src/lib/utils/naraka/char-editor.ts:122-126 | a string turned into bytes and back is unchanged if and only if all its characters are below 256 |
| `Token.EncodeCompressedToCode` | src/lib/utils/naraka/char-editor.ts:98-111 | a token is produced exactly for compressed streams of at least 13 bytes (a RangeError otherwise), and it always starts with `NARAKA-FACEHAIR-` |
| `Token.DecodeCodeToCompressed` | src/lib/utils/naraka/char-editor.ts:118-132 | reading a token fails only with InvalidCharacterError (base64) or RangeError (a buffer shorter than the header) |
| `Token.EncodeRawToCode` | src/lib/utils/naraka/char-editor.ts:90-112 | every token produced starts with `NARAKA-FACEHAIR-` |
| `Token.DecodeCodeToRaw` | src/lib/utils/naraka/char-editor.ts:117-139 | a token that cannot be read up to the compressed bytes never yields a record |
| `Token.EncodeParsedToCode` | src/lib/utils/naraka/char-editor.ts:146-149 | every token produced from a parsed record starts with `NARAKA-FACEHAIR-` |
| `Token.DecodeCodeToParsed` | src/lib/utils/naraka/char-editor.ts:141-144 | a parsed record is returned only when the raw record was decoded, and it carries that record's `hairData` |
| `Token.DecodeCodeToParsedSucceeds` | src/lib/utils/naraka/char-editor.ts:141-144 | with independent schema paths, decoding to a parsed record fails exactly when decoding to a raw record does |
| `Token.StripPrefixed` | src/lib/utils/naraka/char-editor.ts:118-120 | stripping `CODE_PREFIX` from a prefixed text gives back exactly the text after it |
| `Token.StripUnprefixed` | src/lib/utils/naraka/char-editor.ts:118-120 | a text without the prefix is left unchanged |
| `Token.PrefixOptional` | src/lib/utils/naraka/char-editor.ts:117-122 | a token decodes the same with or without its prefix |
| `Token.DoublePrefixRejected` | src/lib/utils/naraka/char-editor.ts:118-122 | only one prefix is stripped, so a doubly prefixed token is rejected |
| `Token.CompressedRoundTrip` | src/lib/utils/naraka/char-editor.ts:98-132 | a compressed stream's token decodes back to that exact stream if and only if the announced size is below 4 GiB |
| `Token.RawRoundTrip` | src/lib/utils/naraka/char-editor.ts:90-139 | `decodeCodeToRaw(encodeRawToCode(raw)) == raw` when decompress undoes compress and parse undoes serialize on it, and the size is below 4 GiB |
| `Token.ParsedRoundTrip` | src/lib/utils/naraka/char-editor.ts:141-149 | a decoded record survives `encodeParsedToCode` then `decodeCodeToParsed` under the same conditions |
| `Presets.StartingTree` | src/lib/utils/preset-manager.ts:58 | the transforms start from a truthy face tree: the current one when it is truthy, `{}` otherwise |
| `Presets.StartingTreeReads` | src/lib/utils/preset-manager.ts:58 | replacing falsy face data by `{}` changes the value at no path |
| `Presets.TransformValues` | src/lib/utils/preset-manager.ts:55-81 | after a transform, each schema path holds its planned value, or the current record's value when the plan skips it |
| `Presets.ApplySmartPreset` | src/lib/utils/preset-manager.ts:53-82 | smart apply returns the current record's `hairData` |
| `Presets.SmartPresetValues` | src/lib/utils/preset-manager.ts:60-77 | a non-identity path whose preset value is a number in [0, 100] takes that value; `HeroID`, `Version` and every other path keep the current value |
| `Presets.RandomSliderRange` | src/lib/utils/preset-manager.ts:111 | `Math.floor(Math.random() * 101)` is a whole number from 0 to 100 |
| `Presets.RandomizeParsedData` | src/lib/utils/preset-manager.ts:87-115 | randomize returns the current record's `hairData` |
| `Presets.RandomizeValues` | src/lib/utils/preset-manager.ts:91-112 | `HeroID`/`Version` keep their value; every other schema path, whatever it held, becomes a whole number from 0 to 100 |
| `Presets.NullifyParsedData` | src/lib/utils/preset-manager.ts:120-131 | nullify returns the current record's `hairData` |
| `Presets.NullifyValues` | src/lib/utils/preset-manager.ts:124-129 | `HeroID`/`Version` keep their value; every other schema path, whatever it held, becomes 0 |
| `Presets.NullifyIdempotent` | src/lib/utils/preset-manager.ts:120-131 | nullifying a nullified record gives the same record |
| `Presets.PresentIsSettable` | src/lib/utils/preset-manager.ts:33-38 | a path that reaches a value through objects can be written |
| `Presets.TransformSucceeds` | src/lib/utils/preset-manager.ts:53-131 | a transform never throws on face data that admits a write at every schema path |
| `Presets.DecodedIsWritable` | src/lib/utils/preset-manager.ts:53-131 | every decoded record admits a write at every schema path |
| `Presets.TransformsSucceed` | src/lib/utils/preset-manager.ts:53-131 | smart apply, randomize and nullify all succeed on such face data |

## Left out

- QR codes and remote fetch are I/O and asynchronous glue, so they are not
  modelled: `decodeQRCodeToRaw`, `encodeRawToQRCode`, and
  `src/lib/utils/qr-reader.ts` as a whole.
- LZMA compression and decompression, `TextEncoder`/`TextDecoder`, and
  `JSON.stringify`/`JSON.parse` are foreign code. They enter as function
  parameters, and the round-trip lemmas state what they must satisfy.
- `Math.random()` is not modelled. The caller supplies one draw in [0, 1)
  per schema entry.
- The schema contents (`./facedata`) are not part of this model. The schema
  is a parameter, and its well-formedness is a precondition of the lemmas.
- The deep copy `JSON.parse(JSON.stringify(current))` is the identity on
  these immutable values. So "the inputs are not modified" holds by
  construction and is not stated as a separate lemma.
- Numbers are Dafny `real`s. NaN, infinities, `-0` and double-precision
  rounding are not modelled.
- Property reads on a primitive always give `undefined`. String indices,
  `length`, and inherited keys such as `constructor` or `__proto__` are not
  modelled. Arrays never appear inside the face tree.
- Holes left by an array assignment past the end are modelled as `null`;
  JavaScript reads them as `undefined`. Both read back as 0 through `?? 0`.
- A transform that throws part-way in JavaScript has already changed its
  private copy. The model returns only the error, which is also all the
  caller can observe.
- The decoder can, with a schema whose paths overlap, step into an object
  taken from the raw array and change it in place. Aliasing is not modelled.
  It cannot happen with independent paths.
- `FaceCodec.DecodeEncode`: proves `decode(encode(p)) == p` only for trees
  the decoder produces. The broader claim "any tree whose only populated
  paths are schema paths" also admits `null` leaves and leftover empty
  objects, which the round trip turns into 0 or drops.
- `Presets.SmartPresetValues`, `Presets.RandomizeValues` and
  `Presets.NullifyValues`: each states its property one schema entry at a
  time. It assumes independent schema paths, without which a later entry can
  overwrite an earlier one.
- `Token.DecodeCodeToParsed`: the parser parameter returns a raw record with
  an array `faceData` and a `hairData`. In the source, `JSON.parse` can
  return any JSON value (char-editor.ts:138), and `decodeRawToParsed` then
  throws a TypeError reading `faceData` of `null` or of a non-record
  (char-editor.ts:43). That TypeError is not modelled.
- `Token.DecodeCodeToRaw`: states only the error propagation. Its success
  behaviour is stated by `Token.RawRoundTrip`, because the decompressor and
  the parser are parameters.
