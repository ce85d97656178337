# biser codec in Dafny

A model of biser, a schema-directed binary codec for JavaScript values. A schema is a
closed tree of six node kinds:
- numbers of six fixed-width kinds (uint8/16/32, int8/16/32);
- strings;
- bools;
- arrays with one item schema;
- structs with an ordered list of keyed properties;
- maps with one value schema.

`encode(data, schema)` walks the schema and the value together and produces bytes.
`decode(data, schema)` walks the same schema over a buffer and returns the value and the
number of bytes it consumed.

The wire format:
- **Numbers** take 1, 2 or 4 bytes. Unsigned kinds are big-endian. Signed kinds are
  sign-magnitude: the sign is the top bit of the first byte, and the other bits hold the
  magnitude.
- **Strings** are a one-byte length followed by the UTF-8 bytes.
- **Bools** are one byte.
- **Arrays, structs and maps** start with a one-byte count, where 0 means empty or absent.
  - An array then holds its items.
  - A struct holds its properties in schema order.
  - A map holds key/value pairs: the key as a string, then the value.

`isNumberType` and the `numberTypes` set become the `Number(kind)` schema constructor.
The `ranges` table becomes the functions `Numbers.Min` and `Numbers.Max`.

The model keeps the behaviour of the code as written, including its quirks:
- The most negative signed value passes the range check but decodes as 0.
- A uint32 at or above 2^31 decodes as `n - 2^32`.
- Lengths and counts are kept modulo 256.
- An absent value (undefined) encodes as the single byte 0, or under a number node as the
  width's count of zero bytes. For a string, array or map this is exactly the empty value's
  encoding. For a struct it is not: an empty object still writes the property count and then
  an absent value for every property. Each absent encoding decodes as the node's empty value
  (`Quirks.AbsentDecodesEmpty`).
- A struct's leading byte is only compared with 0.
- The map schema's `key` field is never read.
- A repeated map key keeps its last value.

Modules, one per file:
- `Utils`, `Wrappers` (utils.dfy): bytes, `abs`, `append`, in-place byte reads, `Option` and `Result`.
- `Types` (types.dfy): `Schema`, `Value`, `Entry`, `EncodeError`.
- `Objects` (objects.dfy): JavaScript objects as ordered association lists.
  - `Get` models `obj[k]` for the object's own keys; the prototype chain is not modelled (see "## Left out").
  - `Put` models `obj[k] = v` for every key except `__proto__`.
  - `ToRecord` models the decoder's assignment loop.
- `Numbers` (numbers.dfy): `ranges`, `checkRange`, `encodeNumberType`, `decodeNumberType`.
- `Encoder` (encoder.dfy) and `Decoder` (decoder.dfy): the two walkers.
  - The decoder reads one buffer through an offset.
  - It returns `None` where the source would read past the end.
- `RoundTrip` (roundtrip.dfy): the general round trip. Decoding an encoding gives the
  value's canonical form `Canon` and consumes exactly the encoding.
- `Exact` (exact.dfy): the exact round trip for faithful values. These have no absent
  parts, no lossy numbers, no counts above 255, and struct entries exactly as in the schema.
- `Frame` (frame.dfy): a decode reads only the bytes it consumes.
- `DecodeLayout` (decodelayout.dfy): the decoder's three loops in closed form.
  - Each loop advances its offset by what the last read consumed, so element `j` is read at
    the loop's start plus the sizes of the elements before it.
  - `Sizes` lists the sizes of the successive reads, stopping at the first that fails, and
    `Sum` adds them up.
  - `Run` is that loop for any reader. Each decoder loop is shown to be an instance of it.
- `ObjectCodec` (objectcodec.dfy): how structs and maps use object lookup and assignment.
- `Quirks` (quirks.dfy): absent values and the one-byte prefixes.
- `Vectors` (vectors.dfy): the byte vectors of the repository's tests.

## Model

| member | source | states |
|---|---|---|
| Utils.Abs | src/utils.ts:1 | the result is never negative; it is `x` for `x >= 0` and `-x` for `x < 0` |
| Utils.ReadBytesSlice | src/decoder.ts:54 | reading `n` bytes at `off` one at a time is the slice `data.slice(off, off + n)` |
| Objects.GetFirst | src/encoder.ts:139 | `data[key]` is the value of the first entry with that key, and a missing key reads as undefined |
| Objects.GetDistinct | src/encoder.ts:139 | in an object without repeated keys, looking up an entry's key gives that entry's value |
| Objects.PutGet | src/decoder.ts:95 | after `res[key] = v`, `res[key]` is `v` and every other key reads as before |
| Objects.PutShape | src/decoder.ts:119 | assigning an existing key keeps every key in place; a new key is appended at the end |
| Objects.PutKeys | src/decoder.ts:119 | after an assignment the keys are the old ones plus `key`, and distinct keys stay distinct |
| Objects.ToRecordKeys | src/decoder.ts:112-120 | the object built by the assignment loop holds each assigned key once and no other key |
| Objects.ToRecordLastWins | src/decoder.ts:112-120 | a key assigned more than once keeps the value of its last assignment |
| Objects.ToRecordDistinct | src/decoder.ts:89-96 | assigning entries with distinct keys rebuilds exactly those entries in order |
| Numbers.WidthPowers | src/encoder.ts:12-19 | unsigned kinds range over `[0, 256^w - 1]`; signed kinds over `[-2^(b-1), 2^(b-1) - 1]` |
| Numbers.EncodeNumberSpec | src/encoder.ts:34-43 | number encoding succeeds exactly when `min <= n <= max`; a failure names the kind and value; a success takes the kind's width in bytes |
| Numbers.BigEndianInverse | src/encoder.ts:45-64 | the bytes selected by the masks and shifts read back big-endian as the number, for any number that fits the width |
| Numbers.ZeroBytes | src/encoder.ts:45-91 | zero is written as the width's count of zero bytes |
| Numbers.PatternFacts | src/encoder.ts:65-91 | the signed bit pattern is `abs(n)` masked to the magnitude bits plus the sign flag, and it fits the width; an unsigned pattern is `n` itself |
| Numbers.NumberBytesLayout | src/encoder.ts:41-98 | unsigned bytes are `n` big-endian; signed bytes set the first byte's top bit exactly for negative `n` and hold `abs(n) mod 2^(b-1)` in the other bits |
| Numbers.SignedFields | src/decoder.ts:27-45 | testing the pattern's sign bit is testing `data[0] & 0x80`, and the magnitude is `data[0] & 0x7f` followed by the other bytes |
| Numbers.ReadBEAt | src/decoder.ts:18-26 | the decoder's shifts and ors over the bytes at `off` give the big-endian value of those bytes |
| Numbers.DecodeNumberBytes | src/decoder.ts:16-50 | uint8 and uint16 are read big-endian; uint32 is read big-endian as an int32; signed kinds negate the magnitude exactly when the first byte's top bit is set |
| Numbers.PatternRoundTrip | src/decoder.ts:16-50 | unpacking the pattern of an in-range number gives `Recovered(k, n)` |
| Numbers.SignedPatternRoundTrip | src/decoder.ts:27-45 | the sign flag plus `abs(n) mod bound` reads back as `n`, except that `-bound` reads back as 0 |
| Numbers.NumberRoundTrip | src/decoder.ts:16-50 | decoding the encoding of an in-range number gives `n`, except for the two lossy cases named by `Recovered` |
| Numbers.NumberRoundTripExact | src/decoder.ts:16-50 | an in-range number comes back unchanged exactly when it is not lossy |
| Numbers.MostNegativeDecodesAsZero | src/encoder.ts:65-91 | the most negative value of a signed kind passes `checkRange` but decodes as 0, because its magnitude is masked to 0 |
| Numbers.HighUInt32DecodesNegative | src/decoder.ts:25 | a uint32 at or above 2^31 encodes but decodes as `n - 2^32`, because `data[0] << 24` is a signed 32-bit result |
| Encoder.EncodeStringLayout | src/encoder.ts:100-108 | every string, empty ones included, encodes as its length mod 256 followed by its bytes |
| Encoder.EncodeSucceeds | src/encoder.ts:163-197 | `encode` succeeds exactly when every number in the value is within its kind's range and every part has its node's shape or is absent |
| Encoder.ItemsSucceed | src/encoder.ts:114-128 | the array loop succeeds exactly when every item can be encoded with the item schema |
| Encoder.FieldsSucceed | src/encoder.ts:130-143 | the struct loop succeeds exactly when each schema property's looked-up value can be encoded with that property's schema |
| Encoder.EntriesSucceed | src/encoder.ts:145-161 | the map loop succeeds exactly when every value can be encoded with the value schema |
| Encoder.EncodeArrayLayout | src/encoder.ts:114-128 | an array whose items all encode is its item count mod 256 followed by every item's encoding, in order |
| Encoder.EncodeStructLayout | src/encoder.ts:130-143 | a struct whose properties all encode is its property count mod 256 followed by the encoding of each property's looked-up value, in schema order |
| Encoder.EncodeMapLayout | src/encoder.ts:145-161 | a map whose values all encode is its entry count mod 256 followed by, for every entry in order, the key as a string and then the value's encoding |
| Decoder.DecodeStringSpec | src/decoder.ts:52-57 | a string read succeeds exactly when the length byte `n` and `n` more bytes are present; it returns those `n` bytes and consumes `n + 1` |
| Decoder.DecodeNumberAt | src/decoder.ts:16-50 | a number read succeeds exactly when the width remains; it consumes the width and yields `decodeNumberType` of those bytes |
| Decoder.DecodeBoolAt | src/decoder.ts:12-14 | a bool read consumes one byte and yields true exactly for the byte 1 |
| Decoder.DecodeAtBounds | src/decoder.ts:125-173 | every successful read consumes at least one byte and stays inside the buffer |
| Decoder.DecodeItemsBounds | src/decoder.ts:70-74 | the array loop returns exactly the announced number of items |
| Decoder.DecodeFieldsBounds | src/decoder.ts:89-96 | the struct loop returns one entry per schema property, with that property's key, in schema order |
| Decoder.DecodeEntriesBounds | src/decoder.ts:112-120 | the map loop returns exactly the announced number of pairs, at least two bytes each |
| DecodeLayout.RunChain | src/decoder.ts:70-74 | a loop of `n` reads, each starting where the last ended, succeeds exactly when all `n` reads along that chain succeed; read `j` happens at the start plus the first `j` sizes, and the loop consumes the sum of all the sizes |
| DecodeLayout.ItemsLayout | src/decoder.ts:68-76 | the array loop succeeds exactly when its `n` successive item reads do; item `j` is decoded with the item schema at the start plus the sizes of the items before it, and the loop ends at the start plus all their sizes |
| DecodeLayout.FieldsLayout | src/decoder.ts:87-98 | the struct loop succeeds exactly when every property's read does; property `j` is decoded with its own schema at the start plus the sizes of the properties before it and carries its own key, and the loop ends at the start plus all their sizes |
| DecodeLayout.EntriesLayout | src/decoder.ts:110-122 | the map loop succeeds exactly when its `n` successive pair reads do; pair `j` (a string key, then a value) is read at the start plus the sizes of the pairs before it, and the loop ends at the start plus all their sizes |
| DecodeLayout.DecodeArrayLayout | src/decoder.ts:59-77 | a leading 0 is `[]` in one byte; after a count byte `n`, the array decodes exactly when the `n` item reads succeed, item `j` is read at `off + 1 + cs[0] + … + cs[j-1]`, and the array takes `1 + cs[0] + … + cs[n-1]` bytes |
| DecodeLayout.DecodeStructLayout | src/decoder.ts:79-99 | a leading 0 is the empty object in one byte; after any other byte, the object decodes exactly when every property read succeeds, property `j` is read with its own schema at `off + 1 + cs[0] + … + cs[j-1]`, the object is assigned from those entries in schema order, and it takes 1 plus all the sizes |
| DecodeLayout.DecodeMapLayout | src/decoder.ts:101-123 | a leading 0 is the empty object in one byte; after a count byte `n`, the object decodes exactly when the `n` pair reads succeed, pair `j` is read at `off + 1 + cs[0] + … + cs[j-1]`, the object is assigned from those pairs in wire order, and it takes 1 plus all the sizes |
| RoundTrip.StringRoundTrip | src/decoder.ts:52-57 | a string of at most 255 bytes, encoded anywhere in a buffer, decodes back with its length plus one consumed |
| RoundTrip.BoolRoundTrip | src/decoder.ts:12-14 | an encoded bool, or an absent one, decodes to its value (absent as false) in one byte |
| RoundTrip.NumberAtRoundTrip | src/decoder.ts:16-50 | an encoded number decodes to `Recovered(k, n)`, or 0 when absent, consuming the width |
| RoundTrip.StringAtRoundTrip | src/decoder.ts:52-57 | an encoded string decodes back, and an absent one as the empty string |
| RoundTrip.ArrayRoundTrip | src/decoder.ts:59-77 | an encoded array decodes to the canonical form of its items, consuming the whole encoding |
| RoundTrip.StructRoundTrip | src/decoder.ts:79-99 | an encoded struct decodes to the object assigned from the schema's properties, consuming the whole encoding |
| RoundTrip.MapRoundTrip | src/decoder.ts:101-123 | an encoded map decodes to the object assigned from its pairs in order, consuming the whole encoding |
| RoundTrip.ItemsRoundTrip | src/decoder.ts:70-74 | the encoded items decode back in order, consuming exactly their bytes |
| RoundTrip.FieldsRoundTrip | src/decoder.ts:89-96 | the encoded properties decode back in schema order, consuming exactly their bytes |
| RoundTrip.PairRoundTrip | src/decoder.ts:113-117 | an encoded key/value pair decodes back to the key and the value's canonical form |
| RoundTrip.EntriesRoundTrip | src/decoder.ts:112-120 | the encoded pairs decode back in order, consuming exactly their bytes |
| RoundTrip.RoundTripAt | src/decoder.ts:125-173 | a buffer holding an encoding at any offset decodes there to the canonical form, whatever bytes surround it |
| RoundTrip.GeneralRoundTrip | src/encoder.ts:163-197 | `decode(encode(v, s), s)` is the canonical form of `v` with the whole length, for every encodable value whose counts fit a byte |
| Exact.FaithfulCanon | src/decoder.ts:125-173 | a faithful value encodes, its counts fit, and it is its own canonical form |
| Exact.ExactRoundTrip | src/encoder.ts:163-197 | `decode(encode(v, s), s)` gives back `v` itself and the whole length, for every faithful value |
| Exact.ExactRoundTripWithTrailing | src/index.ts:12-14 | the exact round trip holds with any bytes after the encoding |
| Frame.StringFrame | src/decoder.ts:52-57 | a string read depends only on the length byte and the bytes it announces |
| Frame.DecodeAtFrame | src/decoder.ts:125-173 | a successful decode gives the same value and length on any buffer holding the same consumed bytes at any offset |
| Frame.DecodeIgnoresTrailingBytes | src/decoder.ts:125-173 | bytes after the decoded value change nothing |
| Frame.DecodeReadsOnlyConsumed | src/decoder.ts:125-173 | the consumed prefix alone decodes to the same value and length |
| Frame.DecodeAtIsSlice | src/decoder.ts:71 | decoding at an offset equals decoding `data.slice(offset)`, failures included |
| ObjectCodec.StructEncodingByLookup | src/encoder.ts:136-140 | two objects that give the same value for each schema key encode alike under a struct schema |
| ObjectCodec.ExtraKeyIgnored | src/encoder.ts:136-140 | a key outside the schema adds nothing to a struct's encoding |
| ObjectCodec.MissingKeyIsAbsent | src/encoder.ts:139 | a schema key missing from the object encodes exactly as an explicitly undefined value |
| ObjectCodec.StructLeadingByteIgnored | src/decoder.ts:84-87 | the struct decoder gives the same result for every non-zero leading byte |
| ObjectCodec.DecodedStructKeys | src/decoder.ts:79-99 | a decoded struct is empty after a leading 0, and otherwise holds each schema key once and no other key |
| ObjectCodec.EncodeIgnoresMapKey | src/encoder.ts:145-161 | changing the map schema's `key` field never changes the encoding |
| ObjectCodec.DecodeIgnoresMapKey | src/decoder.ts:101-123 | changing the map schema's `key` field never changes the decoding |
| ObjectCodec.MapLastWins | src/decoder.ts:101-123 | a decoded map counts the bytes of every pair, holds each key once, and gives a repeated key its last value |
| Quirks.AbsentEncoding | src/encoder.ts:34-161 | undefined encodes under every node: as `[0]`, or for a number as the width's count of zero bytes |
| Quirks.AbsentLikeEmpty | src/encoder.ts:100-161 | an absent string, array or map encodes exactly as the empty one |
| Quirks.AbsentDecodesEmpty | src/decoder.ts:52-123 | the encoding of an absent value decodes to false, 0, `""`, `[]` or the empty object |
| Quirks.CountBytes | src/encoder.ts:105-153 | each prefix byte is the length or count mod 256; a struct announces its schema's property count |
| Quirks.LongStringReadsEmpty | src/encoder.ts:105 | a 256-byte string is announced as length 0, takes 257 bytes, and reads back as `""` after one byte |
| Quirks.LongArrayReadsEmpty | src/encoder.ts:121 | an array of 256 items is announced as count 0 and reads back as `[]` after one byte |
| Vectors.UnsignedVectors | tests/encoder.test.ts:7-32 | 0x34, 0x1234 and 0x12345678 as uint8/16/32 give their big-endian bytes, and those bytes decode back |
| Vectors.SignedVectors | tests/encoder.test.ts:34-68 | 63, -63, -1000 and -12345678 as int8, int8, int16 and int32 give `[0x3f]`, `[0xbf]`, `[0x83, 0xe8]` and `[0x80, 0xbc, 0x61, 0x4e]` |
| Vectors.Int8DecodeVectors | tests/decoder.test.ts:34-50 | `[0x3f]` and `[0xbf]` decode as int8 to 63 and -63 |
| Vectors.WideSignedDecodeVectors | tests/decoder.test.ts:52-68 | `[0x83, 0xe8]` decodes as int16 to -1000, and `[0x80, 0xbc, 0x61, 0x4e]` as int32 to -12345678 |
| Vectors.OutOfRangeVector | tests/encoder.test.ts:70-76 | 2^32 under an int16 schema is rejected as out of range |
| Vectors.StringAndBoolVectors | tests/encoder.test.ts:80-117 | `"hello world"` encodes as `[11]` and its bytes, `""` as `[0]`, true and false as `[1]` and `[0]`, and each decodes back |
| Vectors.UInt8ArrayVector | tests/encoder.test.ts:121-127 | `[1, 2, 3]` as a uint8 array gives `[3, 1, 2, 3]` |
| Vectors.UInt16ArrayVector | tests/encoder.test.ts:130-136 | `[1, 2, 3]` as a uint16 array gives `[3, 0, 1, 0, 2, 0, 3]` |
| Vectors.StringArrayVector | tests/encoder.test.ts:139-145 | `["hello", "world"]` gives `[2, 5, ...hello, 5, ...world]` |
| Vectors.NestedArrayVector | tests/encoder.test.ts:148-154 | three uint8 pairs nest their own counts, as in `[3, 2, 1, 2, 2, 3, 4, 2, 5, 6]` |
| Vectors.UInt8ArrayDecodeVector | tests/decoder.test.ts:112-118 | `[3, 1, 2, 3]` decodes to `[1, 2, 3]`, consuming 4 bytes |
| Vectors.UInt16ArrayDecodeVector | tests/decoder.test.ts:121-127 | `[3, 0, 1, 0, 2, 0, 3]` decodes to `[1, 2, 3]`, consuming 7 bytes |
| Vectors.StringArrayDecodeVector | tests/decoder.test.ts:130-136 | the two-string buffer decodes to `["hello", "world"]`, consuming 13 bytes |
| Vectors.StructVector | tests/encoder.test.ts:160-166 | `{a: 1, b: 2, c: 3}` under the three-uint8 struct gives `[3, 1, 2, 3]` |
| Vectors.StructDecodeVector | tests/decoder.test.ts:141-154 | `[3, 1, 2, 3]` decodes to `{a: 1, b: 2, c: 3}`, consuming 4 bytes |
| Vectors.MapVector | tests/encoder.test.ts:171-181 | `{a, b, c}` with uint8 values gives the count, then each one-byte key as a string followed by its value |
| Vectors.MapDecodeVector | tests/decoder.test.ts:218-244 | `[3, 1, 0x61, 1, 1, 0x62, 2, 1, 0x63, 3]` decodes as an int8 map to `{a: 1, b: 2, c: 3}`, consuming 10 bytes |
| Vectors.LastAssignmentWins | src/decoder.ts:119 | assigning `a` twice leaves one entry, holding the second value |
| Vectors.RepeatedKeyVector | src/decoder.ts:112-122 | a map buffer that repeats the key `a` decodes to `{a: 2}` but still consumes all 7 bytes |
| Vectors.MissingFieldVector | src/encoder.ts:139 | a derived vector: the object `{a: "hello"}` under a struct of two strings `a` and `b` writes `0` in the place of the missing `b` |

## Left out

- src/index.ts: the `Encoder` class only forwards to `encode` and `decode`. Its `decode` drops the consumed count, which is `Decode(...).value.0` here.
- src/errors.ts and the "unknown type" branches: the schema datatype is closed, so these branches do not exist in the model.
- UTF-8 transcoding: strings and keys are their UTF-8 bytes (`Bytes`). `Buffer.from(s, "utf8")` and `toString("utf8")` are not modelled.
- `Buffer` mechanics: allocation, `slice` and `concat` copying. The decoder uses one buffer and an offset instead of slices, and `Frame.DecodeAtIsSlice` shows the two agree.
- Reads past the end of the buffer: the source reads `undefined` there, which shifts and ors turn into 0, and a short slice. The model returns `None` as soon as the bytes a read needs are missing.
- JavaScript coercion of ill-typed values: in the source, a string under a number schema, say, is coerced. The model rejects every shape mismatch with `ShapeMismatch`; the `Encoder.EncodeSucceeds` line below says where the source coerces and where it throws. Only absent values (undefined) follow the source: absent numbers and bools encode as zero bytes.
- Non-integer numbers, NaN and `-0`: values are mathematical integers.
- The prototype chain: objects are association lists of their own keys only. In the source, `data[key]` also finds names inherited from `Object.prototype` (`constructor`, `toString`, `valueOf`, `hasOwnProperty`, …), and `res["__proto__"] = item` creates no own key (it replaces the prototype, or does nothing for a primitive). The model treats all these names as ordinary keys, so the lines below hold in the source only for the other names.
- Objects.Get, Objects.GetFirst, ObjectCodec.MissingKeyIsAbsent: a missing key reads as undefined only when its name is not inherited from `Object.prototype`; a struct property named `constructor`, say, reads a function in the source, where `encodeBool` writes 1 and `encodeString` throws.
- Objects.Put, Objects.PutGet, Objects.PutShape, Objects.PutKeys, Objects.ToRecord, Objects.ToRecordKeys, Objects.ToRecordLastWins, ObjectCodec.DecodedStructKeys, ObjectCodec.MapLastWins: an assignment creates or updates an own key only when the key is not `__proto__`.
- RoundTrip.StructRoundTrip, RoundTrip.MapRoundTrip, RoundTrip.GeneralRoundTrip, Exact.ExactRoundTrip: struct schema keys and map keys named as above follow the model's objects, not the source's, so the round trips are promised only for objects without such keys.
- The engine's key-enumeration order for integer-like keys: objects are ordered association lists, and their order is the enumeration order.
- tests/mock.ts and the larger struct tests: they exercise the same rules as the vectors that are modelled.
- Encoder.EncodeSucceeds: success also requires every value to have its node's shape, and the model fails every mismatch with `ShapeMismatch`. The source does different things depending on the node:
  - A falsy value (`0`, `false`, `""`, `null`) under a string, array, struct or map node encodes as `[0]`, as an absent one does.
  - Under a bool, number, struct or map node, it coerces a mismatched value and carries on.
  - A truthy value that is not a string under a string node reaches `Buffer.from(data, "utf8")` at src/encoder.ts:104. That throws for a number, `true` or a plain object, and copies an array or a `Buffer` as bytes.
  - A truthy value under an array node reaches `for (const item of data)` at src/encoder.ts:123. That throws for a value that is not iterable (a number, `true`, a plain object), and walks a string's characters as items.
- Vectors.NestedArrayVector and Vectors.MapVector: stated for any byte in the places where the tests put 1 to 6 and 1 to 3. The tests' values are instances.
