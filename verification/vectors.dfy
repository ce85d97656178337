/**
  * Concrete byte vectors from the repository's encoder and decoder tests, stated
  * against the model: each lemma fixes a schema, a value and the exact bytes. A few
  * are stated for any byte in the places where the test puts a small number, which
  * includes the test's own values, and one is derived from the encoder's rules.
  */
module Vectors {
  import opened Utils
  import opened Wrappers
  import opened Types
  import opened Objects
  import opened Numbers
  import opened Encoder
  import opened Decoder

  /** The UTF-8 bytes of `"hello"`, `"world"` and `"hello world"`. */
  const Hello: Bytes := [0x68, 0x65, 0x6c, 0x6c, 0x6f]
  const World: Bytes := [0x77, 0x6f, 0x72, 0x6c, 0x64]
  const HelloWorld: Bytes := Hello + [0x20] + World

  /** The one-letter keys `a`, `b` and `c`. */
  const KeyA: Bytes := [0x61]
  const KeyB: Bytes := [0x62]
  const KeyC: Bytes := [0x63]

  /** The struct schema `{a: uint8, b: uint8, c: uint8}`. */
  const AbcStruct: Schema :=
    Struct([Property(KeyA, Number(UInt8)), Property(KeyB, Number(UInt8)), Property(KeyC, Number(UInt8))])

  /** The entries `a: 1, b: 2, c: 3`. */
  const Abc: seq<Entry> := [Entry(KeyA, Integer(1)), Entry(KeyB, Integer(2)), Entry(KeyC, Integer(3))]

  lemma AbcDistinct()
    ensures DistinctKeys(Abc)
  {
    KeysDiffer();
  }

  /** A byte-sized number is written as itself in a uint8 and after a zero byte in a uint16. */
  lemma SmallNumber(n: byte)
    ensures Encode(Integer(n), Number(UInt8)) == Success([n])
    ensures Encode(Integer(n), Number(UInt16)) == Success([0, n])
  {
    assert ToBigEndian(n, 1) == [n];
    assert ToBigEndian(n, 2) == [0, n];
  }

  /** The three one-letter keys differ. */
  lemma KeysDiffer()
    ensures KeyA != KeyB && KeyA != KeyC && KeyB != KeyC
  {
    assert KeyA[0] != KeyB[0] && KeyA[0] != KeyC[0] && KeyB[0] != KeyC[0];
  }

  /** Unsigned numbers are written big-endian in 1, 2 or 4 bytes. */
  lemma UnsignedVectors()
    ensures Encode(Integer(0x34), Number(UInt8)) == Success([0x34])
    ensures Encode(Integer(0x1234), Number(UInt16)) == Success([0x12, 0x34])
    ensures Encode(Integer(0x1234_5678), Number(UInt32)) == Success([0x12, 0x34, 0x56, 0x78])
    ensures Decode([0x34], Number(UInt8)) == Some((Integer(0x34), 1))
    ensures Decode([0x12, 0x34], Number(UInt16)) == Some((Integer(0x1234), 2))
    ensures Decode([0x12, 0x34, 0x56, 0x78], Number(UInt32)) == Some((Integer(0x1234_5678), 4))
  {
    SmallNumber(0x34);
    assert ToBigEndian(0x12, 1) == [0x12];
    assert ToBigEndian(0x1234, 2) == [0x12, 0x34];
    assert ToBigEndian(0x123456, 3) == [0x12, 0x34, 0x56];
    assert ToBigEndian(0x1234_5678, 4) == [0x12, 0x34, 0x56, 0x78];
  }

  /** Signed numbers carry the sign in the top bit and the magnitude below it. */
  lemma SignedVectors()
    ensures Encode(Integer(63), Number(Int8)) == Success([0x3f])
    ensures Encode(Integer(-63), Number(Int8)) == Success([0xbf])
    ensures Encode(Integer(-1000), Number(Int16)) == Success([0x83, 0xe8])
    ensures Encode(Integer(-12345678), Number(Int32)) == Success([0x80, 0xbc, 0x61, 0x4e])
  {
    assert ToBigEndian(0x3f, 1) == [0x3f];
    assert Pattern(Int8, -63) == 0xbf;
    assert ToBigEndian(0xbf, 1) == [0xbf];
    assert Pattern(Int16, -1000) == 0x83e8;
    assert ToBigEndian(0x83, 1) == [0x83];
    assert ToBigEndian(0x83e8, 2) == [0x83, 0xe8];
    assert Pattern(Int32, -12345678) == 0x80bc_614e;
    assert ToBigEndian(0x80, 1) == [0x80];
    assert ToBigEndian(0x80bc, 2) == [0x80, 0xbc];
    assert ToBigEndian(0x80bc61, 3) == [0x80, 0xbc, 0x61];
    assert ToBigEndian(0x80bc_614e, 4) == [0x80, 0xbc, 0x61, 0x4e];
  }

  /** The decoder reads the same int8 values back. */
  lemma Int8DecodeVectors()
    ensures Decode([0x3f], Number(Int8)) == Some((Integer(63), 1))
    ensures Decode([0xbf], Number(Int8)) == Some((Integer(-63), 1))
  {
    assert 0xbf / 0x80 == 1 && 0xbf % 0x80 == 63;
  }

  /** The decoder reads the same int16 and int32 values back. */
  lemma WideSignedDecodeVectors()
    ensures Decode([0x83, 0xe8], Number(Int16)) == Some((Integer(-1000), 2))
    ensures Decode([0x80, 0xbc, 0x61, 0x4e], Number(Int32)) == Some((Integer(-12345678), 4))
  {
    assert ReadBE([0x83, 0xe8], 0, 2) == 0x83e8;
    assert 0x83e8 / 0x8000 == 1 && 0x83e8 % 0x8000 == 1000;
    assert ReadBE([0x80, 0xbc, 0x61, 0x4e], 0, 4) == 0x80bc_614e;
    assert 0x80bc_614e / 0x8000_0000 == 1 && 0x80bc_614e % 0x8000_0000 == 12345678;
  }

  /** `2^32` does not fit an int16, and the failure names the kind and the value. */
  lemma OutOfRangeVector()
    ensures Encode(Integer(0x1_0000_0000), Number(Int16)) == Failure(OutOfRange(Int16, 0x1_0000_0000))
  {
  }

  /** Strings are a length byte and the bytes; booleans are one byte. */
  lemma StringAndBoolVectors()
    ensures Encode(Text(HelloWorld), String) == Success([11] + HelloWorld)
    ensures Encode(Text([]), String) == Success([0])
    ensures Encode(Boolean(true), Bool) == Success([1])
    ensures Encode(Boolean(false), Bool) == Success([0])
    ensures Decode([11] + HelloWorld, String) == Some((Text(HelloWorld), 12))
    ensures Decode([0], String) == Some((Text([]), 1))
    ensures Decode([1], Bool) == Some((Boolean(true), 1))
    ensures Decode([0], Bool) == Some((Boolean(false), 1))
  {
    ReadBytesSlice([11] + HelloWorld, 1, 11);
    assert ([11] + HelloWorld)[1..12] == HelloWorld;
  }

  /*
    * Building blocks: one step of each encoding and decoding loop on concrete pieces,
    * so that each vector below is a short chain of steps.
    */

  lemma ItemsCons(vs: seq<Value>, t: Schema, h: Bytes, r: Bytes, out: Bytes)
    requires |vs| > 0 && Encode(vs[0], t) == Success(h) && EncodeItems(vs[1..], t) == Success(r)
    requires out == h + r
    ensures EncodeItems(vs, t) == Success(out)
  {
  }

  lemma FieldsCons(es: seq<Entry>, s: Schema, i: nat, h: Bytes, r: Bytes, out: Bytes)
    requires s.Struct? && i < |s.properties|
    requires Encode(Get(es, s.properties[i].key), s.properties[i].schema) == Success(h)
    requires EncodeFields(es, s, i + 1) == Success(r)
    requires out == h + r
    ensures EncodeFields(es, s, i) == Success(out)
  {
  }

  lemma EntriesCons(es: seq<Entry>, t: Schema, h: Bytes, r: Bytes, out: Bytes)
    requires |es| > 0 && 0 < |es[0].key| < 0x100
    requires Encode(es[0].value, t) == Success(h) && EncodeEntries(es[1..], t) == Success(r)
    requires out == [|es[0].key|] + es[0].key + h + r
    ensures EncodeEntries(es, t) == Success(out)
  {
    assert EncodePair(es[0], t) == Success([|es[0].key|] + es[0].key + h);
  }

  lemma ArrayOf(vs: seq<Value>, t: Schema, body: Bytes, out: Bytes)
    requires |vs| < 0x100 && EncodeItems(vs, t) == Success(body) && out == [|vs|] + body
    ensures Encode(List(vs), Array(t)) == Success(out)
  {
    assert |vs| % 0x100 == |vs|;
    assert Append([|vs|], body) == out;
  }

  lemma StructOf(es: seq<Entry>, s: Schema, body: Bytes, out: Bytes)
    requires s.Struct? && |s.properties| < 0x100
    requires EncodeFields(es, s, 0) == Success(body) && out == [|s.properties|] + body
    ensures Encode(Record(es), s) == Success(out)
  {
    assert |s.properties| % 0x100 == |s.properties|;
    assert Append([|s.properties|], body) == out;
  }

  lemma MapOf(es: seq<Entry>, k: Bytes, t: Schema, body: Bytes, out: Bytes)
    requires |es| < 0x100 && EncodeEntries(es, t) == Success(body) && out == [|es|] + body
    ensures Encode(Record(es), Map(k, t)) == Success(out)
  {
    assert |es| % 0x100 == |es|;
    assert Append([|es|], body) == out;
  }

  lemma ItemsRead(buf: Bytes, off: nat, n: nat, t: Schema, v: Value, c: nat, vs: seq<Value>, c': nat,
                  all: seq<Value>, total: nat)
    requires n > 0 && DecodeAt(buf, off, t) == Some((v, c))
    requires DecodeItems(buf, off + c, n - 1, t) == Some((vs, c'))
    requires all == [v] + vs && total == c + c'
    ensures DecodeItems(buf, off, n, t) == Some((all, total))
  {
  }

  lemma FieldsRead(buf: Bytes, off: nat, s: Schema, i: nat, v: Value, c: nat, es: seq<Entry>, c': nat,
                   all: seq<Entry>, total: nat)
    requires s.Struct? && i < |s.properties|
    requires DecodeAt(buf, off, s.properties[i].schema) == Some((v, c))
    requires DecodeFields(buf, off + c, s, i + 1) == Some((es, c'))
    requires all == [Entry(s.properties[i].key, v)] + es && total == c + c'
    ensures DecodeFields(buf, off, s, i) == Some((all, total))
  {
  }

  lemma EntriesRead(buf: Bytes, off: nat, n: nat, t: Schema, e: Entry, c: nat, es: seq<Entry>, c': nat,
                    all: seq<Entry>, total: nat)
    requires n > 0 && DecodePair(buf, off, t) == Some((e, c))
    requires DecodeEntries(buf, off + c, n - 1, t) == Some((es, c'))
    requires all == [e] + es && total == c + c'
    ensures DecodeEntries(buf, off, n, t) == Some((all, total))
  {
  }

  /** A uint8, a uint16 or a non-negative int8 read at `off`. */
  lemma ReadSmall(buf: Bytes, off: nat)
    requires off < |buf|
    ensures DecodeAt(buf, off, Number(UInt8)) == Some((Integer(buf[off]), 1))
    ensures buf[off] < 0x80 ==> DecodeAt(buf, off, Number(Int8)) == Some((Integer(buf[off]), 1))
    ensures off + 1 < |buf| ==>
      DecodeAt(buf, off, Number(UInt16)) == Some((Integer(buf[off] as int * 0x100 + buf[off + 1] as int), 2))
  {
    assert ReadBE(buf, off, 1) == buf[off];
    if off + 1 < |buf| {
      assert ReadBE(buf, off, 2) == buf[off] as int * 0x100 + buf[off + 1] as int;
    }
  }

  /** A string of `n` bytes read at `off`. */
  lemma ReadText(buf: Bytes, off: nat, t: Bytes)
    requires off + 1 + |t| <= |buf| && buf[off] == |t| && buf[off + 1..off + 1 + |t|] == t
    ensures DecodeAt(buf, off, String) == Some((Text(t), 1 + |t|))
  {
    ReadBytesSlice(buf, off + 1, |t|);
  }

  /** A key-value pair read at `off`, the key being `k` and the value read from right after it. */
  lemma ReadPair(buf: Bytes, off: nat, k: Bytes, t: Schema, v: Value, c: nat)
    requires off + 1 + |k| <= |buf| && buf[off] == |k| && buf[off + 1..off + 1 + |k|] == k
    requires DecodeAt(buf, off + 1 + |k|, t) == Some((v, c))
    ensures DecodePair(buf, off, t) == Some((Entry(k, v), 1 + |k| + c))
  {
    ReadBytesSlice(buf, off + 1, |k|);
  }

  /** `[1, 2, 3]` as uint8 is `[3, 1, 2, 3]`. */
  lemma UInt8ArrayVector()
    ensures Encode(List([Integer(1), Integer(2), Integer(3)]), Array(Number(UInt8))) == Success([3, 1, 2, 3])
  {
    SmallNumber(1);
    SmallNumber(2);
    SmallNumber(3);
    var u8 := Number(UInt8);
    var vs := [Integer(1), Integer(2), Integer(3)];
    assert vs[1..][1..] == vs[2..] && vs[2..][1..] == [];
    ItemsCons(vs[2..], u8, [3], [], [3]);
    ItemsCons(vs[1..], u8, [2], [3], [2, 3]);
    ItemsCons(vs, u8, [1], [2, 3], [1, 2, 3]);
    ArrayOf(vs, u8, [1, 2, 3], [3, 1, 2, 3]);
  }

  /** `[1, 2, 3]` as uint16 is `[3, 0, 1, 0, 2, 0, 3]`. */
  lemma UInt16ArrayVector()
    ensures Encode(List([Integer(1), Integer(2), Integer(3)]), Array(Number(UInt16))) ==
      Success([3, 0, 1, 0, 2, 0, 3])
  {
    SmallNumber(1);
    SmallNumber(2);
    SmallNumber(3);
    var u16 := Number(UInt16);
    var vs := [Integer(1), Integer(2), Integer(3)];
    assert vs[1..][1..] == vs[2..] && vs[2..][1..] == [];
    ItemsCons(vs[2..], u16, [0, 3], [], [0, 3]);
    ItemsCons(vs[1..], u16, [0, 2], [0, 3], [0, 2, 0, 3]);
    ItemsCons(vs, u16, [0, 1], [0, 2, 0, 3], [0, 1, 0, 2, 0, 3]);
    ArrayOf(vs, u16, [0, 1, 0, 2, 0, 3], [3, 0, 1, 0, 2, 0, 3]);
  }

  /** `["hello", "world"]` is the count 2, then each string with its length byte. */
  lemma StringArrayVector()
    ensures Encode(List([Text(Hello), Text(World)]), Array(String)) == Success([2, 5] + Hello + [5] + World)
  {
    var vs := [Text(Hello), Text(World)];
    ItemsCons(vs[1..], String, [5] + World, [], [5] + World);
    ItemsCons(vs, String, [5] + Hello, [5] + World, [5] + Hello + [5] + World);
    ArrayOf(vs, String, [5] + Hello + [5] + World, [2, 5] + Hello + [5] + World);
  }

  /** A pair `[a, b]` of uint8 is `[2, a, b]`. */
  lemma PairArray(a: byte, b: byte)
    ensures Encode(List([Integer(a), Integer(b)]), Array(Number(UInt8))) == Success([2, a, b])
  {
    var u8 := Number(UInt8);
    SmallNumber(a);
    SmallNumber(b);
    var vs := [Integer(a), Integer(b)];
    ItemsCons(vs[1..], u8, [b], [], [b]);
    ItemsCons(vs, u8, [a], [b], [a, b]);
    ArrayOf(vs, u8, [a, b], [2, a, b]);
  }

  /** Three pairs of uint8 as the items of an array of arrays, each with its own count. */
  lemma NestedItems(a: byte, b: byte, c: byte, d: byte, e: byte, f: byte)
    ensures EncodeItems([List([Integer(a), Integer(b)]), List([Integer(c), Integer(d)]), List([Integer(e), Integer(f)])],
                        Array(Number(UInt8))) ==
      Success([2, a, b, 2, c, d, 2, e, f])
  {
    var inner := Array(Number(UInt8));
    PairArray(a, b);
    PairArray(c, d);
    PairArray(e, f);
    var vs := [List([Integer(a), Integer(b)]), List([Integer(c), Integer(d)]), List([Integer(e), Integer(f)])];
    assert vs[1..][1..] == vs[2..] && vs[2..][1..] == [];
    ItemsCons(vs[2..], inner, [2, e, f], [], [2, e, f]);
    ItemsCons(vs[1..], inner, [2, c, d], [2, e, f], [2, c, d, 2, e, f]);
    ItemsCons(vs, inner, [2, a, b], [2, c, d, 2, e, f], [2, a, b, 2, c, d, 2, e, f]);
  }

  /**
    * An array of three uint8 pairs, such as `[[1, 2], [3, 4], [5, 6]]`, nests the inner
    * arrays' own counts: `[3, 2, 1, 2, 2, 3, 4, 2, 5, 6]`.
    */
  lemma NestedArrayVector(a: byte, b: byte, c: byte, d: byte, e: byte, f: byte)
    ensures Encode(List([List([Integer(a), Integer(b)]), List([Integer(c), Integer(d)]), List([Integer(e), Integer(f)])]),
                   Array(Array(Number(UInt8)))) ==
      Success([3, 2, a, b, 2, c, d, 2, e, f])
  {
    NestedItems(a, b, c, d, e, f);
    ArrayOf([List([Integer(a), Integer(b)]), List([Integer(c), Integer(d)]), List([Integer(e), Integer(f)])],
            Array(Number(UInt8)), [2, a, b, 2, c, d, 2, e, f], [3, 2, a, b, 2, c, d, 2, e, f]);
  }

  /** The decoder reads `[3, 1, 2, 3]` back as `[1, 2, 3]`. */
  lemma UInt8ArrayDecodeVector(buf: Bytes)
    requires buf == [3, 1, 2, 3]
    ensures Decode(buf, Array(Number(UInt8))) == Some((List([Integer(1), Integer(2), Integer(3)]), 4))
  {
    var u8 := Number(UInt8);
    var vs := [Integer(1), Integer(2), Integer(3)];
    ReadSmall(buf, 1);
    ReadSmall(buf, 2);
    ReadSmall(buf, 3);
    ItemsRead(buf, 3, 1, u8, Integer(3), 1, [], 0, vs[2..], 1);
    ItemsRead(buf, 2, 2, u8, Integer(2), 1, vs[2..], 1, vs[1..], 2);
    ItemsRead(buf, 1, 3, u8, Integer(1), 1, vs[1..], 2, vs, 3);
    DecodeArrayStep(buf, 0, u8, vs, 3);
  }

  /** The decoder reads `[3, 0, 1, 0, 2, 0, 3]` back as `[1, 2, 3]`. */
  lemma UInt16ArrayDecodeVector(buf: Bytes)
    requires buf == [3, 0, 1, 0, 2, 0, 3]
    ensures Decode(buf, Array(Number(UInt16))) ==
      Some((List([Integer(1), Integer(2), Integer(3)]), 7))
  {
    var u16 := Number(UInt16);
    var vs := [Integer(1), Integer(2), Integer(3)];
    ReadSmall(buf, 1);
    ReadSmall(buf, 3);
    ReadSmall(buf, 5);
    ItemsRead(buf, 5, 1, u16, Integer(3), 2, [], 0, vs[2..], 2);
    ItemsRead(buf, 3, 2, u16, Integer(2), 2, vs[2..], 2, vs[1..], 4);
    ItemsRead(buf, 1, 3, u16, Integer(1), 2, vs[1..], 4, vs, 6);
    DecodeArrayStep(buf, 0, u16, vs, 6);
  }

  /** The decoder reads the string array back. */
  lemma StringArrayDecodeVector(buf: Bytes)
    requires buf == [2, 5] + Hello + [5] + World
    ensures Decode(buf, Array(String)) == Some((List([Text(Hello), Text(World)]), 13))
  {
    var vs := [Text(Hello), Text(World)];
    assert buf[2..7] == Hello && buf[8..13] == World;
    ReadText(buf, 1, Hello);
    ReadText(buf, 7, World);
    ItemsRead(buf, 7, 1, String, Text(World), 6, [], 0, vs[1..], 6);
    ItemsRead(buf, 1, 2, String, Text(Hello), 6, vs[1..], 6, vs, 12);
    DecodeArrayStep(buf, 0, String, vs, 12);
  }

  /** The fields of the struct vector: each schema key looked up, in schema order. */
  lemma StructFieldsEncodeVector()
    ensures EncodeFields(Abc, AbcStruct, 0) == Success([1, 2, 3])
  {
    AbcDistinct();
    GetDistinct(Abc, 0);
    GetDistinct(Abc, 1);
    GetDistinct(Abc, 2);
    SmallNumber(1);
    SmallNumber(2);
    SmallNumber(3);
    FieldsCons(Abc, AbcStruct, 2, [3], [], [3]);
    FieldsCons(Abc, AbcStruct, 1, [2], [3], [2, 3]);
    FieldsCons(Abc, AbcStruct, 0, [1], [2, 3], [1, 2, 3]);
  }

  /** `{a: 1, b: 2, c: 3}` is the property count, then each value in schema order. */
  lemma StructVector()
    ensures Encode(Record(Abc), AbcStruct) == Success([3, 1, 2, 3])
  {
    StructFieldsEncodeVector();
    StructOf(Abc, AbcStruct, [1, 2, 3], [3, 1, 2, 3]);
  }

  /** The three fields of the struct vector, read in schema order. */
  lemma StructFieldsVector(buf: Bytes)
    requires buf == [3, 1, 2, 3]
    ensures DecodeFields(buf, 1, AbcStruct, 0) == Some((Abc, 3))
  {
    ReadSmall(buf, 1);
    ReadSmall(buf, 2);
    ReadSmall(buf, 3);
    FieldsRead(buf, 3, AbcStruct, 2, Integer(3), 1, [], 0, Abc[2..], 1);
    FieldsRead(buf, 2, AbcStruct, 1, Integer(2), 1, Abc[2..], 1, Abc[1..], 2);
    FieldsRead(buf, 1, AbcStruct, 0, Integer(1), 1, Abc[1..], 2, Abc, 3);
  }

  /** The decoder reads `[3, 1, 2, 3]` back as `{a: 1, b: 2, c: 3}`. */
  lemma StructDecodeVector(buf: Bytes)
    requires buf == [3, 1, 2, 3]
    ensures Decode(buf, AbcStruct) == Some((Record(Abc), 4))
  {
    StructFieldsVector(buf);
    AbcDistinct();
    StructReadAs(buf, AbcStruct, Abc, 3);
  }

  /** The pairs `a: x, b: y, c: z` with uint8 values: each key as a string, then its value. */
  lemma MapEntriesEncode(x: byte, y: byte, z: byte)
    ensures EncodeEntries([Entry(KeyA, Integer(x)), Entry(KeyB, Integer(y)), Entry(KeyC, Integer(z))], Number(UInt8)) ==
      Success([1, 0x61, x, 1, 0x62, y, 1, 0x63, z])
  {
    var u8 := Number(UInt8);
    SmallNumber(x);
    SmallNumber(y);
    SmallNumber(z);
    var es := [Entry(KeyA, Integer(x)), Entry(KeyB, Integer(y)), Entry(KeyC, Integer(z))];
    assert es[1..][1..] == es[2..] && es[2..][1..] == [];
    EntriesCons(es[2..], u8, [z], [], [1, 0x63, z]);
    EntriesCons(es[1..], u8, [y], [1, 0x63, z], [1, 0x62, y, 1, 0x63, z]);
    EntriesCons(es, u8, [x], [1, 0x62, y, 1, 0x63, z], [1, 0x61, x, 1, 0x62, y, 1, 0x63, z]);
  }

  /**
    * A map is its entry count, then each key as a string followed by its value:
    * `{a: 1, b: 2, c: 3}` gives `[3, 1, 0x61, 1, 1, 0x62, 2, 1, 0x63, 3]`.
    */
  lemma MapVector(x: byte, y: byte, z: byte)
    ensures Encode(Record([Entry(KeyA, Integer(x)), Entry(KeyB, Integer(y)), Entry(KeyC, Integer(z))]),
                   Map([], Number(UInt8))) ==
      Success([3, 1, 0x61, x, 1, 0x62, y, 1, 0x63, z])
  {
    MapEntriesEncode(x, y, z);
    MapOf([Entry(KeyA, Integer(x)), Entry(KeyB, Integer(y)), Entry(KeyC, Integer(z))], [], Number(UInt8),
          [1, 0x61, x, 1, 0x62, y, 1, 0x63, z], [3, 1, 0x61, x, 1, 0x62, y, 1, 0x63, z]);
  }

  /** A pair with a one-byte key and a one-byte value, read as uint8 or (below 0x80) as int8. */
  lemma ReadBytePair(buf: Bytes, off: nat)
    requires off + 2 < |buf| && buf[off] == 1
    ensures DecodePair(buf, off, Number(UInt8)) == Some((Entry([buf[off + 1]], Integer(buf[off + 2])), 3))
    ensures buf[off + 2] < 0x80 ==>
      DecodePair(buf, off, Number(Int8)) == Some((Entry([buf[off + 1]], Integer(buf[off + 2])), 3))
  {
    assert buf[off + 1..off + 2] == [buf[off + 1]];
    ReadSmall(buf, off + 2);
    ReadPair(buf, off, [buf[off + 1]], Number(UInt8), Integer(buf[off + 2]), 1);
    if buf[off + 2] < 0x80 {
      ReadPair(buf, off, [buf[off + 1]], Number(Int8), Integer(buf[off + 2]), 1);
    }
  }

  /** A map read at 0 whose pairs have distinct keys, so the object is the pairs themselves. */
  lemma MapReadDistinct(buf: Bytes, s: Schema, es: seq<Entry>, c: nat)
    requires s.Map? && 0 < |buf| && buf[0] != 0
    requires DecodeEntries(buf, 1, buf[0], s.value) == Some((es, c)) && DistinctKeys(es)
    ensures Decode(buf, s) == Some((Record(es), 1 + c))
  {
    ToRecordDistinct(es);
    DecodeMapStep(buf, 0, s, es, c);
  }

  /** A map read at 0 whose pairs `es` build the object `r`. */
  lemma MapReadAs(buf: Bytes, s: Schema, es: seq<Entry>, c: nat, r: seq<Entry>)
    requires s.Map? && 0 < |buf| && buf[0] != 0
    requires DecodeEntries(buf, 1, buf[0], s.value) == Some((es, c)) && ToRecord(es) == r
    ensures Decode(buf, s) == Some((Record(r), 1 + c))
  {
    DecodeMapStep(buf, 0, s, es, c);
  }

  /** A struct read at 0 whose fields have distinct keys, so the object is the fields themselves. */
  lemma StructReadAs(buf: Bytes, s: Schema, es: seq<Entry>, c: nat)
    requires s.Struct? && 0 < |buf| && buf[0] != 0
    requires DecodeFields(buf, 1, s, 0) == Some((es, c)) && DistinctKeys(es)
    ensures Decode(buf, s) == Some((Record(es), 1 + c))
  {
    ToRecordDistinct(es);
    DecodeStructStep(buf, 0, s, es, c);
  }

  /** The three pairs of the map vector, read in order. */
  lemma MapEntriesVector(buf: Bytes)
    requires buf == [3, 1, 0x61, 1, 1, 0x62, 2, 1, 0x63, 3]
    ensures DecodeEntries(buf, 1, 3, Number(Int8)) == Some((Abc, 9))
  {
    var i8 := Number(Int8);
    ReadBytePair(buf, 1);
    ReadBytePair(buf, 4);
    ReadBytePair(buf, 7);
    EntriesRead(buf, 7, 1, i8, Abc[2], 3, [], 0, Abc[2..], 3);
    EntriesRead(buf, 4, 2, i8, Abc[1], 3, Abc[2..], 3, Abc[1..], 6);
    EntriesRead(buf, 1, 3, i8, Abc[0], 3, Abc[1..], 6, Abc, 9);
  }

  /** The decoder reads the map back, here with int8 values. */
  lemma MapDecodeVector(buf: Bytes)
    requires buf == [3, 1, 0x61, 1, 1, 0x62, 2, 1, 0x63, 3]
    ensures Decode(buf, Map([], Number(Int8))) == Some((Record(Abc), 10))
  {
    MapEntriesVector(buf);
    AbcDistinct();
    MapReadDistinct(buf, Map([], Number(Int8)), Abc, 9);
  }

  /** Assigning `a = 1` and then `a = 2` leaves the object `{a: 2}`. */
  lemma LastAssignmentWins()
    ensures ToRecord([Entry(KeyA, Integer(1)), Entry(KeyA, Integer(2))]) == [Entry(KeyA, Integer(2))]
  {
    var pairs := [Entry(KeyA, Integer(1)), Entry(KeyA, Integer(2))];
    var first := [Entry(KeyA, Integer(1))];
    assert Put([], KeyA, Integer(1)) == first;
    assert Find(first, KeyA, 0) == 0;
    assert Put(first, KeyA, Integer(2)) == [Entry(KeyA, Integer(2))];
    assert ToRecord(pairs) == Assign(first, pairs, 1);
    assert Assign(first, pairs, 1) == Assign([Entry(KeyA, Integer(2))], pairs, 2);
  }

  /** The two pairs of the repeated-key vector, read in order. */
  lemma RepeatedEntriesVector(buf: Bytes)
    requires buf == [2, 1, 0x61, 1, 1, 0x61, 2]
    ensures DecodeEntries(buf, 1, 2, Number(UInt8)) == Some(([Entry(KeyA, Integer(1)), Entry(KeyA, Integer(2))], 6))
  {
    var u8 := Number(UInt8);
    var pairs := [Entry(KeyA, Integer(1)), Entry(KeyA, Integer(2))];
    ReadBytePair(buf, 1);
    ReadBytePair(buf, 4);
    EntriesRead(buf, 4, 1, u8, pairs[1], 3, [], 0, pairs[1..], 3);
    EntriesRead(buf, 1, 2, u8, pairs[0], 3, pairs[1..], 3, pairs, 6);
  }

  /** A key that comes twice on the wire keeps the value of its last occurrence. */
  lemma RepeatedKeyVector(buf: Bytes)
    requires buf == [2, 1, 0x61, 1, 1, 0x61, 2]
    ensures Decode(buf, Map([], Number(UInt8))) == Some((Record([Entry(KeyA, Integer(2))]), 7))
  {
    RepeatedEntriesVector(buf);
    LastAssignmentWins();
    MapReadAs(buf, Map([], Number(UInt8)), [Entry(KeyA, Integer(1)), Entry(KeyA, Integer(2))], 6,
              [Entry(KeyA, Integer(2))]);
  }

  /**
    * A derived vector, not one of the tests' own: a struct whose object lacks a schema
    * key writes the single byte 0 for it.
    */
  lemma MissingFieldVector()
    ensures Encode(Record([Entry(KeyA, Text(Hello))]), Struct([Property(KeyA, String), Property(KeyB, String)])) ==
      Success([2, 5] + Hello + [0])
  {
    var s := Struct([Property(KeyA, String), Property(KeyB, String)]);
    var es := [Entry(KeyA, Text(Hello))];
    KeysDiffer();
    GetDistinct(es, 0);
    GetFirst(es, KeyB);
    assert !HasKey(es, KeyB);
    FieldsCons(es, s, 1, [0], [], [0]);
    FieldsCons(es, s, 0, [5] + Hello, [0], [5] + Hello + [0]);
    StructOf(es, s, [5] + Hello + [0], [2, 5] + Hello + [0]);
  }
}
