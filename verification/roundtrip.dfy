/**
  * Encoding followed by decoding. The general theorem covers every encodable value
  * whose lengths and counts fit their one-byte prefixes: decoding gives back the
  * value's canonical form (absent parts become empty or zero, struct keys outside
  * the schema disappear, repeated map keys collapse to the last value, and the two
  * lossy number cases come back as `Recovered` says) and consumes exactly the
  * encoding. The exact round trip for faithful values is a corollary.
  */
module RoundTrip {
  import opened Utils
  import opened Wrappers
  import opened Types
  import opened Objects
  import opened Numbers
  import opened Encoder
  import opened Decoder

  /** Every present string, array, struct and map has a length or count of at most 255. */
  predicate CountsFit(v: Value, s: Schema)
    decreases s, 2, 0
  {
    match s
    case Bool => true
    case Number(_) => true
    case String => v.Text? ==> |v.bytes| <= 0xFF
    case Array(t) => v.List? ==> |v.items| <= 0xFF && ItemsFit(v.items, t)
    case Struct(props) => v.Record? ==> |props| <= 0xFF && FieldsFit(v.entries, s, 0)
    case Map(_, t) => v.Record? ==> |v.entries| <= 0xFF && EntriesFit(v.entries, t)
  }

  predicate ItemsFit(vs: seq<Value>, t: Schema)
    decreases t, 3, |vs|
  {
    |vs| == 0 || (CountsFit(vs[0], t) && ItemsFit(vs[1..], t))
  }

  predicate FieldsFit(es: seq<Entry>, s: Schema, i: nat)
    requires s.Struct? && i <= |s.properties|
    decreases s, 1, |s.properties| - i
  {
    i == |s.properties| ||
    (CountsFit(Get(es, s.properties[i].key), s.properties[i].schema) && FieldsFit(es, s, i + 1))
  }

  /** A map pair whose key length fits a byte and whose value's counts fit. */
  predicate PairFits(e: Entry, t: Schema)
    decreases t, 3, 0
  {
    |e.key| <= 0xFF && CountsFit(e.value, t)
  }

  predicate EntriesFit(es: seq<Entry>, t: Schema)
    decreases t, 4, |es|
  {
    |es| == 0 || (PairFits(es[0], t) && EntriesFit(es[1..], t))
  }

  /** The value the decoder rebuilds from the encoding of `v` under `s`. */
  function Canon(v: Value, s: Schema): Value
    decreases s, 2, 0
  {
    match s
    case Bool => Boolean(v.Boolean? && v.b)
    case Number(k) => Integer(if v.Integer? then Recovered(k, v.n) else 0)
    case String => Text(if v.Text? then v.bytes else [])
    case Array(t) => List(if v.List? then CanonItems(v.items, t) else [])
    case Struct(_) => Record(if v.Record? then ToRecord(CanonFields(v.entries, s, 0)) else [])
    case Map(_, t) => Record(if v.Record? then ToRecord(CanonEntries(v.entries, t)) else [])
  }

  function CanonItems(vs: seq<Value>, t: Schema): seq<Value>
    decreases t, 3, |vs|
  {
    if |vs| == 0 then [] else [Canon(vs[0], t)] + CanonItems(vs[1..], t)
  }

  function CanonFields(es: seq<Entry>, s: Schema, i: nat): seq<Entry>
    requires s.Struct? && i <= |s.properties|
    decreases s, 1, |s.properties| - i
  {
    if i == |s.properties| then []
    else
      var p := s.properties[i];
      [Entry(p.key, Canon(Get(es, p.key), p.schema))] + CanonFields(es, s, i + 1)
  }

  function CanonPair(e: Entry, t: Schema): Entry
    decreases t, 3, 0
  {
    Entry(e.key, Canon(e.value, t))
  }

  function CanonEntries(es: seq<Entry>, t: Schema): seq<Entry>
    decreases t, 4, |es|
  {
    if |es| == 0 then [] else [CanonPair(es[0], t)] + CanonEntries(es[1..], t)
  }


  /** A string whose length fits a byte, encoded anywhere in a buffer, decodes back. */
  lemma StringRoundTrip(t: Bytes, buf: Bytes, off: nat)
    requires |t| <= 0xFF
    requires At(buf, off, EncodeString(t))
    ensures DecodeString(buf, off) == Some((t, |t| + 1))
  {
    EncodeStringLayout(t);
    AtSplit(buf, off, [|t|], t);
    assert buf[off + 0] == EncodeString(t)[0];
    ReadBytesAt(buf, off + 1, t);
  }

  /**
    * Round trip at any offset, with anything before and after: a buffer that holds
    * the encoding of `v` at `off` decodes there to `Canon(v, s)`, consuming exactly
    * the encoding's length.
    */
  lemma {:induction false} RoundTripAt(v: Value, s: Schema, buf: Bytes, off: nat)
    requires Encode(v, s).Success? && CountsFit(v, s)
    requires At(buf, off, Encode(v, s).value)
    ensures DecodeAt(buf, off, s) == Some((Canon(v, s), |Encode(v, s).value|))
    decreases s, 2, 1
  {
    match s
    case Bool => BoolRoundTrip(v, buf, off);
    case Number(k) => NumberAtRoundTrip(v, k, buf, off);
    case String => StringAtRoundTrip(v, buf, off);
    case Array(t) => ArrayRoundTrip(v, t, buf, off);
    case Struct(_) => StructRoundTrip(v, s, buf, off);
    case Map(_, _) => MapRoundTrip(v, s, buf, off);
  }

  lemma BoolRoundTrip(v: Value, buf: Bytes, off: nat)
    requires Encode(v, Bool).Success?
    requires At(buf, off, Encode(v, Bool).value)
    ensures DecodeAt(buf, off, Bool) == Some((Canon(v, Bool), |Encode(v, Bool).value|))
  {
    assert buf[off + 0] == Encode(v, Bool).value[0];
  }

  lemma NumberAtRoundTrip(v: Value, k: NumberKind, buf: Bytes, off: nat)
    requires Encode(v, Number(k)).Success?
    requires At(buf, off, Encode(v, Number(k)).value)
    ensures DecodeAt(buf, off, Number(k)) == Some((Canon(v, Number(k)), |Encode(v, Number(k)).value|))
  {
    var e := Encode(v, Number(k)).value;
    var n := if v.Integer? then v.n else 0;
    assert e == NumberBytes(k, n);
    NumberBytesLayout(k, n);
    NumberRoundTrip(k, n);
    ReadBEAt(buf, off, e);
  }

  lemma StringAtRoundTrip(v: Value, buf: Bytes, off: nat)
    requires Encode(v, String).Success? && CountsFit(v, String)
    requires At(buf, off, Encode(v, String).value)
    ensures DecodeAt(buf, off, String) == Some((Canon(v, String), |Encode(v, String).value|))
  {
    var t := if v.Text? then v.bytes else [];
    assert Encode(v, String).value == EncodeString(t);
    StringRoundTrip(t, buf, off);
  }

  lemma {:induction false} ArrayRoundTrip(v: Value, t: Schema, buf: Bytes, off: nat)
    requires Encode(v, Array(t)).Success? && CountsFit(v, Array(t))
    requires At(buf, off, Encode(v, Array(t)).value)
    ensures DecodeAt(buf, off, Array(t)) == Some((Canon(v, Array(t)), |Encode(v, Array(t)).value|))
    decreases Array(t), 2, 0
  {
    if v.List? && |v.items| > 0 {
      ArraySplit(v, t, buf, off);
      ItemsRoundTrip(v.items, |v.items|, t, buf, off + 1);
      ArrayJoin(v, t, buf, off, |EncodeItems(v.items, t).value|);
    } else {
      ArrayEmpty(v, t, buf, off);
    }
  }

  lemma ArraySplit(v: Value, t: Schema, buf: Bytes, off: nat)
    requires Encode(v, Array(t)).Success? && CountsFit(v, Array(t))
    requires At(buf, off, Encode(v, Array(t)).value)
    requires v.List? && |v.items| > 0
    ensures EncodeItems(v.items, t).Success? && ItemsFit(v.items, t)
    ensures At(buf, off + 1, EncodeItems(v.items, t).value)
    ensures off < |buf| && buf[off] as int == |v.items|
    ensures |Encode(v, Array(t)).value| == 1 + |EncodeItems(v.items, t).value|
  {
    var e := Encode(v, Array(t)).value;
    var body := EncodeItems(v.items, t).value;
    assert e == [|v.items|] + body;
    assert buf[off + 0] == e[0];
    AtSplit(buf, off, [|v.items|], body);
  }

  lemma ArrayJoin(v: Value, t: Schema, buf: Bytes, off: nat, c: nat)
    requires v.List? && Encode(v, Array(t)).Success?
    requires off < |buf| && buf[off] as int == |v.items| > 0
    requires DecodeItems(buf, off + 1, |v.items|, t) == Some((CanonItems(v.items, t), c))
    requires |Encode(v, Array(t)).value| == 1 + c
    ensures DecodeAt(buf, off, Array(t)) == Some((Canon(v, Array(t)), |Encode(v, Array(t)).value|))
  {
    DecodeArrayStep(buf, off, t, CanonItems(v.items, t), c);
  }

  lemma ArrayEmpty(v: Value, t: Schema, buf: Bytes, off: nat)
    requires Encode(v, Array(t)).Success?
    requires At(buf, off, Encode(v, Array(t)).value)
    requires !(v.List? && |v.items| > 0)
    ensures DecodeAt(buf, off, Array(t)) == Some((Canon(v, Array(t)), |Encode(v, Array(t)).value|))
  {
    assert buf[off + 0] == Encode(v, Array(t)).value[0] == 0;
  }

  lemma {:induction false} StructRoundTrip(v: Value, s: Schema, buf: Bytes, off: nat)
    requires s.Struct?
    requires Encode(v, s).Success? && CountsFit(v, s)
    requires At(buf, off, Encode(v, s).value)
    ensures DecodeAt(buf, off, s) == Some((Canon(v, s), |Encode(v, s).value|))
    decreases s, 2, 0
  {
    if v.Record? && |s.properties| > 0 {
      StructSplit(v, s, buf, off);
      FieldsRoundTrip(v.entries, s, 0, buf, off + 1);
      StructJoin(v, s, buf, off, |EncodeFields(v.entries, s, 0).value|);
    } else {
      StructEmpty(v, s, buf, off);
    }
  }

  lemma StructSplit(v: Value, s: Schema, buf: Bytes, off: nat)
    requires s.Struct?
    requires Encode(v, s).Success? && CountsFit(v, s)
    requires At(buf, off, Encode(v, s).value)
    requires v.Record? && |s.properties| > 0
    ensures EncodeFields(v.entries, s, 0).Success? && FieldsFit(v.entries, s, 0)
    ensures At(buf, off + 1, EncodeFields(v.entries, s, 0).value)
    ensures off < |buf| && buf[off] != 0
    ensures |Encode(v, s).value| == 1 + |EncodeFields(v.entries, s, 0).value|
  {
    var e := Encode(v, s).value;
    var body := EncodeFields(v.entries, s, 0).value;
    assert e == [|s.properties|] + body;
    assert buf[off + 0] == e[0];
    AtSplit(buf, off, [|s.properties|], body);
  }

  lemma StructJoin(v: Value, s: Schema, buf: Bytes, off: nat, c: nat)
    requires s.Struct? && v.Record? && Encode(v, s).Success?
    requires off < |buf| && buf[off] != 0
    requires DecodeFields(buf, off + 1, s, 0) == Some((CanonFields(v.entries, s, 0), c))
    requires |Encode(v, s).value| == 1 + c
    ensures DecodeAt(buf, off, s) == Some((Canon(v, s), |Encode(v, s).value|))
  {
    DecodeStructStep(buf, off, s, CanonFields(v.entries, s, 0), c);
  }

  lemma StructEmpty(v: Value, s: Schema, buf: Bytes, off: nat)
    requires s.Struct? && Encode(v, s).Success?
    requires At(buf, off, Encode(v, s).value)
    requires !(v.Record? && |s.properties| > 0)
    ensures DecodeAt(buf, off, s) == Some((Canon(v, s), |Encode(v, s).value|))
  {
    assert buf[off + 0] == Encode(v, s).value[0] == 0;
  }

  lemma {:induction false} MapRoundTrip(v: Value, s: Schema, buf: Bytes, off: nat)
    requires s.Map?
    requires Encode(v, s).Success? && CountsFit(v, s)
    requires At(buf, off, Encode(v, s).value)
    ensures DecodeAt(buf, off, s) == Some((Canon(v, s), |Encode(v, s).value|))
    decreases s, 2, 0
  {
    if v.Record? && |v.entries| > 0 {
      MapSplit(v, s, buf, off);
      EntriesRoundTrip(v.entries, |v.entries|, s.value, buf, off + 1);
      MapJoin(v, s, buf, off, |EncodeEntries(v.entries, s.value).value|);
    } else {
      MapEmpty(v, s, buf, off);
    }
  }

  lemma MapSplit(v: Value, s: Schema, buf: Bytes, off: nat)
    requires s.Map?
    requires Encode(v, s).Success? && CountsFit(v, s)
    requires At(buf, off, Encode(v, s).value)
    requires v.Record? && |v.entries| > 0
    ensures EncodeEntries(v.entries, s.value).Success? && EntriesFit(v.entries, s.value)
    ensures At(buf, off + 1, EncodeEntries(v.entries, s.value).value)
    ensures off < |buf| && buf[off] as int == |v.entries|
    ensures |Encode(v, s).value| == 1 + |EncodeEntries(v.entries, s.value).value|
  {
    var e := Encode(v, s).value;
    var body := EncodeEntries(v.entries, s.value).value;
    assert e == [|v.entries|] + body;
    assert buf[off + 0] == e[0];
    AtSplit(buf, off, [|v.entries|], body);
  }

  lemma MapJoin(v: Value, s: Schema, buf: Bytes, off: nat, c: nat)
    requires s.Map? && v.Record? && Encode(v, s).Success?
    requires off < |buf| && buf[off] as int == |v.entries| > 0
    requires DecodeEntries(buf, off + 1, |v.entries|, s.value) == Some((CanonEntries(v.entries, s.value), c))
    requires |Encode(v, s).value| == 1 + c
    ensures DecodeAt(buf, off, s) == Some((Canon(v, s), |Encode(v, s).value|))
  {
    DecodeMapStep(buf, off, s, CanonEntries(v.entries, s.value), c);
  }

  lemma MapEmpty(v: Value, s: Schema, buf: Bytes, off: nat)
    requires s.Map? && Encode(v, s).Success?
    requires At(buf, off, Encode(v, s).value)
    requires !(v.Record? && |v.entries| > 0)
    ensures DecodeAt(buf, off, s) == Some((Canon(v, s), |Encode(v, s).value|))
  {
    assert buf[off + 0] == Encode(v, s).value[0] == 0;
  }

  lemma {:induction false} ItemsRoundTrip(vs: seq<Value>, n: nat, t: Schema, buf: Bytes, off: nat)
    requires n == |vs|
    requires EncodeItems(vs, t).Success? && ItemsFit(vs, t)
    requires At(buf, off, EncodeItems(vs, t).value)
    ensures DecodeItems(buf, off, n, t) == Some((CanonItems(vs, t), |EncodeItems(vs, t).value|))
    decreases t, 3, |vs|, 1
  {
    if n > 0 {
      ItemsCons(vs, n, t, buf, off);
    }
  }

  lemma {:induction false} ItemsCons(vs: seq<Value>, n: nat, t: Schema, buf: Bytes, off: nat)
    requires n == |vs| > 0
    requires EncodeItems(vs, t).Success? && ItemsFit(vs, t)
    requires At(buf, off, EncodeItems(vs, t).value)
    ensures DecodeItems(buf, off, n, t) == Some((CanonItems(vs, t), |EncodeItems(vs, t).value|))
    decreases t, 3, |vs|, 0
  {
    ItemsSplit(vs, t, buf, off);
    RoundTripAt(vs[0], t, buf, off);
    ItemsRoundTrip(vs[1..], n - 1, t, buf, off + |Encode(vs[0], t).value|);
    ItemsJoin(vs, n, t, buf, off, |Encode(vs[0], t).value|, |EncodeItems(vs[1..], t).value|);
  }

  lemma ItemsSplit(vs: seq<Value>, t: Schema, buf: Bytes, off: nat)
    requires |vs| > 0
    requires EncodeItems(vs, t).Success? && ItemsFit(vs, t)
    requires At(buf, off, EncodeItems(vs, t).value)
    ensures Encode(vs[0], t).Success? && CountsFit(vs[0], t)
    ensures At(buf, off, Encode(vs[0], t).value)
    ensures EncodeItems(vs[1..], t).Success? && ItemsFit(vs[1..], t)
    ensures At(buf, off + |Encode(vs[0], t).value|, EncodeItems(vs[1..], t).value)
    ensures |EncodeItems(vs, t).value| == |Encode(vs[0], t).value| + |EncodeItems(vs[1..], t).value|
    ensures |vs[1..]| == |vs| - 1
  {
    EncodeItemsStep(vs, t);
    AtSplit(buf, off, Encode(vs[0], t).value, EncodeItems(vs[1..], t).value);
  }

  lemma ItemsJoin(vs: seq<Value>, n: nat, t: Schema, buf: Bytes, off: nat, h: nat, c: nat)
    requires n == |vs| > 0 && EncodeItems(vs, t).Success?
    requires DecodeAt(buf, off, t) == Some((Canon(vs[0], t), h))
    requires DecodeItems(buf, off + h, n - 1, t) == Some((CanonItems(vs[1..], t), c))
    requires |EncodeItems(vs, t).value| == h + c
    ensures DecodeItems(buf, off, n, t) == Some((CanonItems(vs, t), |EncodeItems(vs, t).value|))
  {
    DecodeItemsStep(buf, off, n, t, Canon(vs[0], t), h, CanonItems(vs[1..], t), c);
  }

  lemma {:induction false} FieldsRoundTrip(es: seq<Entry>, s: Schema, i: nat, buf: Bytes, off: nat)
    requires s.Struct? && i <= |s.properties|
    requires EncodeFields(es, s, i).Success? && FieldsFit(es, s, i)
    requires At(buf, off, EncodeFields(es, s, i).value)
    ensures DecodeFields(buf, off, s, i) == Some((CanonFields(es, s, i), |EncodeFields(es, s, i).value|))
    decreases s, 1, |s.properties| - i, 1
  {
    if i < |s.properties| {
      FieldsCons(es, s, i, buf, off);
    }
  }

  lemma {:induction false} FieldsCons(es: seq<Entry>, s: Schema, i: nat, buf: Bytes, off: nat)
    requires s.Struct? && i < |s.properties|
    requires EncodeFields(es, s, i).Success? && FieldsFit(es, s, i)
    requires At(buf, off, EncodeFields(es, s, i).value)
    ensures DecodeFields(buf, off, s, i) == Some((CanonFields(es, s, i), |EncodeFields(es, s, i).value|))
    decreases s, 1, |s.properties| - i, 0
  {
    var p := s.properties[i];
    FieldsHead(es, s, i, buf, off);
    FieldsTail(es, s, i, buf, off, |Encode(Get(es, p.key), p.schema).value|);
  }

  lemma {:induction false} FieldsTail(es: seq<Entry>, s: Schema, i: nat, buf: Bytes, off: nat, h: nat)
    requires s.Struct? && i < |s.properties|
    requires DecodeAt(buf, off, s.properties[i].schema) ==
      Some((Canon(Get(es, s.properties[i].key), s.properties[i].schema), h))
    requires EncodeFields(es, s, i + 1).Success? && FieldsFit(es, s, i + 1)
    requires At(buf, off + h, EncodeFields(es, s, i + 1).value)
    requires EncodeFields(es, s, i).Success?
    requires |EncodeFields(es, s, i).value| == h + |EncodeFields(es, s, i + 1).value|
    ensures DecodeFields(buf, off, s, i) == Some((CanonFields(es, s, i), |EncodeFields(es, s, i).value|))
    decreases s, 1, |s.properties| - i - 1, 2
  {
    FieldsRoundTrip(es, s, i + 1, buf, off + h);
    FieldsJoin(es, s, i, buf, off, h, |EncodeFields(es, s, i + 1).value|);
  }

  /** The first remaining property decodes back, and the rest of the fields follow it. */
  lemma {:induction false} FieldsHead(es: seq<Entry>, s: Schema, i: nat, buf: Bytes, off: nat)
    requires s.Struct? && i < |s.properties|
    requires EncodeFields(es, s, i).Success? && FieldsFit(es, s, i)
    requires At(buf, off, EncodeFields(es, s, i).value)
    ensures var p := s.properties[i];
      Encode(Get(es, p.key), p.schema).Success? &&
      DecodeAt(buf, off, p.schema) ==
        Some((Canon(Get(es, p.key), p.schema), |Encode(Get(es, p.key), p.schema).value|)) &&
      EncodeFields(es, s, i + 1).Success? && FieldsFit(es, s, i + 1) &&
      At(buf, off + |Encode(Get(es, p.key), p.schema).value|, EncodeFields(es, s, i + 1).value) &&
      |EncodeFields(es, s, i).value| ==
        |Encode(Get(es, p.key), p.schema).value| + |EncodeFields(es, s, i + 1).value|
    decreases s, 1, 0
  {
    var p := s.properties[i];
    FieldsSplit(es, s, i, buf, off);
    RoundTripAt(Get(es, p.key), p.schema, buf, off);
  }

  lemma FieldsSplit(es: seq<Entry>, s: Schema, i: nat, buf: Bytes, off: nat)
    requires s.Struct? && i < |s.properties|
    requires EncodeFields(es, s, i).Success? && FieldsFit(es, s, i)
    requires At(buf, off, EncodeFields(es, s, i).value)
    ensures var p := s.properties[i];
      Encode(Get(es, p.key), p.schema).Success? && CountsFit(Get(es, p.key), p.schema) &&
      At(buf, off, Encode(Get(es, p.key), p.schema).value) &&
      EncodeFields(es, s, i + 1).Success? && FieldsFit(es, s, i + 1) &&
      At(buf, off + |Encode(Get(es, p.key), p.schema).value|, EncodeFields(es, s, i + 1).value) &&
      |EncodeFields(es, s, i).value| ==
        |Encode(Get(es, p.key), p.schema).value| + |EncodeFields(es, s, i + 1).value|
  {
    var p := s.properties[i];
    EncodeFieldsStep(es, s, i);
    AtSplit(buf, off, Encode(Get(es, p.key), p.schema).value, EncodeFields(es, s, i + 1).value);
  }

  lemma FieldsJoin(es: seq<Entry>, s: Schema, i: nat, buf: Bytes, off: nat, h: nat, c: nat)
    requires s.Struct? && i < |s.properties|
    requires DecodeAt(buf, off, s.properties[i].schema) ==
      Some((Canon(Get(es, s.properties[i].key), s.properties[i].schema), h))
    requires DecodeFields(buf, off + h, s, i + 1) == Some((CanonFields(es, s, i + 1), c))
    requires EncodeFields(es, s, i).Success? && |EncodeFields(es, s, i).value| == h + c
    ensures DecodeFields(buf, off, s, i) == Some((CanonFields(es, s, i), |EncodeFields(es, s, i).value|))
  {
    DecodeFieldsStep(buf, off, s, i, Canon(Get(es, s.properties[i].key), s.properties[i].schema), h,
      CanonFields(es, s, i + 1), c);
  }

  lemma {:induction false} EntriesRoundTrip(es: seq<Entry>, n: nat, t: Schema, buf: Bytes, off: nat)
    requires n == |es|
    requires EncodeEntries(es, t).Success? && EntriesFit(es, t)
    requires At(buf, off, EncodeEntries(es, t).value)
    ensures DecodeEntries(buf, off, n, t) == Some((CanonEntries(es, t), |EncodeEntries(es, t).value|))
    decreases t, 4, |es|, 2
  {
    if n == 0 {
      EntriesNil(es, t, buf, off);
    } else {
      EntriesCons(es, n, t, buf, off);
    }
  }

  lemma {:induction false} EntriesCons(es: seq<Entry>, n: nat, t: Schema, buf: Bytes, off: nat)
    requires n == |es| > 0
    requires EncodeEntries(es, t).Success? && EntriesFit(es, t)
    requires At(buf, off, EncodeEntries(es, t).value)
    ensures DecodeEntries(buf, off, n, t) == Some((CanonEntries(es, t), |EncodeEntries(es, t).value|))
    decreases t, 4, |es|, 1
  {
    EntriesHead(es, t, buf, off);
    EntriesTail(es, n, t, buf, off, |EncodePair(es[0], t).value|);
  }

  lemma {:induction false} EntriesTail(es: seq<Entry>, n: nat, t: Schema, buf: Bytes, off: nat, h: nat)
    requires n == |es| > 0
    requires DecodePair(buf, off, t) == Some((CanonPair(es[0], t), h))
    requires EncodeEntries(es[1..], t).Success? && EntriesFit(es[1..], t)
    requires At(buf, off + h, EncodeEntries(es[1..], t).value)
    requires EncodeEntries(es, t).Success? && |EncodeEntries(es, t).value| == h + |EncodeEntries(es[1..], t).value|
    ensures DecodeEntries(buf, off, n, t) == Some((CanonEntries(es, t), |EncodeEntries(es, t).value|))
    decreases t, 4, |es|, 0
  {
    EntriesRoundTrip(es[1..], n - 1, t, buf, off + h);
    EntriesJoin(es, n, t, buf, off, h, |EncodeEntries(es[1..], t).value|);
  }

  lemma EntriesNil(es: seq<Entry>, t: Schema, buf: Bytes, off: nat)
    requires |es| == 0
    ensures EncodeEntries(es, t).Success?
    ensures DecodeEntries(buf, off, 0, t) == Some((CanonEntries(es, t), |EncodeEntries(es, t).value|))
  {
  }

  /** The first pair decodes back, and the rest of the pairs follow it. */
  lemma {:induction false} EntriesHead(es: seq<Entry>, t: Schema, buf: Bytes, off: nat)
    requires |es| > 0
    requires EncodeEntries(es, t).Success? && EntriesFit(es, t)
    requires At(buf, off, EncodeEntries(es, t).value)
    ensures EncodePair(es[0], t).Success?
    ensures DecodePair(buf, off, t) == Some((CanonPair(es[0], t), |EncodePair(es[0], t).value|))
    ensures EncodeEntries(es[1..], t).Success? && EntriesFit(es[1..], t)
    ensures At(buf, off + |EncodePair(es[0], t).value|, EncodeEntries(es[1..], t).value)
    ensures |EncodeEntries(es, t).value| == |EncodePair(es[0], t).value| + |EncodeEntries(es[1..], t).value|
    ensures |es[1..]| == |es| - 1
    decreases t, 4, 0
  {
    EntriesSplit(es, t, buf, off);
    PairRoundTrip(es[0], t, buf, off);
  }

  lemma EntriesSplit(es: seq<Entry>, t: Schema, buf: Bytes, off: nat)
    requires |es| > 0
    requires EncodeEntries(es, t).Success? && EntriesFit(es, t)
    requires At(buf, off, EncodeEntries(es, t).value)
    ensures EncodePair(es[0], t).Success? && PairFits(es[0], t)
    ensures At(buf, off, EncodePair(es[0], t).value)
    ensures EncodeEntries(es[1..], t).Success? && EntriesFit(es[1..], t)
    ensures At(buf, off + |EncodePair(es[0], t).value|, EncodeEntries(es[1..], t).value)
    ensures |EncodeEntries(es, t).value| == |EncodePair(es[0], t).value| + |EncodeEntries(es[1..], t).value|
    ensures |es[1..]| == |es| - 1
  {
    EncodeEntriesStep(es, t);
    AtSplit(buf, off, EncodePair(es[0], t).value, EncodeEntries(es[1..], t).value);
  }

  lemma EntriesJoin(es: seq<Entry>, n: nat, t: Schema, buf: Bytes, off: nat, h: nat, c: nat)
    requires n == |es| > 0 && EncodeEntries(es, t).Success?
    requires DecodePair(buf, off, t) == Some((CanonPair(es[0], t), h))
    requires DecodeEntries(buf, off + h, n - 1, t) == Some((CanonEntries(es[1..], t), c))
    requires |EncodeEntries(es, t).value| == h + c
    ensures DecodeEntries(buf, off, n, t) == Some((CanonEntries(es, t), |EncodeEntries(es, t).value|))
  {
    DecodeEntriesStep(buf, off, n, t, CanonPair(es[0], t), h, CanonEntries(es[1..], t), c);
  }

  /** One key-value pair of a map: the key string, then the value. */
  lemma {:induction false} PairRoundTrip(e: Entry, t: Schema, buf: Bytes, off: nat)
    requires EncodePair(e, t).Success?
    requires PairFits(e, t)
    requires At(buf, off, EncodePair(e, t).value)
    ensures DecodePair(buf, off, t) == Some((CanonPair(e, t), |EncodePair(e, t).value|))
    decreases t, 3, 1
  {
    PairSplit(e, t, buf, off);
    StringRoundTrip(e.key, buf, off);
    RoundTripAt(e.value, t, buf, off + |e.key| + 1);
    PairJoin(e, t, buf, off, |Encode(e.value, t).value|);
  }

  lemma PairSplit(e: Entry, t: Schema, buf: Bytes, off: nat)
    requires EncodePair(e, t).Success? && PairFits(e, t)
    requires At(buf, off, EncodePair(e, t).value)
    ensures |e.key| <= 0xFF && At(buf, off, EncodeString(e.key))
    ensures Encode(e.value, t).Success? && CountsFit(e.value, t)
    ensures At(buf, off + |e.key| + 1, Encode(e.value, t).value)
    ensures |EncodePair(e, t).value| == |e.key| + 1 + |Encode(e.value, t).value|
  {
    var key := EncodeString(e.key);
    EncodeStringLayout(e.key);
    AtSplit(buf, off, key, Encode(e.value, t).value);
  }

  lemma PairJoin(e: Entry, t: Schema, buf: Bytes, off: nat, c: nat)
    requires EncodePair(e, t).Success?
    requires DecodeString(buf, off) == Some((e.key, |e.key| + 1))
    requires DecodeAt(buf, off + |e.key| + 1, t) == Some((Canon(e.value, t), c))
    requires |EncodePair(e, t).value| == |e.key| + 1 + c
    ensures DecodePair(buf, off, t) == Some((CanonPair(e, t), |EncodePair(e, t).value|))
  {
    DecodePairStep(buf, off, t, e.key, |e.key| + 1, Canon(e.value, t), c);
  }

  /**
    * `decode(encode(v, s), s)`: every encodable value whose lengths and counts fit
    * their one-byte prefixes decodes to its canonical form, consuming the whole
    * encoding.
    */
  lemma GeneralRoundTrip(v: Value, s: Schema)
    requires Encode(v, s).Success? && CountsFit(v, s)
    ensures Decode(Encode(v, s).value, s) == Some((Canon(v, s), |Encode(v, s).value|))
  {
    var e := Encode(v, s).value;
    assert At(e, 0, e);
    RoundTripAt(v, s, e, 0);
  }
}
