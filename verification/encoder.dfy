/**
  * The schema-directed encoder (src/encoder.ts): one dispatch on the schema node,
  * recursing into array items, struct properties in schema order, and map values.
  */
module Encoder {
  import opened Utils
  import opened Wrappers
  import opened Types
  import opened Objects
  import opened Numbers

  /**
    * The values `encode` accepts under `s`: the right shape for the node (or absent),
    * and every number within its kind's range.
    */
  predicate Encodable(v: Value, s: Schema)
    decreases s
  {
    match s
    case Bool => v.Absent? || v.Boolean?
    case Number(k) => v.Absent? || (v.Integer? && InRange(k, v.n))
    case String => v.Absent? || v.Text?
    case Array(t) =>
      v.Absent? || (v.List? && forall i | 0 <= i < |v.items| :: Encodable(v.items[i], t))
    case Struct(props) =>
      v.Absent? ||
      (v.Record? && forall i | 0 <= i < |props| :: Encodable(Get(v.entries, props[i].key), props[i].schema))
    case Map(_, t) =>
      v.Absent? || (v.Record? && forall i | 0 <= i < |v.entries| :: Encodable(v.entries[i].value, t))
  }

  /**
    * `encodeString` of a present string: its byte length (kept modulo 256 by
    * `Buffer.from`) followed by its bytes; the empty string is the single byte 0,
    * which is what the general rule gives as well.
    */
  function EncodeString(t: Bytes): Bytes
  {
    if |t| == 0 then [0] else Append([|t| % 0x100], t)
  }

  /** Every encoded string is its length modulo 256 followed by its bytes. */
  lemma EncodeStringLayout(t: Bytes)
    ensures EncodeString(t) == [|t| % 0x100] + t
  {
  }

  /**
    * `encode(data, schema)`. Absent strings, arrays, structs and maps encode as the
    * single byte 0; an absent bool as false; an absent number passes `checkRange`
    * (every comparison with undefined is false) and every mask turns it into 0.
    * Counts are kept modulo 256.
    */
  function Encode(v: Value, s: Schema): Result<Bytes, EncodeError>
    decreases s, 2, 0
  {
    match s
    case Bool =>
      (match v
       case Absent => Success([0])
       case Boolean(b) => Success([if b then 1 else 0])
       case _ => Failure(ShapeMismatch))
    case Number(k) =>
      (match v
       case Absent => Success(NumberBytes(k, 0))
       case Integer(n) => EncodeNumber(k, n)
       case _ => Failure(ShapeMismatch))
    case String =>
      (match v
       case Absent => Success([0])
       case Text(t) => Success(EncodeString(t))
       case _ => Failure(ShapeMismatch))
    case Array(t) =>
      (match v
       case Absent => Success([0])
       case List(items) =>
         (match EncodeItems(items, t)
          case Success(body) => Success(Append([|items| % 0x100], body))
          case Failure(e) => Failure(e))
       case _ => Failure(ShapeMismatch))
    case Struct(props) =>
      (match v
       case Absent => Success([0])
       case Record(es) =>
         (match EncodeFields(es, s, 0)
          case Success(body) => Success(Append([|props| % 0x100], body))
          case Failure(e) => Failure(e))
       case _ => Failure(ShapeMismatch))
    case Map(_, t) =>
      (match v
       case Absent => Success([0])
       case Record(es) =>
         (match EncodeEntries(es, t)
          case Success(body) => Success(Append([|es| % 0x100], body))
          case Failure(e) => Failure(e))
       case _ => Failure(ShapeMismatch))
  }

  /** The loop of `encodeArray`: every item with the one item schema, in order. */
  function EncodeItems(vs: seq<Value>, t: Schema): Result<Bytes, EncodeError>
    decreases t, 3, |vs|
  {
    if |vs| == 0 then Success([])
    else
      match Encode(vs[0], t)
      case Failure(e) => Failure(e)
      case Success(head) =>
        match EncodeItems(vs[1..], t)
        case Failure(e) => Failure(e)
        case Success(tail) => Success(Append(head, tail))
  }

  /**
    * The loop of `encodeStruct` from property `i` on: each property's value looked up
    * by key (missing keys read as absent), encoded with that property's schema.
    */
  function EncodeFields(es: seq<Entry>, s: Schema, i: nat): Result<Bytes, EncodeError>
    requires s.Struct? && i <= |s.properties|
    decreases s, 1, |s.properties| - i
  {
    if i == |s.properties| then Success([])
    else
      var p := s.properties[i];
      match Encode(Get(es, p.key), p.schema)
      case Failure(e) => Failure(e)
      case Success(head) =>
        match EncodeFields(es, s, i + 1)
        case Failure(e) => Failure(e)
        case Success(tail) => Success(Append(head, tail))
  }

  /** One pass of the `encodeMap` loop: the key as a string, then the value encoded with `t`. */
  function EncodePair(e: Entry, t: Schema): Result<Bytes, EncodeError>
    decreases t, 3, 0
  {
    match Encode(e.value, t)
    case Failure(err) => Failure(err)
    case Success(value) => Success(Append(EncodeString(e.key), value))
  }

  /** The loop of `encodeMap`: every key-value pair in the object's order. */
  function EncodeEntries(es: seq<Entry>, t: Schema): Result<Bytes, EncodeError>
    decreases t, 4, |es|
  {
    if |es| == 0 then Success([])
    else
      match EncodePair(es[0], t)
      case Failure(e) => Failure(e)
      case Success(head) =>
        match EncodeEntries(es[1..], t)
        case Failure(e) => Failure(e)
        case Success(tail) => Success(Append(head, tail))
  }

  /**
    * `encode` fails exactly when `checkRange` rejects a number somewhere in the value
    * (or a value has the wrong shape for its schema node).
    */
  lemma {:induction false} EncodeSucceeds(v: Value, s: Schema)
    ensures Encode(v, s).Success? <==> Encodable(v, s)
    decreases s, 2, 0
  {
    match s
    case Bool =>
    case Number(k) =>
    case String =>
    case Array(t) =>
      if v.List? {
        ItemsSucceed(v.items, t);
      }
    case Struct(props) =>
      if v.Record? {
        FieldsSucceed(v.entries, s, 0);
      }
    case Map(_, t) =>
      if v.Record? {
        EntriesSucceed(v.entries, t);
      }
  }

  lemma {:induction false} ItemsSucceed(vs: seq<Value>, t: Schema)
    ensures EncodeItems(vs, t).Success? <==> forall i | 0 <= i < |vs| :: Encodable(vs[i], t)
    decreases t, 3, |vs|
  {
    if |vs| > 0 {
      EncodeSucceeds(vs[0], t);
      ItemsSucceed(vs[1..], t);
      assert forall i | 1 <= i < |vs| :: vs[1..][i - 1] == vs[i];
    }
  }

  lemma {:induction false} FieldsSucceed(es: seq<Entry>, s: Schema, i: nat)
    requires s.Struct? && i <= |s.properties|
    ensures EncodeFields(es, s, i).Success? <==>
      forall j | i <= j < |s.properties| ::
        Encodable(Get(es, s.properties[j].key), s.properties[j].schema)
    decreases s, 1, |s.properties| - i
  {
    if i < |s.properties| {
      EncodeSucceeds(Get(es, s.properties[i].key), s.properties[i].schema);
      FieldsSucceed(es, s, i + 1);
    }
  }

  lemma {:induction false} EntriesSucceed(es: seq<Entry>, t: Schema)
    ensures EncodeEntries(es, t).Success? <==> forall i | 0 <= i < |es| :: Encodable(es[i].value, t)
    decreases t, 4, |es|
  {
    if |es| > 0 {
      EncodeSucceeds(es[0].value, t);
      EntriesSucceed(es[1..], t);
      assert forall i | 1 <= i < |es| :: es[1..][i - 1] == es[i];
    }
  }

  /*
    * One step of each encoding loop, stated over its pieces so that proofs about the
    * loops can combine facts instead of unfolding the encoder.
    */

  lemma EncodeItemsStep(vs: seq<Value>, t: Schema)
    requires |vs| > 0 && EncodeItems(vs, t).Success?
    ensures Encode(vs[0], t).Success? && EncodeItems(vs[1..], t).Success?
    ensures EncodeItems(vs, t).value == Encode(vs[0], t).value + EncodeItems(vs[1..], t).value
  {
  }

  lemma EncodeFieldsStep(es: seq<Entry>, s: Schema, i: nat)
    requires s.Struct? && i < |s.properties| && EncodeFields(es, s, i).Success?
    ensures var p := s.properties[i];
      Encode(Get(es, p.key), p.schema).Success? && EncodeFields(es, s, i + 1).Success? &&
      EncodeFields(es, s, i).value == Encode(Get(es, p.key), p.schema).value + EncodeFields(es, s, i + 1).value
  {
  }

  lemma EncodeEntriesStep(es: seq<Entry>, t: Schema)
    requires |es| > 0 && EncodeEntries(es, t).Success?
    ensures EncodePair(es[0], t).Success? && EncodeEntries(es[1..], t).Success?
    ensures EncodeEntries(es, t).value == EncodePair(es[0], t).value + EncodeEntries(es[1..], t).value
  {
  }

  /*
    * The encodings of containers in closed form: the count byte, then the encodings of
    * the elements one after another.
    */

  /** An array is its item count followed by each item's encoding, in order. */
  lemma EncodeArrayLayout(vs: seq<Value>, t: Schema)
    requires forall i | 0 <= i < |vs| :: Encode(vs[i], t).Success?
    ensures Encode(List(vs), Array(t)) ==
      Success([|vs| % 0x100] + Concat(seq(|vs|, i requires 0 <= i < |vs| => Encode(vs[i], t).value)))
  {
    ItemsConcat(vs, t);
  }

  /**
    * A struct is its property count followed by the encoding of each property's value,
    * looked up by key, in schema order.
    */
  lemma EncodeStructLayout(es: seq<Entry>, props: seq<Property>)
    requires forall i | 0 <= i < |props| :: Encode(Get(es, props[i].key), props[i].schema).Success?
    ensures Encode(Record(es), Struct(props)) ==
      Success([|props| % 0x100] + Concat(seq(|props|, i requires 0 <= i < |props| =>
        Encode(Get(es, props[i].key), props[i].schema).value)))
  {
    FieldsConcat(es, Struct(props), 0);
    assert props[0..] == props;
    assert FieldParts(es, props) ==
      seq(|props|, i requires 0 <= i < |props| => Encode(Get(es, props[i].key), props[i].schema).value);
  }

  /** A map is its entry count followed by each key as a string and its value's encoding. */
  lemma EncodeMapLayout(es: seq<Entry>, k: Bytes, t: Schema)
    requires forall i | 0 <= i < |es| :: Encode(es[i].value, t).Success?
    ensures Encode(Record(es), Map(k, t)) ==
      Success([|es| % 0x100] + Concat(seq(|es|, i requires 0 <= i < |es| =>
        EncodeString(es[i].key) + Encode(es[i].value, t).value)))
  {
    EntriesConcat(es, t);
  }

  lemma {:induction false} ItemsConcat(vs: seq<Value>, t: Schema)
    requires forall i | 0 <= i < |vs| :: Encode(vs[i], t).Success?
    ensures EncodeItems(vs, t) ==
      Success(Concat(seq(|vs|, i requires 0 <= i < |vs| => Encode(vs[i], t).value)))
    decreases |vs|
  {
    if |vs| > 0 {
      ItemsConcat(vs[1..], t);
      var parts := seq(|vs|, i requires 0 <= i < |vs| => Encode(vs[i], t).value);
      assert parts[1..] == seq(|vs[1..]|, i requires 0 <= i < |vs[1..]| => Encode(vs[1..][i], t).value);
    }
  }

  /** The bytes `encodeStruct` writes for property `p` of the object `es`. */
  function FieldBytes(es: seq<Entry>, p: Property): Bytes
  {
    match Encode(Get(es, p.key), p.schema)
    case Success(b) => b
    case Failure(_) => []
  }

  /** The bytes `encodeStruct` writes for each of `props`, in order. */
  function FieldParts(es: seq<Entry>, props: seq<Property>): (r: seq<Bytes>)
    ensures |r| == |props|
    ensures forall j | 0 <= j < |props| :: r[j] == FieldBytes(es, props[j])
  {
    if |props| == 0 then [] else [FieldBytes(es, props[0])] + FieldParts(es, props[1..])
  }

  lemma {:induction false} FieldsConcat(es: seq<Entry>, s: Schema, i: nat)
    requires s.Struct? && i <= |s.properties|
    requires forall j | i <= j < |s.properties| ::
      Encode(Get(es, s.properties[j].key), s.properties[j].schema).Success?
    ensures EncodeFields(es, s, i) == Success(Concat(FieldParts(es, s.properties[i..])))
    decreases |s.properties| - i
  {
    if i < |s.properties| {
      FieldsConcat(es, s, i + 1);
      var props := s.properties;
      assert props[i..][1..] == props[i + 1..];
      var parts := FieldParts(es, props[i..]);
      assert parts[1..] == FieldParts(es, props[i + 1..]);
      EncodeFieldsStep(es, s, i);
    }
  }

  lemma {:induction false} EntriesConcat(es: seq<Entry>, t: Schema)
    requires forall i | 0 <= i < |es| :: Encode(es[i].value, t).Success?
    ensures EncodeEntries(es, t) ==
      Success(Concat(seq(|es|, i requires 0 <= i < |es| =>
        EncodeString(es[i].key) + Encode(es[i].value, t).value)))
    decreases |es|
  {
    if |es| > 0 {
      EntriesConcat(es[1..], t);
      var parts := seq(|es|, i requires 0 <= i < |es| => EncodeString(es[i].key) + Encode(es[i].value, t).value);
      assert parts[1..] == seq(|es[1..]|, i requires 0 <= i < |es[1..]| =>
        EncodeString(es[1..][i].key) + Encode(es[1..][i].value, t).value);
    }
  }
}
