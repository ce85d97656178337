/**
  * The schema-directed decoder (src/decoder.ts), reading a single buffer through an
  * offset. Each reader returns the value and the number of bytes it consumed, or
  * `None` when the buffer ends before the schema is satisfied.
  */
module Decoder {
  import opened Utils
  import opened Wrappers
  import opened Types
  import opened Objects
  import opened Numbers

  /** `decodeString`: a length byte `n`, then `n` bytes of text; consumes `n + 1`. */
  function DecodeString(buf: Bytes, off: nat): Option<(Bytes, nat)>
  {
    if off < |buf| && off + 1 + buf[off] <= |buf| then
      var n: nat := buf[off];
      Some((ReadBytes(buf, off + 1, n), n + 1))
    else None
  }

  /**
    * `decode(data, schema)` at offset `off`. A bool is true only for the byte 1; a
    * leading 0 gives an empty array, struct or map; a struct's other leading values
    * are ignored and exactly the schema's properties follow; structs and maps are
    * built by assigning each decoded entry in wire order.
    */
  function DecodeAt(buf: Bytes, off: nat, s: Schema): Option<(Value, nat)>
    decreases s, 3, 0
  {
    if off >= |buf| then None
    else
      match s
      case Bool => Some((Boolean(buf[off] == 1), 1))
      case Number(k) =>
        if off + Width(k) <= |buf| then
          Some((Integer(FromPattern(k, ReadBE(buf, off, Width(k)))), Width(k)))
        else None
      case String =>
        (match DecodeString(buf, off)
         case Some((t, c)) => Some((Text(t), c))
         case None => None)
      case Array(t) => DecodeArray(buf, off, t)
      case Struct(_) => DecodeStruct(buf, off, s)
      case Map(_, t) => DecodeMap(buf, off, t)
  }

  /** `decodeArray`: a count byte, 0 for the empty array, then that many items. */
  function DecodeArray(buf: Bytes, off: nat, t: Schema): Option<(Value, nat)>
    requires off < |buf|
    decreases t, 5, 0
  {
    if buf[off] == 0 then Some((List([]), 1))
    else
      match DecodeItems(buf, off + 1, buf[off], t)
      case Some((vs, c)) => Some((List(vs), 1 + c))
      case None => None
  }

  /** `decodeStruct`: a leading byte, 0 for the empty object, then every property in order. */
  function DecodeStruct(buf: Bytes, off: nat, s: Schema): Option<(Value, nat)>
    requires s.Struct? && off < |buf|
    decreases s, 2, 0
  {
    if buf[off] == 0 then Some((Record([]), 1))
    else
      match DecodeFields(buf, off + 1, s, 0)
      case Some((es, c)) => Some((Record(ToRecord(es)), 1 + c))
      case None => None
  }

  /** `decodeMap`: a count byte, 0 for the empty object, then that many key-value pairs. */
  function DecodeMap(buf: Bytes, off: nat, t: Schema): Option<(Value, nat)>
    requires off < |buf|
    decreases t, 5, 0
  {
    if buf[off] == 0 then Some((Record([]), 1))
    else
      match DecodeEntries(buf, off + 1, buf[off], t)
      case Some((es, c)) => Some((Record(ToRecord(es)), 1 + c))
      case None => None
  }

  /** The loop of `decodeArray`: `n` items in a row, each starting where the last ended. */
  function DecodeItems(buf: Bytes, off: nat, n: nat, t: Schema): Option<(seq<Value>, nat)>
    decreases t, 4, n
  {
    if n == 0 then Some(([], 0))
    else
      match DecodeAt(buf, off, t)
      case None => None
      case Some((v, c)) =>
        match DecodeItems(buf, off + c, n - 1, t)
        case None => None
        case Some((vs, c')) => Some(([v] + vs, c + c'))
  }

  /**
    * The loop of `decodeStruct` from property `i` on: the entries it decodes carry the
    * schema's keys in schema order.
    */
  function DecodeFields(buf: Bytes, off: nat, s: Schema, i: nat): Option<(seq<Entry>, nat)>
    requires s.Struct? && i <= |s.properties|
    decreases s, 1, |s.properties| - i
  {
    if i == |s.properties| then Some(([], 0))
    else
      var p := s.properties[i];
      match DecodeAt(buf, off, p.schema)
      case None => None
      case Some((v, c)) =>
        match DecodeFields(buf, off + c, s, i + 1)
        case None => None
        case Some((es, c')) => Some(([Entry(p.key, v)] + es, c + c'))
  }

  /** One pass of the `decodeMap` loop: a string key, then a value decoded with `t`. */
  function DecodePair(buf: Bytes, off: nat, t: Schema): Option<(Entry, nat)>
    decreases t, 3, 1
  {
    match DecodeString(buf, off)
    case None => None
    case Some((k, c1)) =>
      match DecodeAt(buf, off + c1, t)
      case None => None
      case Some((v, c2)) => Some((Entry(k, v), c1 + c2))
  }

  /** The loop of `decodeMap`: `n` key-value pairs in wire order. */
  function DecodeEntries(buf: Bytes, off: nat, n: nat, t: Schema): Option<(seq<Entry>, nat)>
    decreases t, 4, n
  {
    if n == 0 then Some(([], 0))
    else
      match DecodePair(buf, off, t)
      case None => None
      case Some((e, c)) =>
        match DecodeEntries(buf, off + c, n - 1, t)
        case None => None
        case Some((es, c')) => Some(([e] + es, c + c'))
  }

  /** `decode(data, schema)`: decode from the start of the buffer. */
  function Decode(buf: Bytes, s: Schema): Option<(Value, nat)>
  {
    DecodeAt(buf, 0, s)
  }

  /**
    * `decodeString` succeeds exactly when the length byte and that many bytes are
    * present; it returns those bytes and consumes one more than their number.
    */
  lemma DecodeStringSpec(buf: Bytes, off: nat)
    ensures DecodeString(buf, off).Some? <==> off < |buf| && off + 1 + buf[off] <= |buf|
    ensures DecodeString(buf, off).Some? ==>
      var (t, c) := DecodeString(buf, off).value;
      c == |t| + 1 == buf[off] as int + 1 &&
      t == buf[off + 1..off + 1 + buf[off]]
  {
    if off < |buf| && off + 1 + buf[off] <= |buf| {
      ReadBytesSlice(buf, off + 1, buf[off] as nat);
    }
  }

  /**
    * A number read succeeds exactly when the kind's width of bytes remains; it consumes
    * that width and decodes the bytes found there as `decodeNumberType` does.
    */
  lemma DecodeNumberAt(buf: Bytes, off: nat, k: NumberKind)
    ensures DecodeAt(buf, off, Number(k)).Some? <==> off + Width(k) <= |buf|
    ensures off + Width(k) <= |buf| ==>
      DecodeAt(buf, off, Number(k)) == Some((Integer(DecodeNumber(k, buf[off..off + Width(k)])), Width(k)))
  {
    if off + Width(k) <= |buf| {
      var bs := buf[off..off + Width(k)];
      ReadBEAt(buf, off, bs);
    }
  }

  /** A bool read takes one byte and yields true for the byte 1 and false for every other byte. */
  lemma DecodeBoolAt(buf: Bytes, off: nat)
    ensures DecodeAt(buf, off, Bool).Some? <==> off < |buf|
    ensures off < |buf| ==>
      DecodeAt(buf, off, Bool).value.1 == 1 &&
      (DecodeAt(buf, off, Bool).value.0 == Boolean(true) <==> buf[off] == 1) &&
      (DecodeAt(buf, off, Bool).value.0 == Boolean(false) <==> buf[off] != 1)
  {
  }

  /**
    * Every successful read consumes at least one byte and stays inside the buffer.
    */
  lemma {:induction false} DecodeAtBounds(buf: Bytes, off: nat, s: Schema)
    ensures DecodeAt(buf, off, s).Some? ==>
      var c := DecodeAt(buf, off, s).value.1;
      1 <= c && off + c <= |buf|
    decreases s, 3, 0
  {
    if off < |buf| {
      match s
      case Bool =>
      case Number(_) =>
      case String =>
      case Array(t) =>
        DecodeItemsBounds(buf, off + 1, buf[off], t);
      case Struct(_) =>
        DecodeFieldsBounds(buf, off + 1, s, 0);
      case Map(_, t) =>
        DecodeEntriesBounds(buf, off + 1, buf[off], t);
    }
  }

  lemma {:induction false} DecodeItemsBounds(buf: Bytes, off: nat, n: nat, t: Schema)
    ensures DecodeItems(buf, off, n, t).Some? ==>
      var (vs, c) := DecodeItems(buf, off, n, t).value;
      |vs| == n && n <= c && (n > 0 ==> off + c <= |buf|)
    decreases t, 4, n
  {
    if n > 0 {
      DecodeAtBounds(buf, off, t);
      if DecodeAt(buf, off, t).Some? {
        DecodeItemsBounds(buf, off + DecodeAt(buf, off, t).value.1, n - 1, t);
      }
    }
  }

  lemma {:induction false} DecodeFieldsBounds(buf: Bytes, off: nat, s: Schema, i: nat)
    requires s.Struct? && i <= |s.properties|
    ensures DecodeFields(buf, off, s, i).Some? ==>
      var (es, c) := DecodeFields(buf, off, s, i).value;
      |es| == |s.properties| - i && (i < |s.properties| ==> off + c <= |buf|) &&
      forall j | 0 <= j < |es| :: es[j].key == s.properties[i + j].key
    decreases s, 1, |s.properties| - i
  {
    if i < |s.properties| {
      var p := s.properties[i];
      DecodeAtBounds(buf, off, p.schema);
      if DecodeAt(buf, off, p.schema).Some? {
        DecodeFieldsBounds(buf, off + DecodeAt(buf, off, p.schema).value.1, s, i + 1);
      }
    }
  }

  lemma {:induction false} DecodePairBounds(buf: Bytes, off: nat, t: Schema)
    ensures DecodePair(buf, off, t).Some? ==>
      var c := DecodePair(buf, off, t).value.1;
      2 <= c && off + c <= |buf|
    decreases t, 3, 1
  {
    DecodeStringSpec(buf, off);
    if DecodeString(buf, off).Some? {
      DecodeAtBounds(buf, off + DecodeString(buf, off).value.1, t);
    }
  }

  lemma {:induction false} DecodeEntriesBounds(buf: Bytes, off: nat, n: nat, t: Schema)
    ensures DecodeEntries(buf, off, n, t).Some? ==>
      var (es, c) := DecodeEntries(buf, off, n, t).value;
      |es| == n && 2 * n <= c && (n > 0 ==> off + c <= |buf|)
    decreases t, 4, n
  {
    if n > 0 {
      DecodePairBounds(buf, off, t);
      if DecodePair(buf, off, t).Some? {
        DecodeEntriesBounds(buf, off + DecodePair(buf, off, t).value.1, n - 1, t);
      }
    }
  }

  /*
    * One step of each decoding loop, stated over its pieces so that proofs about the
    * loops can combine facts instead of unfolding the decoder.
    */

  lemma DecodeArrayStep(buf: Bytes, off: nat, t: Schema, vs: seq<Value>, c: nat)
    requires off < |buf| && buf[off] != 0
    requires DecodeItems(buf, off + 1, buf[off], t) == Some((vs, c))
    ensures DecodeAt(buf, off, Array(t)) == Some((List(vs), 1 + c))
  {
  }

  lemma DecodeStructStep(buf: Bytes, off: nat, s: Schema, es: seq<Entry>, c: nat)
    requires s.Struct? && off < |buf| && buf[off] != 0
    requires DecodeFields(buf, off + 1, s, 0) == Some((es, c))
    ensures DecodeAt(buf, off, s) == Some((Record(ToRecord(es)), 1 + c))
  {
  }

  lemma DecodeMapStep(buf: Bytes, off: nat, s: Schema, es: seq<Entry>, c: nat)
    requires s.Map? && off < |buf| && buf[off] != 0
    requires DecodeEntries(buf, off + 1, buf[off], s.value) == Some((es, c))
    ensures DecodeAt(buf, off, s) == Some((Record(ToRecord(es)), 1 + c))
  {
  }

  lemma DecodeItemsStep(buf: Bytes, off: nat, n: nat, t: Schema, v: Value, c: nat, vs: seq<Value>, c': nat)
    requires n > 0
    requires DecodeAt(buf, off, t) == Some((v, c))
    requires DecodeItems(buf, off + c, n - 1, t) == Some((vs, c'))
    ensures DecodeItems(buf, off, n, t) == Some(([v] + vs, c + c'))
  {
  }

  lemma DecodeFieldsStep(buf: Bytes, off: nat, s: Schema, i: nat, v: Value, c: nat, es: seq<Entry>, c': nat)
    requires s.Struct? && i < |s.properties|
    requires DecodeAt(buf, off, s.properties[i].schema) == Some((v, c))
    requires DecodeFields(buf, off + c, s, i + 1) == Some((es, c'))
    ensures DecodeFields(buf, off, s, i) == Some(([Entry(s.properties[i].key, v)] + es, c + c'))
  {
  }

  lemma DecodeEntriesStep(buf: Bytes, off: nat, n: nat, t: Schema, e: Entry, c: nat, es: seq<Entry>, c': nat)
    requires n > 0
    requires DecodePair(buf, off, t) == Some((e, c))
    requires DecodeEntries(buf, off + c, n - 1, t) == Some((es, c'))
    ensures DecodeEntries(buf, off, n, t) == Some(([e] + es, c + c'))
  {
  }
  /*
    * The converse steps: a successful read of a container or a loop is made of
    * successful reads of its pieces.
    */

  lemma DecodeArrayParts(buf: Bytes, off: nat, t: Schema)
    requires DecodeAt(buf, off, Array(t)).Some?
    ensures off < |buf|
    ensures buf[off] == 0 ==> DecodeAt(buf, off, Array(t)) == Some((List([]), 1))
    ensures buf[off] != 0 ==> (DecodeItems(buf, off + 1, buf[off], t).Some? &&
      var (vs, c) := DecodeItems(buf, off + 1, buf[off], t).value;
      DecodeAt(buf, off, Array(t)) == Some((List(vs), 1 + c)))
  {
  }

  lemma DecodeStructParts(buf: Bytes, off: nat, s: Schema)
    requires s.Struct? && DecodeAt(buf, off, s).Some?
    ensures off < |buf|
    ensures buf[off] == 0 ==> DecodeAt(buf, off, s) == Some((Record([]), 1))
    ensures buf[off] != 0 ==> (DecodeFields(buf, off + 1, s, 0).Some? &&
      var (es, c) := DecodeFields(buf, off + 1, s, 0).value;
      DecodeAt(buf, off, s) == Some((Record(ToRecord(es)), 1 + c)))
  {
  }

  lemma DecodeMapParts(buf: Bytes, off: nat, s: Schema)
    requires s.Map? && DecodeAt(buf, off, s).Some?
    ensures off < |buf|
    ensures buf[off] == 0 ==> DecodeAt(buf, off, s) == Some((Record([]), 1))
    ensures buf[off] != 0 ==> (DecodeEntries(buf, off + 1, buf[off], s.value).Some? &&
      var (es, c) := DecodeEntries(buf, off + 1, buf[off], s.value).value;
      DecodeAt(buf, off, s) == Some((Record(ToRecord(es)), 1 + c)))
  {
  }

  lemma DecodeItemsParts(buf: Bytes, off: nat, n: nat, t: Schema)
    requires n > 0 && DecodeItems(buf, off, n, t).Some?
    ensures DecodeAt(buf, off, t).Some?
    ensures var (v, c) := DecodeAt(buf, off, t).value;
      DecodeItems(buf, off + c, n - 1, t).Some? &&
      var (vs, c') := DecodeItems(buf, off + c, n - 1, t).value;
      DecodeItems(buf, off, n, t) == Some(([v] + vs, c + c'))
  {
  }

  lemma DecodeFieldsParts(buf: Bytes, off: nat, s: Schema, i: nat)
    requires s.Struct? && i < |s.properties| && DecodeFields(buf, off, s, i).Some?
    ensures DecodeAt(buf, off, s.properties[i].schema).Some?
    ensures var (v, c) := DecodeAt(buf, off, s.properties[i].schema).value;
      DecodeFields(buf, off + c, s, i + 1).Some? &&
      var (es, c') := DecodeFields(buf, off + c, s, i + 1).value;
      DecodeFields(buf, off, s, i) == Some(([Entry(s.properties[i].key, v)] + es, c + c'))
  {
  }

  lemma DecodePairParts(buf: Bytes, off: nat, t: Schema)
    requires DecodePair(buf, off, t).Some?
    ensures DecodeString(buf, off).Some?
    ensures var (k, c) := DecodeString(buf, off).value;
      DecodeAt(buf, off + c, t).Some? &&
      var (v, c') := DecodeAt(buf, off + c, t).value;
      DecodePair(buf, off, t) == Some((Entry(k, v), c + c'))
  {
  }

  lemma DecodeEntriesParts(buf: Bytes, off: nat, n: nat, t: Schema)
    requires n > 0 && DecodeEntries(buf, off, n, t).Some?
    ensures DecodePair(buf, off, t).Some?
    ensures var (e, c) := DecodePair(buf, off, t).value;
      DecodeEntries(buf, off + c, n - 1, t).Some? &&
      var (es, c') := DecodeEntries(buf, off + c, n - 1, t).value;
      DecodeEntries(buf, off, n, t) == Some(([e] + es, c + c'))
  {
  }

  lemma DecodePairStep(buf: Bytes, off: nat, t: Schema, k: Bytes, c: nat, v: Value, c': nat)
    requires DecodeString(buf, off) == Some((k, c))
    requires DecodeAt(buf, off + c, t) == Some((v, c'))
    ensures DecodePair(buf, off, t) == Some((Entry(k, v), c + c'))
  {
  }
}
