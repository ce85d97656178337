/**
  * How structs and maps use JavaScript objects. A struct is encoded by looking up
  * each schema key (`data[key]`), so only those lookups matter; it is decoded by
  * reading exactly the schema's properties after a leading byte that is only
  * compared with 0. A map is encoded from the object's own entries and decoded by
  * assigning the pairs in wire order, so a repeated key keeps its last value. The
  * map schema's `key` field is read by neither side.
  */
module ObjectCodec {
  import opened Utils
  import opened Wrappers
  import opened Types
  import opened Objects
  import opened Encoder
  import opened Decoder
  import opened Frame

  /** Whether `k` is the key of one of the struct schema's properties. */
  predicate SchemaKey(s: Schema, k: Bytes)
    requires s.Struct?
  {
    exists j | 0 <= j < |s.properties| :: s.properties[j].key == k
  }

  lemma {:induction false} FieldsByLookup(a: seq<Entry>, b: seq<Entry>, s: Schema, i: nat)
    requires s.Struct? && i <= |s.properties|
    requires forall j | i <= j < |s.properties| :: Get(a, s.properties[j].key) == Get(b, s.properties[j].key)
    ensures EncodeFields(a, s, i) == EncodeFields(b, s, i)
    decreases |s.properties| - i
  {
    if i < |s.properties| {
      FieldsByLookup(a, b, s, i + 1);
    }
  }

  /**
    * A struct's bytes depend only on what the object gives for each schema key: two
    * objects that agree on those lookups encode alike, whatever their key order and
    * whatever other keys they hold.
    */
  lemma StructEncodingByLookup(a: seq<Entry>, b: seq<Entry>, s: Schema)
    requires s.Struct?
    requires forall j | 0 <= j < |s.properties| :: Get(a, s.properties[j].key) == Get(b, s.properties[j].key)
    ensures Encode(Record(a), s) == Encode(Record(b), s)
  {
    FieldsByLookup(a, b, s, 0);
  }

  /** A key outside the schema adds nothing to a struct's encoding. */
  lemma ExtraKeyIgnored(es: seq<Entry>, e: Entry, s: Schema)
    requires s.Struct? && !SchemaKey(s, e.key)
    ensures Encode(Record(es + [e]), s) == Encode(Record(es), s)
  {
    forall j | 0 <= j < |s.properties|
      ensures Get(es + [e], s.properties[j].key) == Get(es, s.properties[j].key)
    {
      GetAppend(es, e, s.properties[j].key);
    }
    StructEncodingByLookup(es + [e], es, s);
  }

  /** A schema key missing from the object encodes exactly as an explicitly absent value. */
  lemma MissingKeyIsAbsent(es: seq<Entry>, k: Bytes, s: Schema)
    requires s.Struct? && !HasKey(es, k)
    ensures Encode(Record(es + [Entry(k, Absent)]), s) == Encode(Record(es), s)
  {
    GetFirst(es, k);
    forall j | 0 <= j < |s.properties|
      ensures Get(es + [Entry(k, Absent)], s.properties[j].key) == Get(es, s.properties[j].key)
    {
      GetAppend(es, Entry(k, Absent), s.properties[j].key);
    }
    StructEncodingByLookup(es + [Entry(k, Absent)], es, s);
  }

  /**
    * The struct decoder only compares its leading byte with 0: any other non-zero
    * byte in its place gives the same result.
    */
  lemma StructLeadingByteIgnored(buf: Bytes, off: nat, s: Schema, y: byte)
    requires s.Struct? && off < |buf| && buf[off] != 0 && y != 0
    ensures DecodeAt(buf[off := y], off, s) == DecodeAt(buf, off, s)
  {
    var buf2 := buf[off := y];
    if DecodeFields(buf, off + 1, s, 0).Some? {
      SameAfter(buf, buf2, off, s);
    } else if DecodeFields(buf2, off + 1, s, 0).Some? {
      SameAfter(buf2, buf, off, s);
    }
  }

  /** Two buffers that differ at most at `off` read the same fields after it. */
  lemma SameAfter(buf: Bytes, buf2: Bytes, off: nat, s: Schema)
    requires s.Struct? && off < |buf| == |buf2|
    requires forall j | off < j < |buf| :: buf2[j] == buf[j]
    requires DecodeFields(buf, off + 1, s, 0).Some?
    ensures DecodeFields(buf2, off + 1, s, 0) == DecodeFields(buf, off + 1, s, 0)
  {
    DecodeFieldsBounds(buf, off + 1, s, 0);
    var c := DecodeFields(buf, off + 1, s, 0).value.1;
    assert Agree(buf, off + 1, buf2, off + 1, c);
    FieldsFrame(buf, off + 1, s, 0, buf2, off + 1);
  }

  /**
    * A decoded struct is empty when its leading byte is 0; otherwise it holds each
    * schema key once and no other key.
    */
  lemma DecodedStructKeys(buf: Bytes, off: nat, s: Schema)
    requires s.Struct? && DecodeAt(buf, off, s).Some?
    ensures off < |buf| && DecodeAt(buf, off, s).value.0.Record?
    ensures var r := DecodeAt(buf, off, s).value.0.entries;
      DistinctKeys(r) &&
      (buf[off] == 0 ==> r == []) &&
      (buf[off] != 0 ==> forall k :: HasKey(r, k) <==> SchemaKey(s, k))
  {
    DecodeStructParts(buf, off, s);
    if buf[off] != 0 {
      var es := DecodeFields(buf, off + 1, s, 0).value.0;
      DecodeFieldsBounds(buf, off + 1, s, 0);
      ToRecordKeys(es);
      forall k
        ensures HasKey(es, k) <==> SchemaKey(s, k)
      {
        if HasKey(es, k) {
          var j :| 0 <= j < |es| && es[j].key == k;
          assert s.properties[j].key == k;
        }
        if SchemaKey(s, k) {
          var j :| 0 <= j < |s.properties| && s.properties[j].key == k;
          assert es[j].key == k;
        }
      }
    }
  }

  /** The map schema's `key` field plays no part in encoding. */
  lemma EncodeIgnoresMapKey(v: Value, k1: Bytes, k2: Bytes, t: Schema)
    ensures Encode(v, Map(k1, t)) == Encode(v, Map(k2, t))
  {
  }

  /** The map schema's `key` field plays no part in decoding. */
  lemma DecodeIgnoresMapKey(buf: Bytes, off: nat, k1: Bytes, k2: Bytes, t: Schema)
    ensures DecodeAt(buf, off, Map(k1, t)) == DecodeAt(buf, off, Map(k2, t))
  {
  }

  /**
    * Decoding a map reads all the announced pairs, counts the bytes of every one of
    * them, and assigns them in wire order: the object holds each key once, and a key
    * whose later occurrences are absent has the value of pair `i`, so a repeated key
    * keeps its last value.
    */
  lemma MapLastWins(buf: Bytes, off: nat, s: Schema, es: seq<Entry>, c: nat, i: nat)
    requires s.Map? && off < |buf| && buf[off] != 0
    requires DecodeEntries(buf, off + 1, buf[off], s.value) == Some((es, c))
    requires i < |es| && forall j | i < j < |es| :: es[j].key != es[i].key
    ensures DecodeAt(buf, off, s) == Some((Record(ToRecord(es)), 1 + c))
    ensures |es| == buf[off] && off + 1 + c <= |buf|
    ensures Get(ToRecord(es), es[i].key) == es[i].value
    ensures DistinctKeys(ToRecord(es))
    ensures forall k :: HasKey(ToRecord(es), k) <==> HasKey(es, k)
  {
    DecodeMapStep(buf, off, s, es, c);
    DecodeEntriesBounds(buf, off + 1, buf[off], s.value);
    ToRecordLastWins(es, i);
    ToRecordKeys(es);
  }
}
