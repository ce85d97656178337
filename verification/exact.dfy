/**
  * The exact round trip. A faithful value has every part present, no number that
  * the codec loses (the most negative signed value, a uint32 at or above 2^31),
  * no length or count above 255, struct entries that are exactly the schema's
  * properties in schema order, and map keys that do not repeat. For such a value
  * the canonical form is the value itself, so decoding its encoding gives it back.
  */
module Exact {
  import opened Utils
  import opened Wrappers
  import opened Types
  import opened Objects
  import opened Numbers
  import opened Encoder
  import opened Decoder
  import opened RoundTrip
  import opened Frame

  predicate Faithful(v: Value, s: Schema)
    decreases s, 2, 0
  {
    match s
    case Bool => v.Boolean?
    case Number(k) => v.Integer? && InRange(k, v.n) && !Lossy(k, v.n)
    case String => v.Text? && |v.bytes| <= 0xFF
    case Array(t) => v.List? && |v.items| <= 0xFF && ItemsFaithful(v.items, t)
    case Struct(props) =>
      v.Record? && |props| <= 0xFF && |v.entries| == |props| && DistinctKeys(v.entries) &&
      FieldsFaithful(v.entries, s, 0)
    case Map(_, t) =>
      v.Record? && |v.entries| <= 0xFF && DistinctKeys(v.entries) && EntriesFaithful(v.entries, t)
  }

  predicate ItemsFaithful(vs: seq<Value>, t: Schema)
    decreases t, 3, |vs|
  {
    |vs| == 0 || (Faithful(vs[0], t) && ItemsFaithful(vs[1..], t))
  }

  /** Entry `i` on carries the key of property `i` and a faithful value for its schema. */
  predicate FieldsFaithful(es: seq<Entry>, s: Schema, i: nat)
    requires s.Struct? && i <= |s.properties| && |es| == |s.properties|
    decreases s, 1, |s.properties| - i
  {
    i == |s.properties| ||
    (es[i].key == s.properties[i].key && Faithful(es[i].value, s.properties[i].schema) &&
     FieldsFaithful(es, s, i + 1))
  }

  predicate EntriesFaithful(es: seq<Entry>, t: Schema)
    decreases t, 4, |es|
  {
    |es| == 0 || (|es[0].key| <= 0xFF && Faithful(es[0].value, t) && EntriesFaithful(es[1..], t))
  }

  /** A faithful value encodes, its counts fit, and it is its own canonical form. */
  lemma {:induction false} FaithfulCanon(v: Value, s: Schema)
    requires Faithful(v, s)
    ensures Encode(v, s).Success? && CountsFit(v, s) && Canon(v, s) == v
    decreases s, 2, 0
  {
    match s
    case Bool =>
    case Number(k) =>
    case String =>
    case Array(t) =>
      ItemsFaithfulCanon(v.items, t);
    case Struct(props) =>
      FieldsFaithfulCanon(v.entries, s, 0);
      assert v.entries[0..] == v.entries;
      ToRecordDistinct(v.entries);
    case Map(_, t) =>
      EntriesFaithfulCanon(v.entries, t);
      ToRecordDistinct(v.entries);
  }

  lemma {:induction false} ItemsFaithfulCanon(vs: seq<Value>, t: Schema)
    requires ItemsFaithful(vs, t)
    ensures EncodeItems(vs, t).Success? && ItemsFit(vs, t) && CanonItems(vs, t) == vs
    decreases t, 3, |vs|
  {
    if |vs| > 0 {
      FaithfulCanon(vs[0], t);
      ItemsFaithfulCanon(vs[1..], t);
      assert vs == [vs[0]] + vs[1..];
    }
  }

  lemma {:induction false} FieldsFaithfulCanon(es: seq<Entry>, s: Schema, i: nat)
    requires s.Struct? && i <= |s.properties| && |es| == |s.properties|
    requires DistinctKeys(es) && FieldsFaithful(es, s, i)
    ensures EncodeFields(es, s, i).Success? && FieldsFit(es, s, i) && CanonFields(es, s, i) == es[i..]
    decreases s, 1, |s.properties| - i
  {
    if i < |s.properties| {
      GetDistinct(es, i);
      FaithfulCanon(es[i].value, s.properties[i].schema);
      FieldsFaithfulCanon(es, s, i + 1);
      assert es[i..] == [es[i]] + es[i + 1..];
    }
  }

  lemma {:induction false} EntriesFaithfulCanon(es: seq<Entry>, t: Schema)
    requires EntriesFaithful(es, t)
    ensures EncodeEntries(es, t).Success? && EntriesFit(es, t) && CanonEntries(es, t) == es
    decreases t, 4, |es|
  {
    if |es| > 0 {
      FaithfulCanon(es[0].value, t);
      EntriesFaithfulCanon(es[1..], t);
      assert es == [es[0]] + es[1..];
    }
  }

  /**
    * `decode(encode(v, s), s)` returns `v` itself and the whole length, for every
    * faithful value.
    */
  lemma ExactRoundTrip(v: Value, s: Schema)
    requires Faithful(v, s)
    ensures Encode(v, s).Success?
    ensures Decode(Encode(v, s).value, s) == Some((v, |Encode(v, s).value|))
  {
    FaithfulCanon(v, s);
    GeneralRoundTrip(v, s);
  }

  /** The same with anything after the encoding, as when several values are sent back to back. */
  lemma ExactRoundTripWithTrailing(v: Value, s: Schema, rest: Bytes)
    requires Faithful(v, s)
    ensures Encode(v, s).Success?
    ensures Decode(Encode(v, s).value + rest, s) == Some((v, |Encode(v, s).value|))
  {
    ExactRoundTrip(v, s);
    DecodeIgnoresTrailingBytes(Encode(v, s).value, rest, s);
  }
}
