/**
  * Behaviour that follows from JavaScript and `Buffer` semantics rather than from an
  * explicit rule: absent values and the one-byte length and count prefixes.
  */
module Quirks {
  import opened Utils
  import opened Wrappers
  import opened Types
  import opened Numbers
  import opened Encoder
  import opened Decoder
  import opened RoundTrip

  /** What an absent value decodes to under each node: false, 0, or an empty string, array or object. */
  function Empty(s: Schema): Value
  {
    match s
    case Bool => Boolean(false)
    case Number(_) => Integer(0)
    case String => Text([])
    case Array(_) => List([])
    case Struct(_) => Record([])
    case Map(_, _) => Record([])
  }

  /**
    * `undefined` under any node encodes: as the single byte 0, or for a number as the
    * kind's width of zero bytes (every comparison in `checkRange` is false, and every
    * mask of `undefined` is 0).
    */
  lemma AbsentEncoding(s: Schema)
    ensures Encode(Absent, s).Success?
    ensures !s.Number? ==> Encode(Absent, s).value == [0]
    ensures s.Number? ==> Encode(Absent, s).value == seq(Width(s.kind), _ => 0)
  {
    if s.Number? {
      ZeroBytes(Width(s.kind));
    }
  }

  /** An absent string, array or map encodes exactly as the empty one. */
  lemma AbsentLikeEmpty(k: Bytes, t: Schema)
    ensures Encode(Absent, String) == Encode(Text([]), String)
    ensures Encode(Absent, Array(t)) == Encode(List([]), Array(t))
    ensures Encode(Absent, Map(k, t)) == Encode(Record([]), Map(k, t))
  {
    assert Append([0], []) == [0];
  }

  /** The encoding of an absent value decodes to the empty value of the node. */
  lemma AbsentDecodesEmpty(s: Schema)
    ensures Encode(Absent, s).Success?
    ensures Decode(Encode(Absent, s).value, s) == Some((Empty(s), |Encode(Absent, s).value|))
  {
    AbsentEncoding(s);
    GeneralRoundTrip(Absent, s);
  }

  /**
    * Each prefix byte is the length or count modulo 256, as `Buffer.from([n])` keeps
    * it; a struct announces its schema's property count.
    */
  lemma CountBytes(v: Value, s: Schema)
    requires Encode(v, s).Success? && !v.Absent? && !s.Number? && !s.Bool?
    ensures |Encode(v, s).value| > 0
    ensures s.String? ==> Encode(v, s).value[0] == |v.bytes| % 0x100
    ensures s.Array? ==> Encode(v, s).value[0] == |v.items| % 0x100
    ensures s.Struct? ==> Encode(v, s).value[0] == |s.properties| % 0x100
    ensures s.Map? ==> Encode(v, s).value[0] == |v.entries| % 0x100
  {
  }

  /** A string of 256 bytes is announced as length 0 and reads back as the empty string. */
  lemma LongStringReadsEmpty(t: Bytes)
    requires |t| == 0x100
    ensures Encode(Text(t), String).Success?
    ensures |Encode(Text(t), String).value| == 0x101
    ensures Decode(Encode(Text(t), String).value, String) == Some((Text([]), 1))
  {
    var e := Encode(Text(t), String).value;
    assert e == [0] + t;
    assert e[0] == 0;
  }

  /** An array of 256 items is announced as count 0 and reads back as the empty array. */
  lemma LongArrayReadsEmpty(vs: seq<Value>, t: Schema)
    requires |vs| == 0x100 && Encode(List(vs), Array(t)).Success?
    ensures Decode(Encode(List(vs), Array(t)).value, Array(t)) == Some((List([]), 1))
  {
    var e := Encode(List(vs), Array(t)).value;
    assert e == [0] + EncodeItems(vs, t).value;
    assert e[0] == 0;
    assert DecodeArray(e, 0, t) == Some((List([]), 1));
  }
}
