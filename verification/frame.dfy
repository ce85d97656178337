/**
  * What the decoder reads. A successful decode at `off` that consumes `c` bytes
  * looks at those `c` bytes and at nothing else: any buffer holding the same `c`
  * bytes at any offset decodes to the same value. Hence trailing bytes are
  * ignored, and decoding at an offset is decoding the slice that starts there,
  * which is how the source passes `data.slice(offset)` to each nested `decode`.
  */
module Frame {
  import opened Utils
  import opened Wrappers
  import opened Types
  import opened Numbers
  import opened Decoder

  /** `buf2` holds from `off2` on the same `n` bytes that `buf` holds from `off` on. */
  predicate Agree(buf: Bytes, off: nat, buf2: Bytes, off2: nat, n: nat)
  {
    off + n <= |buf| && off2 + n <= |buf2| &&
    forall j | off <= j < off + n :: buf2[j - off + off2] == buf[j]
  }

  /** Agreement on a stretch gives agreement on every part of it. */
  lemma AgreeSub(buf: Bytes, off: nat, buf2: Bytes, off2: nat, n: nat, d: nat, m: nat)
    requires Agree(buf, off, buf2, off2, n) && d + m <= n
    ensures Agree(buf, off + d, buf2, off2 + d, m)
  {
    forall j | off + d <= j < off + d + m
      ensures buf2[j - (off + d) + (off2 + d)] == buf[j]
    {
      assert buf2[j - off + off2] == buf[j];
    }
  }

  lemma {:induction false} ReadBEFrame(buf: Bytes, off: nat, buf2: Bytes, off2: nat, w: nat)
    requires Agree(buf, off, buf2, off2, w)
    ensures ReadBE(buf2, off2, w) == ReadBE(buf, off, w)
  {
    if w > 0 {
      AgreeSub(buf, off, buf2, off2, w, 0, w - 1);
      ReadBEFrame(buf, off, buf2, off2, w - 1);
      assert buf2[off2 + w - 1] == buf[off + w - 1];
    }
  }

  lemma {:induction false} ReadBytesFrame(buf: Bytes, off: nat, buf2: Bytes, off2: nat, n: nat)
    requires Agree(buf, off, buf2, off2, n)
    ensures ReadBytes(buf2, off2, n) == ReadBytes(buf, off, n)
  {
    if n > 0 {
      AgreeSub(buf, off, buf2, off2, n, 0, n - 1);
      ReadBytesFrame(buf, off, buf2, off2, n - 1);
      assert buf2[off2 + n - 1] == buf[off + n - 1];
    }
  }

  /** A string read depends only on its length byte and the bytes it announces. */
  lemma StringFrame(buf: Bytes, off: nat, buf2: Bytes, off2: nat)
    requires DecodeString(buf, off).Some?
    requires Agree(buf, off, buf2, off2, DecodeString(buf, off).value.1)
    ensures DecodeString(buf2, off2) == DecodeString(buf, off)
  {
    assert buf2[off2] == buf[off];
    var n: nat := buf[off];
    AgreeSub(buf, off, buf2, off2, n + 1, 1, n);
    ReadBytesFrame(buf, off + 1, buf2, off2 + 1, n);
  }

  /**
    * The frame property of `decode`: a successful decode gives the same value and
    * length on any buffer that agrees on the consumed bytes.
    */
  lemma {:induction false} DecodeAtFrame(buf: Bytes, off: nat, s: Schema, buf2: Bytes, off2: nat)
    requires DecodeAt(buf, off, s).Some?
    requires Agree(buf, off, buf2, off2, DecodeAt(buf, off, s).value.1)
    ensures DecodeAt(buf2, off2, s) == DecodeAt(buf, off, s)
    decreases s, 2, 1
  {
    match s
    case Bool =>
      assert buf2[off2] == buf[off];
    case Number(k) =>
      ReadBEFrame(buf, off, buf2, off2, Width(k));
    case String =>
      StringFrame(buf, off, buf2, off2);
    case Array(t) => ArrayFrame(buf, off, t, buf2, off2);
    case Struct(_) => StructFrame(buf, off, s, buf2, off2);
    case Map(_, _) => MapFrame(buf, off, s, buf2, off2);
  }

  lemma {:induction false} ArrayFrame(buf: Bytes, off: nat, t: Schema, buf2: Bytes, off2: nat)
    requires DecodeAt(buf, off, Array(t)).Some?
    requires Agree(buf, off, buf2, off2, DecodeAt(buf, off, Array(t)).value.1)
    ensures DecodeAt(buf2, off2, Array(t)) == DecodeAt(buf, off, Array(t))
    decreases Array(t), 2, 0
  {
    DecodeArrayParts(buf, off, t);
    assert buf2[off2] == buf[off];
    if buf[off] != 0 {
      var (vs, c) := DecodeItems(buf, off + 1, buf[off], t).value;
      AgreeSub(buf, off, buf2, off2, 1 + c, 1, c);
      ItemsFrame(buf, off + 1, buf[off], t, buf2, off2 + 1);
      DecodeArrayStep(buf2, off2, t, vs, c);
    }
  }

  lemma {:induction false} StructFrame(buf: Bytes, off: nat, s: Schema, buf2: Bytes, off2: nat)
    requires s.Struct? && DecodeAt(buf, off, s).Some?
    requires Agree(buf, off, buf2, off2, DecodeAt(buf, off, s).value.1)
    ensures DecodeAt(buf2, off2, s) == DecodeAt(buf, off, s)
    decreases s, 2, 0
  {
    DecodeStructParts(buf, off, s);
    assert buf2[off2] == buf[off];
    if buf[off] != 0 {
      var (es, c) := DecodeFields(buf, off + 1, s, 0).value;
      AgreeSub(buf, off, buf2, off2, 1 + c, 1, c);
      FieldsFrame(buf, off + 1, s, 0, buf2, off2 + 1);
      DecodeStructStep(buf2, off2, s, es, c);
    }
  }

  lemma {:induction false} MapFrame(buf: Bytes, off: nat, s: Schema, buf2: Bytes, off2: nat)
    requires s.Map? && DecodeAt(buf, off, s).Some?
    requires Agree(buf, off, buf2, off2, DecodeAt(buf, off, s).value.1)
    ensures DecodeAt(buf2, off2, s) == DecodeAt(buf, off, s)
    decreases s, 2, 0
  {
    DecodeMapParts(buf, off, s);
    assert buf2[off2] == buf[off];
    if buf[off] != 0 {
      var (es, c) := DecodeEntries(buf, off + 1, buf[off], s.value).value;
      AgreeSub(buf, off, buf2, off2, 1 + c, 1, c);
      EntriesFrame(buf, off + 1, buf[off], s.value, buf2, off2 + 1);
      DecodeMapStep(buf2, off2, s, es, c);
    }
  }

  lemma {:induction false} ItemsFrame(buf: Bytes, off: nat, n: nat, t: Schema, buf2: Bytes, off2: nat)
    requires DecodeItems(buf, off, n, t).Some?
    requires Agree(buf, off, buf2, off2, DecodeItems(buf, off, n, t).value.1)
    ensures DecodeItems(buf2, off2, n, t) == DecodeItems(buf, off, n, t)
    decreases t, 3, n, 1
  {
    if n > 0 {
      DecodeItemsParts(buf, off, n, t);
      var (v, h) := DecodeAt(buf, off, t).value;
      var (vs, c) := DecodeItems(buf, off + h, n - 1, t).value;
      ItemsFrameCons(buf, off, n, t, buf2, off2, v, h, vs, c);
    }
  }

  lemma {:induction false} ItemsFrameCons(buf: Bytes, off: nat, n: nat, t: Schema, buf2: Bytes, off2: nat,
                                          v: Value, h: nat, vs: seq<Value>, c: nat)
    requires n > 0
    requires DecodeAt(buf, off, t) == Some((v, h))
    requires DecodeItems(buf, off + h, n - 1, t) == Some((vs, c))
    requires Agree(buf, off, buf2, off2, h + c)
    ensures DecodeItems(buf2, off2, n, t) == Some(([v] + vs, h + c))
    decreases t, 3, n, 0
  {
    AgreeSub(buf, off, buf2, off2, h + c, 0, h);
    AgreeSub(buf, off, buf2, off2, h + c, h, c);
    DecodeAtFrame(buf, off, t, buf2, off2);
    ItemsFrame(buf, off + h, n - 1, t, buf2, off2 + h);
    DecodeItemsStep(buf2, off2, n, t, v, h, vs, c);
  }

  lemma {:induction false} FieldsFrame(buf: Bytes, off: nat, s: Schema, i: nat, buf2: Bytes, off2: nat)
    requires s.Struct? && i <= |s.properties| && DecodeFields(buf, off, s, i).Some?
    requires Agree(buf, off, buf2, off2, DecodeFields(buf, off, s, i).value.1)
    ensures DecodeFields(buf2, off2, s, i) == DecodeFields(buf, off, s, i)
    decreases s, 1, |s.properties| - i, 1
  {
    if i < |s.properties| {
      DecodeFieldsParts(buf, off, s, i);
      var (v, h) := DecodeAt(buf, off, s.properties[i].schema).value;
      var (es, c) := DecodeFields(buf, off + h, s, i + 1).value;
      FieldsFrameCons(buf, off, s, i, buf2, off2, v, h, es, c);
    }
  }

  lemma {:induction false} FieldsFrameCons(buf: Bytes, off: nat, s: Schema, i: nat, buf2: Bytes, off2: nat,
                                           v: Value, h: nat, es: seq<Entry>, c: nat)
    requires s.Struct? && i < |s.properties|
    requires DecodeAt(buf, off, s.properties[i].schema) == Some((v, h))
    requires DecodeFields(buf, off + h, s, i + 1) == Some((es, c))
    requires Agree(buf, off, buf2, off2, h + c)
    ensures DecodeFields(buf2, off2, s, i) == Some(([Entry(s.properties[i].key, v)] + es, h + c))
    decreases s, 1, |s.properties| - i, 0
  {
    AgreeSub(buf, off, buf2, off2, h + c, 0, h);
    AgreeSub(buf, off, buf2, off2, h + c, h, c);
    DecodeAtFrame(buf, off, s.properties[i].schema, buf2, off2);
    FieldsFrame(buf, off + h, s, i + 1, buf2, off2 + h);
    DecodeFieldsStep(buf2, off2, s, i, v, h, es, c);
  }

  lemma {:induction false} PairFrame(buf: Bytes, off: nat, t: Schema, buf2: Bytes, off2: nat)
    requires DecodePair(buf, off, t).Some?
    requires Agree(buf, off, buf2, off2, DecodePair(buf, off, t).value.1)
    ensures DecodePair(buf2, off2, t) == DecodePair(buf, off, t)
    decreases t, 3, 0
  {
    DecodePairParts(buf, off, t);
    var (k, h) := DecodeString(buf, off).value;
    var (v, c) := DecodeAt(buf, off + h, t).value;
    AgreeSub(buf, off, buf2, off2, h + c, 0, h);
    AgreeSub(buf, off, buf2, off2, h + c, h, c);
    StringFrame(buf, off, buf2, off2);
    DecodeAtFrame(buf, off + h, t, buf2, off2 + h);
    DecodePairStep(buf2, off2, t, k, h, v, c);
  }

  lemma {:induction false} EntriesFrame(buf: Bytes, off: nat, n: nat, t: Schema, buf2: Bytes, off2: nat)
    requires DecodeEntries(buf, off, n, t).Some?
    requires Agree(buf, off, buf2, off2, DecodeEntries(buf, off, n, t).value.1)
    ensures DecodeEntries(buf2, off2, n, t) == DecodeEntries(buf, off, n, t)
    decreases t, 4, n, 1
  {
    if n > 0 {
      DecodeEntriesParts(buf, off, n, t);
      var (e, h) := DecodePair(buf, off, t).value;
      var (es, c) := DecodeEntries(buf, off + h, n - 1, t).value;
      EntriesFrameCons(buf, off, n, t, buf2, off2, e, h, es, c);
    }
  }

  lemma {:induction false} EntriesFrameCons(buf: Bytes, off: nat, n: nat, t: Schema, buf2: Bytes, off2: nat,
                                            e: Entry, h: nat, es: seq<Entry>, c: nat)
    requires n > 0
    requires DecodePair(buf, off, t) == Some((e, h))
    requires DecodeEntries(buf, off + h, n - 1, t) == Some((es, c))
    requires Agree(buf, off, buf2, off2, h + c)
    ensures DecodeEntries(buf2, off2, n, t) == Some(([e] + es, h + c))
    decreases t, 4, n, 0
  {
    EntriesFrameHead(buf, off, t, buf2, off2, e, h, c);
    EntriesFrameTail(buf, off, n, t, buf2, off2, e, h, es, c);
  }

  /** Once the first pair reads alike, the remaining pairs of the run do too. */
  lemma {:induction false} EntriesFrameTail(buf: Bytes, off: nat, n: nat, t: Schema, buf2: Bytes, off2: nat,
                                            e: Entry, h: nat, es: seq<Entry>, c: nat)
    requires n > 0
    requires DecodePair(buf2, off2, t) == Some((e, h))
    requires DecodeEntries(buf, off + h, n - 1, t) == Some((es, c))
    requires Agree(buf, off + h, buf2, off2 + h, c)
    ensures DecodeEntries(buf2, off2, n, t) == Some(([e] + es, h + c))
    decreases t, 4, n - 1, 2
  {
    EntriesFrame(buf, off + h, n - 1, t, buf2, off2 + h);
    DecodeEntriesStep(buf2, off2, n, t, e, h, es, c);
  }

  /** The first pair of a run reads alike in both buffers, and the rest still agrees. */
  lemma {:induction false} EntriesFrameHead(buf: Bytes, off: nat, t: Schema, buf2: Bytes, off2: nat,
                                            e: Entry, h: nat, c: nat)
    requires DecodePair(buf, off, t) == Some((e, h))
    requires Agree(buf, off, buf2, off2, h + c)
    ensures DecodePair(buf2, off2, t) == Some((e, h))
    ensures Agree(buf, off + h, buf2, off2 + h, c)
    decreases t, 3, 1
  {
    AgreeSub(buf, off, buf2, off2, h + c, 0, h);
    AgreeSub(buf, off, buf2, off2, h + c, h, c);
    PairFrame(buf, off, t, buf2, off2);
  }

  /** Bytes after the decoded value change nothing. */
  lemma DecodeIgnoresTrailingBytes(buf: Bytes, extra: Bytes, s: Schema)
    requires Decode(buf, s).Some?
    ensures Decode(buf + extra, s) == Decode(buf, s)
  {
    var c := Decode(buf, s).value.1;
    DecodeAtBounds(buf, 0, s);
    assert Agree(buf, 0, buf + extra, 0, c) by {
      assert forall j | 0 <= j < c :: (buf + extra)[j] == buf[j];
    }
    DecodeAtFrame(buf, 0, s, buf + extra, 0);
  }

  /** The consumed prefix alone decodes to the same value. */
  lemma DecodeReadsOnlyConsumed(buf: Bytes, s: Schema)
    requires Decode(buf, s).Some?
    ensures Decode(buf, s).value.1 <= |buf|
    ensures Decode(buf[..Decode(buf, s).value.1], s) == Decode(buf, s)
  {
    var c := Decode(buf, s).value.1;
    DecodeAtBounds(buf, 0, s);
    var pre := buf[..c];
    assert Agree(buf, 0, pre, 0, c) by {
      assert forall j | 0 <= j < c :: pre[j] == buf[j];
    }
    DecodeAtFrame(buf, 0, s, pre, 0);
  }

  /**
    * Decoding at an offset is decoding the slice that starts there, failures
    * included: the offset-based decoder is the source's `decode(data.slice(offset))`.
    */
  lemma DecodeAtIsSlice(buf: Bytes, off: nat, s: Schema)
    requires off <= |buf|
    ensures DecodeAt(buf, off, s) == Decode(buf[off..], s)
  {
    var rest := buf[off..];
    if DecodeAt(buf, off, s).Some? {
      var c := DecodeAt(buf, off, s).value.1;
      DecodeAtBounds(buf, off, s);
      assert Agree(buf, off, rest, 0, c) by {
        assert forall j | off <= j < off + c :: rest[j - off] == buf[j];
      }
      DecodeAtFrame(buf, off, s, rest, 0);
    } else if Decode(rest, s).Some? {
      var c := Decode(rest, s).value.1;
      DecodeAtBounds(rest, 0, s);
      assert Agree(rest, 0, buf, off, c) by {
        assert forall j | 0 <= j < c :: buf[j - 0 + off] == rest[j];
      }
      DecodeAtFrame(rest, 0, s, buf, off);
    }
  }
}
