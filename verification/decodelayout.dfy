/**
  * The decoder's loops in closed form. A loop reads its elements one after another, so
  * element `j` is read at the loop's first offset plus the bytes the first `j` elements
  * consumed, and the loop consumes the sum of every element's bytes.
  */
module DecodeLayout {
  import opened Utils
  import opened Wrappers
  import opened Types
  import opened Objects
  import opened Decoder

  /** A reader of the element with index `j` at offset `o`: the element and its byte count. */
  type Reader<T> = (nat, nat) -> Option<(T, nat)>

  /** The sum of a sequence of byte counts. */
  function Sum(cs: seq<nat>): nat
  {
    if |cs| == 0 then 0 else cs[0] + Sum(cs[1..])
  }

  /** Summing a prefix of `[c] + cs` is `c` plus summing the shorter prefix of `cs`. */
  lemma SumPrefixCons(c: nat, cs: seq<nat>, j: nat)
    requires 1 <= j <= |cs| + 1
    ensures Sum(([c] + cs)[..j]) == c + Sum(cs[..j - 1])
  {
    assert ([c] + cs)[..j] == [c] + cs[..j - 1];
    assert ([c] + cs[..j - 1])[1..] == cs[..j - 1];
  }

  /** Summing `[c] + cs` adds `c` to the sum of `cs`. */
  lemma SumCons(c: nat, cs: seq<nat>)
    ensures Sum([c] + cs) == c + Sum(cs)
  {
    assert ([c] + cs)[1..] == cs;
  }

  /**
    * The byte counts of up to `n` reads with indices `i`, `i + 1`, … from `off`, each
    * read starting where the previous one ended; the list stops at the first read that fails.
    */
  function Sizes<T>(read: Reader<T>, off: nat, i: nat, n: nat): (cs: seq<nat>)
    ensures |cs| <= n
    decreases n
  {
    if n == 0 then []
    else
      match read(i, off)
      case None => []
      case Some((_, c)) => [c] + Sizes(read, off + c, i + 1, n - 1)
  }

  /**
    * `us` are the elements read along the chain of offsets that `cs` describes: read `j`
    * takes place at `off` plus the first `j` counts and gives `us[j]` in `cs[j]` bytes.
    */
  ghost predicate Chain<T>(read: Reader<T>, off: nat, i: nat, cs: seq<nat>, us: seq<T>)
  {
    |cs| == |us| &&
    forall j | 0 <= j < |cs| :: read(i + j, off + Sum(cs[..j])) == Some((us[j], cs[j]))
  }

  /** Read `j - 1` of the chain that starts after a first read of `c` bytes is read `j` of the whole chain. */
  lemma ChainShift<T>(read: Reader<T>, off: nat, i: nat, v: T, c: nat, cs: seq<nat>, us: seq<T>, j: nat)
    requires Chain(read, off + c, i + 1, cs, us)
    requires 1 <= j <= |cs|
    ensures read(i + j, off + Sum(([c] + cs)[..j])) == Some((([v] + us)[j], ([c] + cs)[j]))
  {
    assert read(i + 1 + (j - 1), off + c + Sum(cs[..j - 1])) == Some((us[j - 1], cs[j - 1]));
    SumPrefixCons(c, cs, j);
  }

  /** A first read of `c` bytes followed by a chain from where it ended is a chain. */
  lemma ChainCons<T>(read: Reader<T>, off: nat, i: nat, v: T, c: nat, cs: seq<nat>, us: seq<T>)
    requires read(i, off) == Some((v, c))
    requires Chain(read, off + c, i + 1, cs, us)
    ensures Chain(read, off, i, [c] + cs, [v] + us)
  {
    forall j | 0 <= j < |cs| + 1
      ensures read(i + j, off + Sum(([c] + cs)[..j])) == Some((([v] + us)[j], ([c] + cs)[j]))
    {
      if j == 0 {
        assert ([c] + cs)[..0] == [];
      } else {
        ChainShift(read, off, i, v, c, cs, us, j);
      }
    }
  }

  /**
    * The loop the decoder runs for a container: `n` reads with indices `i`, `i + 1`, …,
    * each starting where the previous one ended, giving the elements and their total size.
    */
  function Run<T>(read: Reader<T>, off: nat, i: nat, n: nat): Option<(seq<T>, nat)>
    decreases n
  {
    if n == 0 then Some(([], 0))
    else
      match read(i, off)
      case None => None
      case Some((v, c)) =>
        match Run(read, off + c, i + 1, n - 1)
        case None => None
        case Some((vs, c')) => Some(([v] + vs, c + c'))
  }

  /**
    * The loop succeeds exactly when all `n` reads along the chain succeed; it then gives
    * element `j` as read at `off` plus the sizes of the first `j`, and consumes their sum.
    */
  lemma {:induction false} RunChain<T>(read: Reader<T>, off: nat, i: nat, n: nat)
    ensures Run(read, off, i, n).Some? ==>
      var (vs, c) := Run(read, off, i, n).value;
      var cs := Sizes(read, off, i, n);
      |cs| == n && c == Sum(cs) && Chain(read, off, i, cs, vs)
    ensures |Sizes(read, off, i, n)| == n ==> Run(read, off, i, n).Some?
    decreases n
  {
    if n > 0 {
      match read(i, off)
      case None =>
      case Some((v, c)) =>
        var tail := Sizes(read, off + c, i + 1, n - 1);
        assert Sizes(read, off, i, n) == [c] + tail;
        RunChain(read, off + c, i + 1, n - 1);
        match Run(read, off + c, i + 1, n - 1)
        case None =>
        case Some((vs, c')) =>
          assert Run(read, off, i, n) == Some(([v] + vs, c + c'));
          ChainCons(read, off, i, v, c, tail, vs);
          SumCons(c, tail);
    }
  }

  /** An array item: every item is decoded with the same schema `t`. */
  function ItemReader(buf: Bytes, t: Schema): Reader<Value>
  {
    (j: nat, o: nat) => DecodeAt(buf, o, t)
  }

  /** Struct property `j`, decoded with its own schema and paired with its key. */
  function FieldReader(buf: Bytes, props: seq<Property>): Reader<Entry>
  {
    (j: nat, o: nat) =>
      if j < |props| then
        match DecodeAt(buf, o, props[j].schema)
        case Some((v, c)) => Some((Entry(props[j].key, v), c))
        case None => None
      else None
  }

  /** A map entry: a key and a value decoded with `t`. */
  function PairReader(buf: Bytes, t: Schema): Reader<Entry>
  {
    (j: nat, o: nat) => DecodePair(buf, o, t)
  }

  /** The array loop is the generic loop reading items. */
  lemma {:induction false} ItemsAsRun(buf: Bytes, off: nat, n: nat, t: Schema, i: nat)
    ensures DecodeItems(buf, off, n, t) == Run(ItemReader(buf, t), off, i, n)
    decreases n
  {
    if n > 0 {
      match DecodeAt(buf, off, t)
      case None =>
        ItemsFirstFails(buf, off, n, t, i);
      case Some((v, c)) =>
        ItemsAsRun(buf, off + c, n - 1, t, i + 1);
        ItemsCons(buf, off, n, t, i, v, c);
    }
  }

  /** When the first item fails, both the array loop and the generic loop fail. */
  lemma ItemsFirstFails(buf: Bytes, off: nat, n: nat, t: Schema, i: nat)
    requires n > 0 && DecodeAt(buf, off, t).None?
    ensures DecodeItems(buf, off, n, t) == Run(ItemReader(buf, t), off, i, n) == None
  {
    assert ItemReader(buf, t)(i, off).None?;
  }

  /** After a first item of `c` bytes, the array loop and the generic loop agree if they agree from there on. */
  lemma ItemsCons(buf: Bytes, off: nat, n: nat, t: Schema, i: nat, v: Value, c: nat)
    requires n > 0 && DecodeAt(buf, off, t) == Some((v, c))
    requires DecodeItems(buf, off + c, n - 1, t) == Run(ItemReader(buf, t), off + c, i + 1, n - 1)
    ensures DecodeItems(buf, off, n, t) == Run(ItemReader(buf, t), off, i, n)
  {
    assert ItemReader(buf, t)(i, off) == Some((v, c));
    match DecodeItems(buf, off + c, n - 1, t)
    case None =>
      ItemsRestFails(buf, off, n, t, v, c);
    case Some((vs, c')) =>
      DecodeItemsStep(buf, off, n, t, v, c, vs, c');
  }

  /** When the items after the first fail, the array loop fails. */
  lemma ItemsRestFails(buf: Bytes, off: nat, n: nat, t: Schema, v: Value, c: nat)
    requires n > 0 && DecodeAt(buf, off, t) == Some((v, c))
    requires DecodeItems(buf, off + c, n - 1, t).None?
    ensures DecodeItems(buf, off, n, t).None?
  {
    if DecodeItems(buf, off, n, t).Some? {
      DecodeItemsParts(buf, off, n, t);
    }
  }

  /** The struct loop from property `i` on is the generic loop reading the remaining properties. */
  lemma {:induction false} FieldsAsRun(buf: Bytes, off: nat, props: seq<Property>, i: nat)
    requires i <= |props|
    ensures DecodeFields(buf, off, Struct(props), i) == Run(FieldReader(buf, props), off, i, |props| - i)
    decreases |props| - i
  {
    if i < |props| {
      match DecodeAt(buf, off, props[i].schema)
      case None =>
        FieldsFirstFails(buf, off, props, i);
      case Some((v, c)) =>
        FieldsAsRun(buf, off + c, props, i + 1);
        FieldsCons(buf, off, props, i, v, c);
    }
  }

  /** When property `i` fails, both the struct loop and the generic loop fail. */
  lemma FieldsFirstFails(buf: Bytes, off: nat, props: seq<Property>, i: nat)
    requires i < |props| && DecodeAt(buf, off, props[i].schema).None?
    ensures DecodeFields(buf, off, Struct(props), i) == Run(FieldReader(buf, props), off, i, |props| - i) == None
  {
    assert FieldReader(buf, props)(i, off).None?;
  }

  /** After property `i` takes `c` bytes, the two loops agree if they agree from there on. */
  lemma FieldsCons(buf: Bytes, off: nat, props: seq<Property>, i: nat, v: Value, c: nat)
    requires i < |props| && DecodeAt(buf, off, props[i].schema) == Some((v, c))
    requires DecodeFields(buf, off + c, Struct(props), i + 1) ==
      Run(FieldReader(buf, props), off + c, i + 1, |props| - (i + 1))
    ensures DecodeFields(buf, off, Struct(props), i) == Run(FieldReader(buf, props), off, i, |props| - i)
  {
    var read := FieldReader(buf, props);
    assert read(i, off) == Some((Entry(props[i].key, v), c));
    match DecodeFields(buf, off + c, Struct(props), i + 1)
    case None =>
      FieldsRestFails(buf, off, props, i, v, c);
    case Some((es, c')) =>
      DecodeFieldsStep(buf, off, Struct(props), i, v, c, es, c');
  }

  /** When the properties after `i` fail, the struct loop from `i` fails. */
  lemma FieldsRestFails(buf: Bytes, off: nat, props: seq<Property>, i: nat, v: Value, c: nat)
    requires i < |props| && DecodeAt(buf, off, props[i].schema) == Some((v, c))
    requires DecodeFields(buf, off + c, Struct(props), i + 1).None?
    ensures DecodeFields(buf, off, Struct(props), i).None?
  {
    if DecodeFields(buf, off, Struct(props), i).Some? {
      DecodeFieldsParts(buf, off, Struct(props), i);
    }
  }

  /** The map loop is the generic loop reading key-value pairs. */
  lemma {:induction false} EntriesAsRun(buf: Bytes, off: nat, n: nat, t: Schema, i: nat)
    ensures DecodeEntries(buf, off, n, t) == Run(PairReader(buf, t), off, i, n)
    decreases n
  {
    if n > 0 {
      match DecodePair(buf, off, t)
      case None =>
        EntriesFirstFails(buf, off, n, t, i);
      case Some((e, c)) =>
        EntriesAsRun(buf, off + c, n - 1, t, i + 1);
        EntriesCons(buf, off, n, t, i, e, c);
    }
  }

  /** When the first pair fails, both the map loop and the generic loop fail. */
  lemma EntriesFirstFails(buf: Bytes, off: nat, n: nat, t: Schema, i: nat)
    requires n > 0 && DecodePair(buf, off, t).None?
    ensures DecodeEntries(buf, off, n, t) == Run(PairReader(buf, t), off, i, n) == None
  {
    assert PairReader(buf, t)(i, off).None?;
  }

  /** After a first pair of `c` bytes, the two loops agree if they agree from there on. */
  lemma EntriesCons(buf: Bytes, off: nat, n: nat, t: Schema, i: nat, e: Entry, c: nat)
    requires n > 0 && DecodePair(buf, off, t) == Some((e, c))
    requires DecodeEntries(buf, off + c, n - 1, t) == Run(PairReader(buf, t), off + c, i + 1, n - 1)
    ensures DecodeEntries(buf, off, n, t) == Run(PairReader(buf, t), off, i, n)
  {
    assert PairReader(buf, t)(i, off) == Some((e, c));
    match DecodeEntries(buf, off + c, n - 1, t)
    case None =>
      EntriesRestFails(buf, off, n, t, e, c);
    case Some((es, c')) =>
      DecodeEntriesStep(buf, off, n, t, e, c, es, c');
  }

  /** When the pairs after the first fail, the map loop fails. */
  lemma EntriesRestFails(buf: Bytes, off: nat, n: nat, t: Schema, e: Entry, c: nat)
    requires n > 0 && DecodePair(buf, off, t) == Some((e, c))
    requires DecodeEntries(buf, off + c, n - 1, t).None?
    ensures DecodeEntries(buf, off, n, t).None?
  {
    if DecodeEntries(buf, off, n, t).Some? {
      DecodeEntriesParts(buf, off, n, t);
    }
  }

  /** Item `j` of `vs` is decoded with `t` at `off` plus the sizes of the items before it, in `cs[j]` bytes. */
  ghost predicate ItemsAt(buf: Bytes, off: nat, t: Schema, cs: seq<nat>, vs: seq<Value>)
  {
    |vs| == |cs| &&
    forall j | 0 <= j < |cs| :: DecodeAt(buf, off + Sum(cs[..j]), t) == Some((vs[j], cs[j]))
  }

  /**
    * Entry `j` of `es` has the key of property `j` and its value decoded with that property's
    * schema at `off` plus the sizes of the properties before it, in `cs[j]` bytes.
    */
  ghost predicate FieldsAt(buf: Bytes, off: nat, props: seq<Property>, cs: seq<nat>, es: seq<Entry>)
  {
    |es| == |cs| == |props| &&
    forall j | 0 <= j < |cs| ::
      es[j].key == props[j].key &&
      DecodeAt(buf, off + Sum(cs[..j]), props[j].schema) == Some((es[j].value, cs[j]))
  }

  /** Entry `j` of `es` is the key-value pair read at `off` plus the sizes of the pairs before it, in `cs[j]` bytes. */
  ghost predicate PairsAt(buf: Bytes, off: nat, t: Schema, cs: seq<nat>, es: seq<Entry>)
  {
    |es| == |cs| &&
    forall j | 0 <= j < |cs| :: DecodePair(buf, off + Sum(cs[..j]), t) == Some((es[j], cs[j]))
  }

  lemma ItemsChain(buf: Bytes, off: nat, t: Schema, cs: seq<nat>, vs: seq<Value>)
    requires Chain(ItemReader(buf, t), off, 0, cs, vs)
    ensures ItemsAt(buf, off, t, cs, vs)
  {
    forall j | 0 <= j < |cs|
      ensures DecodeAt(buf, off + Sum(cs[..j]), t) == Some((vs[j], cs[j]))
    {
      assert ItemReader(buf, t)(0 + j, off + Sum(cs[..j])) == Some((vs[j], cs[j]));
    }
  }

  lemma FieldsChain(buf: Bytes, off: nat, props: seq<Property>, cs: seq<nat>, es: seq<Entry>)
    requires Chain(FieldReader(buf, props), off, 0, cs, es)
    requires |cs| == |props|
    ensures FieldsAt(buf, off, props, cs, es)
  {
    forall j | 0 <= j < |cs|
      ensures es[j].key == props[j].key
      ensures DecodeAt(buf, off + Sum(cs[..j]), props[j].schema) == Some((es[j].value, cs[j]))
    {
      assert FieldReader(buf, props)(0 + j, off + Sum(cs[..j])) == Some((es[j], cs[j]));
    }
  }

  lemma EntriesChain(buf: Bytes, off: nat, t: Schema, cs: seq<nat>, es: seq<Entry>)
    requires Chain(PairReader(buf, t), off, 0, cs, es)
    ensures PairsAt(buf, off, t, cs, es)
  {
    forall j | 0 <= j < |cs|
      ensures DecodePair(buf, off + Sum(cs[..j]), t) == Some((es[j], cs[j]))
    {
      assert PairReader(buf, t)(0 + j, off + Sum(cs[..j])) == Some((es[j], cs[j]));
    }
  }

  /**
    * The array loop in closed form: it succeeds exactly when its `n` item reads do, item `j`
    * is read at `off` plus the sizes of the items before it, and it consumes their sum.
    */
  lemma ItemsLayout(buf: Bytes, off: nat, n: nat, t: Schema)
    ensures |Sizes(ItemReader(buf, t), off, 0, n)| == n ==> DecodeItems(buf, off, n, t).Some?
    ensures DecodeItems(buf, off, n, t).Some? ==>
      var cs := Sizes(ItemReader(buf, t), off, 0, n);
      var (vs, c) := DecodeItems(buf, off, n, t).value;
      |cs| == n && c == Sum(cs) && ItemsAt(buf, off, t, cs, vs)
  {
    ItemsAsRun(buf, off, n, t, 0);
    RunChain(ItemReader(buf, t), off, 0, n);
    if DecodeItems(buf, off, n, t).Some? {
      ItemsChain(buf, off, t, Sizes(ItemReader(buf, t), off, 0, n), DecodeItems(buf, off, n, t).value.0);
    }
  }

  /**
    * The struct loop in closed form: it succeeds exactly when every property's read does,
    * property `j` is read with its own schema at `off` plus the sizes of the properties
    * before it and keyed by its own key, and the loop consumes their sum.
    */
  lemma FieldsLayout(buf: Bytes, off: nat, props: seq<Property>)
    ensures |Sizes(FieldReader(buf, props), off, 0, |props|)| == |props| ==>
      DecodeFields(buf, off, Struct(props), 0).Some?
    ensures DecodeFields(buf, off, Struct(props), 0).Some? ==>
      var cs := Sizes(FieldReader(buf, props), off, 0, |props|);
      var (es, c) := DecodeFields(buf, off, Struct(props), 0).value;
      |cs| == |props| && c == Sum(cs) && FieldsAt(buf, off, props, cs, es)
  {
    FieldsAsRun(buf, off, props, 0);
    RunChain(FieldReader(buf, props), off, 0, |props|);
    if DecodeFields(buf, off, Struct(props), 0).Some? {
      FieldsChain(buf, off, props, Sizes(FieldReader(buf, props), off, 0, |props|),
        DecodeFields(buf, off, Struct(props), 0).value.0);
    }
  }

  /**
    * The map loop in closed form: it succeeds exactly when its `n` pair reads do, pair `j`
    * is read at `off` plus the sizes of the pairs before it, and it consumes their sum.
    */
  lemma EntriesLayout(buf: Bytes, off: nat, n: nat, t: Schema)
    ensures |Sizes(PairReader(buf, t), off, 0, n)| == n ==> DecodeEntries(buf, off, n, t).Some?
    ensures DecodeEntries(buf, off, n, t).Some? ==>
      var cs := Sizes(PairReader(buf, t), off, 0, n);
      var (es, c) := DecodeEntries(buf, off, n, t).value;
      |cs| == n && c == Sum(cs) && PairsAt(buf, off, t, cs, es)
  {
    EntriesAsRun(buf, off, n, t, 0);
    RunChain(PairReader(buf, t), off, 0, n);
    if DecodeEntries(buf, off, n, t).Some? {
      EntriesChain(buf, off, t, Sizes(PairReader(buf, t), off, 0, n), DecodeEntries(buf, off, n, t).value.0);
    }
  }

  /**
    * `decodeArray` in closed form. A leading 0 is the empty array in one byte. A count byte
    * `n` is followed by `n` items read one after another: the array decodes exactly when all
    * `n` reads succeed, item `j` is the read at `off + 1` plus the sizes of the items before
    * it, and the array takes the count byte and all the items.
    */
  lemma DecodeArrayLayout(buf: Bytes, off: nat, t: Schema)
    ensures off < |buf| && buf[off] == 0 ==> DecodeAt(buf, off, Array(t)) == Some((List([]), 1))
    ensures off < |buf| && buf[off] != 0 && |Sizes(ItemReader(buf, t), off + 1, 0, buf[off])| == buf[off] ==>
      DecodeAt(buf, off, Array(t)).Some?
    ensures off < |buf| && buf[off] != 0 && DecodeAt(buf, off, Array(t)).Some? ==>
      var cs := Sizes(ItemReader(buf, t), off + 1, 0, buf[off]);
      var (v, c) := DecodeAt(buf, off, Array(t)).value;
      |cs| == buf[off] && v.List? && c == 1 + Sum(cs) && ItemsAt(buf, off + 1, t, cs, v.items)
  {
    if off < |buf| && buf[off] != 0 {
      ItemsLayout(buf, off + 1, buf[off], t);
      if DecodeItems(buf, off + 1, buf[off], t).Some? {
        var (vs, c) := DecodeItems(buf, off + 1, buf[off], t).value;
        DecodeArrayStep(buf, off, t, vs, c);
      } else if DecodeAt(buf, off, Array(t)).Some? {
        DecodeArrayParts(buf, off, t);
      }
    }
  }

  /**
    * `decodeStruct` in closed form. A leading 0 is the empty object in one byte. Any other
    * leading byte is followed by every property in schema order: the object decodes exactly
    * when all those reads succeed, property `j` is read with its own schema at `off + 1` plus
    * the sizes of the properties before it, and the object is assigned from the entries `es`
    * so read.
    */
  lemma DecodeStructLayout(buf: Bytes, off: nat, props: seq<Property>) returns (es: seq<Entry>)
    ensures off < |buf| && buf[off] == 0 ==> DecodeAt(buf, off, Struct(props)) == Some((Record([]), 1))
    ensures off < |buf| && buf[off] != 0 && |Sizes(FieldReader(buf, props), off + 1, 0, |props|)| == |props| ==>
      DecodeAt(buf, off, Struct(props)).Some?
    ensures off < |buf| && buf[off] != 0 && DecodeAt(buf, off, Struct(props)).Some? ==>
      var cs := Sizes(FieldReader(buf, props), off + 1, 0, |props|);
      |cs| == |props| && FieldsAt(buf, off + 1, props, cs, es) &&
      DecodeAt(buf, off, Struct(props)) == Some((Record(ToRecord(es)), 1 + Sum(cs)))
  {
    es := [];
    if off < |buf| && buf[off] != 0 {
      FieldsLayout(buf, off + 1, props);
      if DecodeFields(buf, off + 1, Struct(props), 0).Some? {
        var (fs, c) := DecodeFields(buf, off + 1, Struct(props), 0).value;
        DecodeStructStep(buf, off, Struct(props), fs, c);
        es := fs;
      } else if DecodeAt(buf, off, Struct(props)).Some? {
        DecodeStructParts(buf, off, Struct(props));
      }
    }
  }

  /**
    * `decodeMap` in closed form. A leading 0 is the empty object in one byte. A count byte
    * `n` is followed by `n` key-value pairs read one after another: the object decodes exactly
    * when all `n` reads succeed, pair `j` is read at `off + 1` plus the sizes of the pairs
    * before it, and the object is assigned from the entries `es` so read.
    */
  lemma DecodeMapLayout(buf: Bytes, off: nat, key: Bytes, t: Schema) returns (es: seq<Entry>)
    ensures off < |buf| && buf[off] == 0 ==> DecodeAt(buf, off, Map(key, t)) == Some((Record([]), 1))
    ensures off < |buf| && buf[off] != 0 && |Sizes(PairReader(buf, t), off + 1, 0, buf[off])| == buf[off] ==>
      DecodeAt(buf, off, Map(key, t)).Some?
    ensures off < |buf| && buf[off] != 0 && DecodeAt(buf, off, Map(key, t)).Some? ==>
      var cs := Sizes(PairReader(buf, t), off + 1, 0, buf[off]);
      |cs| == buf[off] && DecodeAt(buf, off, Map(key, t)) == Some((Record(ToRecord(es)), 1 + Sum(cs))) &&
      PairsAt(buf, off + 1, t, cs, es)
  {
    es := [];
    if off < |buf| && buf[off] != 0 {
      EntriesLayout(buf, off + 1, buf[off], t);
      if DecodeEntries(buf, off + 1, buf[off], t).Some? {
        var (fs, c) := DecodeEntries(buf, off + 1, buf[off], t).value;
        DecodeMapStep(buf, off, Map(key, t), fs, c);
        es := fs;
      } else if DecodeAt(buf, off, Map(key, t)).Some? {
        DecodeMapParts(buf, off, Map(key, t));
      }
    }
  }

}
