/**
  * JavaScript objects as ordered association lists: property lookup `obj[key]`
  * (src/encoder.ts:139) and property assignment `res[key] = value`
  * (src/decoder.ts:95, src/decoder.ts:119). An assignment to an existing key keeps
  * that key's position; a new key goes to the end. Only own keys are modelled: there
  * is no prototype chain, so names inherited from `Object.prototype` and the key
  * `__proto__` behave here like every other key.
  */
module Objects {
  import opened Utils
  import opened Types

  predicate HasKey(es: seq<Entry>, k: Bytes)
  {
    exists i | 0 <= i < |es| :: es[i].key == k
  }

  /** No key occurs twice, as in every JavaScript object. */
  predicate DistinctKeys(es: seq<Entry>)
  {
    forall i, j | 0 <= i < j < |es| :: es[i].key != es[j].key
  }

  /** The position of the first entry from `i` on whose key is `k`, or `|es|` if none. */
  function Find(es: seq<Entry>, k: Bytes, i: nat): nat
    requires i <= |es|
    decreases |es| - i
  {
    if i == |es| then i
    else if es[i].key == k then i
    else Find(es, k, i + 1)
  }

  /** `obj[k]`: the value of the entry with key `k`, or `Absent` (undefined). */
  function Get(es: seq<Entry>, k: Bytes): Value
  {
    var i := Find(es, k, 0);
    if i < |es| then es[i].value else Absent
  }

  /** `obj[k] = v`: replace the value of an existing key in place, or append a new entry. */
  function Put(es: seq<Entry>, k: Bytes, v: Value): seq<Entry>
  {
    var i := Find(es, k, 0);
    if i < |es| then es[i := Entry(k, v)] else es + [Entry(k, v)]
  }

  /** The search stops at the first entry with the key, and reaches the end only if there is none. */
  lemma {:induction false} FindSpec(es: seq<Entry>, k: Bytes, i: nat)
    requires i <= |es|
    ensures i <= Find(es, k, i) <= |es|
    ensures Find(es, k, i) < |es| ==> es[Find(es, k, i)].key == k
    ensures forall j | i <= j < Find(es, k, i) :: es[j].key != k
    decreases |es| - i
  {
    if i < |es| && es[i].key != k {
      FindSpec(es, k, i + 1);
    }
  }

  /** A lookup finds the first entry with the key, and a missing key reads as `Absent`. */
  lemma GetFirst(es: seq<Entry>, k: Bytes)
    ensures !HasKey(es, k) ==> Get(es, k) == Absent
    ensures HasKey(es, k) ==>
      exists i | 0 <= i < |es| :: es[i].key == k && Get(es, k) == es[i].value &&
        forall j | 0 <= j < i :: es[j].key != k
  {
    FindSpec(es, k, 0);
  }

  /** In an object without repeated keys, `obj[k]` is the value stored at `k`'s position. */
  lemma GetDistinct(es: seq<Entry>, i: nat)
    requires DistinctKeys(es)
    requires i < |es|
    ensures Get(es, es[i].key) == es[i].value
  {
    FindSpec(es, es[i].key, 0);
  }

  /** The search looks only at keys: two lists with the same keys in the same places agree. */
  lemma {:induction false} FindSameKeys(a: seq<Entry>, b: seq<Entry>, k: Bytes, i: nat)
    requires |a| == |b| && i <= |a|
    requires forall j | 0 <= j < |a| :: a[j].key == b[j].key
    ensures Find(a, k, i) == Find(b, k, i)
    decreases |a| - i
  {
    if i < |a| && a[i].key != k {
      FindSameKeys(a, b, k, i + 1);
    }
  }

  /** Appending an entry does not move a match already present; otherwise the new entry is tried. */
  lemma {:induction false} FindAppend(es: seq<Entry>, e: Entry, k: Bytes, i: nat)
    requires i <= |es|
    ensures Find(es, k, i) < |es| ==> Find(es + [e], k, i) == Find(es, k, i)
    ensures Find(es, k, i) == |es| ==> Find(es + [e], k, i) == if e.key == k then |es| else |es| + 1
    decreases |es| - i
  {
    var r := es + [e];
    assert r[i] == if i < |es| then es[i] else e;
    if i < |es| && es[i].key != k {
      FindAppend(es, e, k, i + 1);
    } else if i == |es| && e.key != k {
      assert Find(r, k, i + 1) == |r|;
    }
  }

  /** Adding an entry at the end leaves every other key's lookup alone; a new key reads the new value. */
  lemma GetAppend(es: seq<Entry>, e: Entry, k: Bytes)
    ensures k != e.key ==> Get(es + [e], k) == Get(es, k)
    ensures !HasKey(es, e.key) ==> Get(es + [e], e.key) == e.value
  {
    FindSpec(es, k, 0);
    FindAppend(es, e, k, 0);
    FindSpec(es, e.key, 0);
    FindAppend(es, e, e.key, 0);
    var i := Find(es, k, 0);
    if i < |es| {
      assert (es + [e])[i] == es[i];
    }
  }

  /** After `obj[k] = v`, `obj[k]` is `v` and every other key reads as before. */
  lemma PutGet(es: seq<Entry>, k: Bytes, v: Value)
    ensures Get(Put(es, k, v), k) == v
    ensures forall k' | k' != k :: Get(Put(es, k, v), k') == Get(es, k')
  {
    var r := Put(es, k, v);
    var i := Find(es, k, 0);
    FindSpec(es, k, 0);
    if i < |es| {
      FindSameKeys(r, es, k, 0);
      forall k' | k' != k
        ensures Get(r, k') == Get(es, k')
      {
        FindSameKeys(r, es, k', 0);
        FindSpec(es, k', 0);
      }
    } else {
      FindAppend(es, Entry(k, v), k, 0);
      forall k' | k' != k
        ensures Get(r, k') == Get(es, k')
      {
        FindAppend(es, Entry(k, v), k', 0);
        FindSpec(es, k', 0);
      }
    }
  }

  /**
    * `obj[k] = v` keeps every existing key at its position; it changes the length only
    * for a new key, which it appends.
    */
  lemma PutShape(es: seq<Entry>, k: Bytes, v: Value)
    ensures HasKey(es, k) ==> |Put(es, k, v)| == |es|
    ensures !HasKey(es, k) ==> Put(es, k, v) == es + [Entry(k, v)]
    ensures forall i | 0 <= i < |es| :: Put(es, k, v)[i].key == es[i].key
  {
    FindSpec(es, k, 0);
  }

  /** The keys after `obj[k] = v` are the old ones and `k`, and none repeats. */
  lemma PutKeys(es: seq<Entry>, k: Bytes, v: Value)
    ensures forall k' :: HasKey(Put(es, k, v), k') <==> HasKey(es, k') || k' == k
    ensures DistinctKeys(es) ==> DistinctKeys(Put(es, k, v))
  {
    var r := Put(es, k, v);
    FindSpec(es, k, 0);
    forall k' ensures HasKey(r, k') <==> HasKey(es, k') || k' == k {
      if HasKey(r, k') {
        var i :| 0 <= i < |r| && r[i].key == k';
      }
      if HasKey(es, k') {
        var i :| 0 <= i < |es| && es[i].key == k';
        assert r[i].key == k';
      }
      if k' == k {
        assert r[Find(es, k, 0)].key == k;
      }
    }
  }

  /**
    * The decoder's assignment loop from entry `i` on: `acc[k] = v` for each entry of
    * `ps` in wire order.
    */
  function Assign(acc: seq<Entry>, ps: seq<Entry>, i: nat): seq<Entry>
    requires i <= |ps|
    decreases |ps| - i
  {
    if i == |ps| then acc
    else Assign(Put(acc, ps[i].key, ps[i].value), ps, i + 1)
  }

  /** The object the decoder builds from the entries it read, starting from `{}`. */
  function ToRecord(ps: seq<Entry>): seq<Entry>
  {
    Assign([], ps, 0)
  }

  lemma {:induction false} AssignKeys(acc: seq<Entry>, ps: seq<Entry>, i: nat)
    requires i <= |ps|
    requires DistinctKeys(acc)
    ensures DistinctKeys(Assign(acc, ps, i))
    ensures forall k :: HasKey(Assign(acc, ps, i), k) <==>
      HasKey(acc, k) || exists j | i <= j < |ps| :: ps[j].key == k
    decreases |ps| - i
  {
    if i < |ps| {
      PutKeys(acc, ps[i].key, ps[i].value);
      AssignKeys(Put(acc, ps[i].key, ps[i].value), ps, i + 1);
    }
  }

  /** The object holds each assigned key once, and no key that was not assigned. */
  lemma ToRecordKeys(ps: seq<Entry>)
    ensures DistinctKeys(ToRecord(ps))
    ensures forall k :: HasKey(ToRecord(ps), k) <==> HasKey(ps, k)
  {
    AssignKeys([], ps, 0);
  }

  /** Entries whose key is never assigned again leave that key's value alone. */
  lemma {:induction false} AssignFrame(acc: seq<Entry>, ps: seq<Entry>, i: nat, k: Bytes)
    requires i <= |ps|
    requires forall j | i <= j < |ps| :: ps[j].key != k
    ensures Get(Assign(acc, ps, i), k) == Get(acc, k)
    decreases |ps| - i
  {
    if i < |ps| {
      PutGet(acc, ps[i].key, ps[i].value);
      AssignFrame(Put(acc, ps[i].key, ps[i].value), ps, i + 1, k);
    }
  }

  lemma {:induction false} AssignLastWins(acc: seq<Entry>, ps: seq<Entry>, i: nat, m: nat)
    requires i <= m < |ps|
    requires forall j | m < j < |ps| :: ps[j].key != ps[m].key
    ensures Get(Assign(acc, ps, i), ps[m].key) == ps[m].value
    decreases |ps| - i
  {
    var next := Put(acc, ps[i].key, ps[i].value);
    if i == m {
      PutGet(acc, ps[i].key, ps[i].value);
      AssignFrame(next, ps, i + 1, ps[m].key);
    } else {
      AssignLastWins(next, ps, i + 1, m);
    }
  }

  /** When a key is assigned more than once, the object keeps the last value assigned. */
  lemma ToRecordLastWins(ps: seq<Entry>, i: nat)
    requires i < |ps|
    requires forall j | i < j < |ps| :: ps[j].key != ps[i].key
    ensures Get(ToRecord(ps), ps[i].key) == ps[i].value
  {
    AssignLastWins([], ps, 0, i);
  }

  lemma {:induction false} AssignDistinct(ps: seq<Entry>, i: nat)
    requires DistinctKeys(ps)
    requires i <= |ps|
    ensures Assign(ps[..i], ps, i) == ps
    decreases |ps| - i
  {
    if i < |ps| {
      assert !HasKey(ps[..i], ps[i].key);
      PutShape(ps[..i], ps[i].key, ps[i].value);
      assert ps[..i] + [ps[i]] == ps[..i + 1];
      AssignDistinct(ps, i + 1);
    }
  }

  /** Assigning entries whose keys are all distinct rebuilds exactly those entries. */
  lemma ToRecordDistinct(ps: seq<Entry>)
    requires DistinctKeys(ps)
    ensures ToRecord(ps) == ps
  {
    assert ps[..0] == [];
    AssignDistinct(ps, 0);
  }
}
