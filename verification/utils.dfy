/** Byte-level helpers shared by the encoder and the decoder (src/utils.ts). */
module Utils {

  /** One octet, the element type of a Node `Buffer`. */
  type byte = b: int | 0 <= b < 0x100

  /** A byte buffer; strings and keys are represented by their UTF-8 bytes. */
  type Bytes = seq<byte>

  /** The absolute value, as `abs` computes it. */
  function Abs(x: int): (r: nat)
    ensures x >= 0 ==> r == x
    ensures x < 0 ==> r == -x
  {
    if x < 0 then x * -1 else x
  }

  /** Concatenation of two buffers, as `append` (a `Buffer.concat` of the two). */
  function Append(a: Bytes, b: Bytes): Bytes
  {
    a + b
  }

  /** The buffers of `parts` one after another, as a chain of `append`s folds them. */
  function Concat(parts: seq<Bytes>): Bytes
  {
    if |parts| == 0 then [] else parts[0] + Concat(parts[1..])
  }

  /** `e` occurs in `buf` starting at offset `off`. */
  predicate At(buf: Bytes, off: nat, e: Bytes)
  {
    off + |e| <= |buf| && forall j | 0 <= j < |e| :: buf[off + j] == e[j]
  }

  /** The `n` bytes of `buf` starting at `off`, read one at a time. */
  function ReadBytes(buf: Bytes, off: nat, n: nat): Bytes
    requires off + n <= |buf|
  {
    if n == 0 then [] else ReadBytes(buf, off, n - 1) + [buf[off + n - 1]]
  }

  /** Reading byte by byte gives the slice `buf[off..off + n]`. */
  lemma {:induction false} ReadBytesSlice(buf: Bytes, off: nat, n: nat)
    requires off + n <= |buf|
    ensures ReadBytes(buf, off, n) == buf[off..off + n]
  {
    if n > 0 {
      ReadBytesSlice(buf, off, n - 1);
      assert buf[off..off + n] == buf[off..off + n - 1] + [buf[off + n - 1]];
    }
  }

  /** Reading `|e|` bytes where `e` sits gives `e` back. */
  lemma ReadBytesAt(buf: Bytes, off: nat, e: Bytes)
    requires At(buf, off, e)
    ensures ReadBytes(buf, off, |e|) == e
  {
    ReadBytesSlice(buf, off, |e|);
    assert buf[off..off + |e|] == e;
  }

  /** A buffer that holds `a + b` at `off` holds `a` there and `b` right after it. */
  lemma AtSplit(buf: Bytes, off: nat, a: Bytes, b: Bytes)
    requires At(buf, off, a + b)
    ensures At(buf, off, a)
    ensures At(buf, off + |a|, b)
  {
    assert forall i | 0 <= i < |a| :: (a + b)[i] == a[i];
    assert forall i | 0 <= i < |b| :: (a + b)[|a| + i] == b[i];
  }
}

/** Wrappers used for the decoder's and encoder's results. */
module Wrappers {

  datatype Option<+T> = None | Some(value: T)

  datatype Result<+T, +E> = Success(value: T) | Failure(error: E)
}
