/**
  * The numeric codec: range validation (`ranges`, `checkRange`), fixed-width packing
  * (`encodeNumberType`) and unpacking (`decodeNumberType`). Unsigned kinds are plain
  * big-endian; signed kinds are sign-magnitude, with the sign in the top bit of the
  * first byte and the magnitude in the remaining bits.
  */
module Numbers {
  import opened Utils
  import opened Wrappers
  import opened Types

  predicate IsSigned(k: NumberKind)
  {
    k.Int8? || k.Int16? || k.Int32?
  }

  /** Bytes on the wire: 1, 2 or 4. */
  function Width(k: NumberKind): nat
  {
    match k
    case UInt8 | Int8 => 1
    case UInt16 | Int16 => 2
    case UInt32 | Int32 => 4
  }

  /** Lower end of the `ranges` table. */
  function Min(k: NumberKind): int
  {
    match k
    case UInt8 | UInt16 | UInt32 => 0
    case Int8 => -128
    case Int16 => -32768
    case Int32 => -2147483648
  }

  /** Upper end of the `ranges` table. */
  function Max(k: NumberKind): int
  {
    match k
    case UInt8 => 255
    case UInt16 => 65535
    case UInt32 => 4294967295
    case Int8 => 127
    case Int16 => 32767
    case Int32 => 2147483647
  }

  /** What `checkRange` accepts: the kind's closed interval. */
  predicate InRange(k: NumberKind, n: int)
  {
    Min(k) <= n <= Max(k)
  }

  /** 2^(bits - 1): the signed kinds' magnitude masks `0x7f`, `0x7fff`, `0x7fffffff`, plus one. */
  function MagnitudeBound(k: NumberKind): nat
  {
    match k
    case UInt8 | Int8 => 0x80
    case UInt16 | Int16 => 0x8000
    case UInt32 | Int32 => 0x8000_0000
  }

  function Pow256(w: nat): nat
  {
    if w == 0 then 1 else 0x100 * Pow256(w - 1)
  }

  lemma WidthPowers(k: NumberKind)
    ensures Pow256(Width(k)) == 2 * MagnitudeBound(k)
    ensures !IsSigned(k) ==> Max(k) == Pow256(Width(k)) - 1
    ensures IsSigned(k) ==> Min(k) == -(MagnitudeBound(k) as int) && Max(k) == MagnitudeBound(k) - 1
  {
    assert Pow256(4) == 0x1_0000_0000;
  }

  /** Reference reading of a byte string as an unsigned big-endian number. */
  function BigEndian(bs: Bytes): nat
  {
    if |bs| == 0 then 0 else BigEndian(bs[..|bs| - 1]) * 0x100 + bs[|bs| - 1] as int
  }

  /**
    * The low `w` bytes of `x`, most significant first: what the masks `0xff`,
    * `0xff00`, `0xff0000`, `0xff000000` followed by right shifts select.
    */
  function ToBigEndian(x: nat, w: nat): (r: Bytes)
    ensures |r| == w
  {
    if w == 0 then [] else ToBigEndian(x / 0x100, w - 1) + [x % 0x100]
  }

  /** `ToBigEndian` is inverted by `BigEndian` for numbers that fit in `w` bytes. */
  lemma {:induction false} BigEndianInverse(x: nat, w: nat)
    requires x < Pow256(w)
    ensures BigEndian(ToBigEndian(x, w)) == x
  {
    if w > 0 {
      var r := ToBigEndian(x, w);
      assert r[..w - 1] == ToBigEndian(x / 0x100, w - 1);
      assert r[w - 1] as int == x % 0x100;
      DivByteBound(x, Pow256(w - 1));
      BigEndianInverse(x / 0x100, w - 1);
      assert BigEndian(r) == x / 0x100 * 0x100 + x % 0x100;
    }
  }

  /** Dropping the last byte of a number below `256 * p` leaves a number below `p`. */
  lemma DivByteBound(x: nat, p: nat)
    requires x < 0x100 * p
    ensures x / 0x100 < p
  {
  }

  /** The reference reading never exceeds the width of its input. */
  lemma {:induction false} BigEndianBound(bs: Bytes)
    ensures BigEndian(bs) < Pow256(|bs|)
  {
    if |bs| > 0 {
      BigEndianBound(bs[..|bs| - 1]);
    }
  }

  /** Zero is written as `w` zero bytes. */
  lemma {:induction false} ZeroBytes(w: nat)
    ensures ToBigEndian(0, w) == seq(w, _ => 0)
  {
    if w > 0 {
      ZeroBytes(w - 1);
      assert seq(w, _ => 0) == seq(w - 1, _ => 0) + [0];
    }
  }

  /** `abs(n)` masked to the magnitude bits of a signed kind (`0x7f`, `0x7fff`, `0x7fffffff`). */
  function MaskedMagnitude(k: NumberKind, n: int): nat
  {
    Abs(n) % MagnitudeBound(k)
  }

  /**
    * The bit pattern `encodeNumberType` writes, read as an unsigned number. Unsigned
    * kinds write `n` itself (for uint32 the int32 results of `&` and `>>` are reduced
    * modulo 256 by `Buffer.from`, which gives the same bytes). Signed kinds write the
    * masked magnitude with the sign flag ORed into the top bit of the first byte; the
    * mask has cleared that bit, so the OR adds `MagnitudeBound(k)`.
    */
  function Pattern(k: NumberKind, n: int): nat
    requires InRange(k, n)
  {
    match k
    case UInt8 | UInt16 | UInt32 => n
    case Int8 | Int16 | Int32 =>
      var bound := MagnitudeBound(k);
      Abs(n) % bound + (if n < 0 then bound else 0)
  }

  /** The bytes `encodeNumberType` pushes once `checkRange` has passed: the pattern, big-endian. */
  function NumberBytes(k: NumberKind, n: int): Bytes
    requires InRange(k, n)
  {
    ToBigEndian(Pattern(k, n), Width(k))
  }

  /** `encodeNumberType`: `checkRange`, then pack into `Width(k)` bytes. */
  function EncodeNumber(k: NumberKind, n: int): Result<Bytes, EncodeError>
  {
    if !InRange(k, n) then Failure(OutOfRange(k, n)) else Success(NumberBytes(k, n))
  }

  /**
    * `checkRange` decides success; a rejected number is reported with its kind, and an
    * accepted one takes exactly the kind's width.
    */
  lemma EncodeNumberSpec(k: NumberKind, n: int)
    ensures EncodeNumber(k, n).Success? <==> Min(k) <= n <= Max(k)
    ensures EncodeNumber(k, n).Failure? ==> EncodeNumber(k, n).error == OutOfRange(k, n)
    ensures EncodeNumber(k, n).Success? ==> |EncodeNumber(k, n).value| == Width(k)
  {
  }

  /** The signed pattern is the masked magnitude plus the sign flag, and it fits the width. */
  lemma PatternFacts(k: NumberKind, n: int)
    requires InRange(k, n)
    ensures Pattern(k, n) < Pow256(Width(k))
    ensures !IsSigned(k) ==> Pattern(k, n) == n
    ensures IsSigned(k) ==>
      Pattern(k, n) == MaskedMagnitude(k, n) + (if n < 0 then MagnitudeBound(k) else 0)
  {
    WidthPowers(k);
  }

  /** `BigEndian` splits off the first byte, worth `256^(|bs|-1)`. */
  lemma {:induction false} BigEndianFront(bs: Bytes)
    requires |bs| >= 1
    ensures BigEndian(bs) == bs[0] * Pow256(|bs| - 1) + BigEndian(bs[1..])
  {
    if |bs| > 1 {
      var init := bs[..|bs| - 1];
      BigEndianFront(init);
      assert init[1..] == bs[1..][..|bs| - 2];
      assert bs[1..][|bs| - 2] == bs[|bs| - 1];
      ShiftByte(bs[0], Pow256(|bs| - 2), BigEndian(init[1..]), bs[|bs| - 1] as int);
    } else {
      assert bs[1..] == [];
    }
  }

  /** Shifting `b*p + rest` up a byte and appending `last`. */
  lemma ShiftByte(b: int, p: int, rest: int, last: int)
    ensures (b * p + rest) * 0x100 + last == b * (0x100 * p) + (rest * 0x100 + last)
  {
  }

  /** The magnitude field of a sign-magnitude byte string: all bits but the first. */
  function Magnitude(bs: Bytes): nat
    requires |bs| >= 1
  {
    BigEndian([bs[0] % 0x80] + bs[1..])
  }

  /**
    * For a signed kind, testing the pattern's top bit is testing the first byte's top
    * bit (`data[0] & 0x80`), and masking the pattern to the magnitude bits is reading
    * `data[0] & 0x7f` followed by the other bytes.
    */
  lemma SignedFields(k: NumberKind, bs: Bytes)
    requires IsSigned(k) && |bs| == Width(k)
    ensures BigEndian(bs) / MagnitudeBound(k) % 2 == 1 <==> bs[0] >= 0x80
    ensures BigEndian(bs) % MagnitudeBound(k) == Magnitude(bs)
  {
    var m := [bs[0] % 0x80] + bs[1..];
    var p := Pow256(|bs| - 1);
    var rest := BigEndian(bs[1..]);
    BigEndianFront(bs);
    BigEndianFront(m);
    assert m[1..] == bs[1..] && m[0] == bs[0] % 0x80 && |m| == |bs|;
    assert Magnitude(bs) == bs[0] % 0x80 * p + rest;
    assert BigEndian(bs) == bs[0] * p + rest;
    BigEndianBound(bs[1..]);
    assert MagnitudeBound(k) == 0x80 * p by {
      assert Pow256(3) == 0x100_0000;
    }
    SplitTopBit(bs[0], p, rest, BigEndian(bs), MagnitudeBound(k));
  }

  /**
    * A byte `b` followed by `rest < p` reads as `b*p + rest`; its bit at `0x80*p` is the
    * byte's top bit, and the bits below are the byte's low seven bits followed by `rest`.
    */
  lemma SplitTopBit(b: byte, p: nat, rest: nat, x: nat, d: nat)
    requires 0 < p && rest < p && x == b * p + rest && d == 0x80 * p
    ensures x / d % 2 == 1 <==> b >= 0x80
    ensures x % d == b % 0x80 * p + rest
  {
    var hi := b / 0x80;
    var lo := b % 0x80;
    assert b * p + rest == hi * (0x80 * p) + (lo * p + rest) by {
      assert b == hi * 0x80 + lo;
    }
    assert lo * p + rest < 0x80 * p by {
      MulLess(lo, 0x80, p);
    }
    DivModUnique(x, d, hi, lo * p + rest);
  }

  lemma MulLess(a: nat, b: nat, p: nat)
    requires a < b && 0 < p
    ensures a * p + p <= b * p
  {
    assert (b - a) * p >= p by {
      MulAtLeast(b - a, p);
    }
  }

  lemma MulAtLeast(a: int, d: int)
    requires a >= 1 && d > 0
    ensures a * d >= d
  {
    assert a * d == (a - 1) * d + d;
  }

  /** `q` and `r` are the quotient and remainder of `x` by `d` when `x = q*d + r`, `0 <= r < d`. */
  lemma DivModUnique(x: int, d: int, q: int, r: int)
    requires 0 < d && 0 <= r < d && x == q * d + r
    ensures x / d == q && x % d == r
  {
    var q0 := x / d;
    var r0 := x % d;
    assert (q - q0) * d == r0 - r;
    if q > q0 {
      MulAtLeast(q - q0, d);
    } else if q < q0 {
      MulAtLeast(q0 - q, d);
    }
  }

  /**
    * The int32 result of JavaScript's `<<` and `|` on a 32-bit pattern: a pattern with
    * the top bit set reads as negative.
    */
  function AsInt32(x: nat): int
  {
    var y := x % 0x1_0000_0000;
    if y >= 0x8000_0000 then y - 0x1_0000_0000 else y
  }

  /**
    * `decodeNumberType` on the pattern held in `Width(k)` bytes. The shifts and ORs
    * assemble the bytes big-endian; for uint32 the result of `data[0] << 24` is a
    * signed 32-bit value. Signed kinds test the top bit and negate the magnitude bits.
    */
  function FromPattern(k: NumberKind, x: nat): int
  {
    match k
    case UInt8 | UInt16 => x
    case UInt32 => AsInt32(x)
    case Int8 | Int16 | Int32 =>
      var bound := MagnitudeBound(k);
      if x / bound % 2 == 1 then -(x % bound) else x % bound
  }

  /** The `w` bytes at `off` read as one big-endian number, as the decoder's shifts and ors do. */
  function ReadBE(buf: Bytes, off: nat, w: nat): nat
    requires off + w <= |buf|
  {
    if w == 0 then 0 else ReadBE(buf, off, w - 1) * 0x100 + buf[off + w - 1] as int
  }

  /** Reading `w` bytes in place at `off` gives the big-endian value of the bytes found there. */
  lemma {:induction false} ReadBEAt(buf: Bytes, off: nat, e: Bytes)
    requires At(buf, off, e)
    ensures ReadBE(buf, off, |e|) == BigEndian(e)
  {
    if |e| > 0 {
      var init := e[..|e| - 1];
      ReadBEAt(buf, off, init);
    }
  }

  /** `decodeNumberType(k, bs)` on exactly `Width(k)` bytes. */
  function DecodeNumber(k: NumberKind, bs: Bytes): int
  {
    FromPattern(k, BigEndian(bs))
  }

  /**
    * Read byte by byte, as the source does: unsigned kinds are big-endian (uint32 as an
    * int32), signed kinds negate the magnitude bits exactly when the first byte's top
    * bit is set.
    */
  lemma DecodeNumberBytes(k: NumberKind, bs: Bytes)
    requires |bs| == Width(k)
    ensures k.UInt8? || k.UInt16? ==> DecodeNumber(k, bs) == BigEndian(bs)
    ensures k.UInt32? ==> DecodeNumber(k, bs) == AsInt32(BigEndian(bs))
    ensures IsSigned(k) ==>
      DecodeNumber(k, bs) == if bs[0] >= 0x80 then -(Magnitude(bs) as int) else Magnitude(bs)
  {
    if IsSigned(k) {
      SignedFields(k, bs);
    }
  }

  /**
    * The layout of an encoded number: unsigned kinds give the big-endian bytes of `n`;
    * signed kinds set the top bit exactly for negative `n` and carry
    * `|n| mod 2^(bits-1)` in the other bits.
    */
  lemma NumberBytesLayout(k: NumberKind, n: int)
    requires InRange(k, n)
    ensures |NumberBytes(k, n)| == Width(k)
    ensures !IsSigned(k) ==> BigEndian(NumberBytes(k, n)) == n
    ensures IsSigned(k) ==> var bs := NumberBytes(k, n);
      (bs[0] >= 0x80 <==> n < 0) && Magnitude(bs) == MaskedMagnitude(k, n)
  {
    var bs := NumberBytes(k, n);
    PatternFacts(k, n);
    BigEndianInverse(Pattern(k, n), Width(k));
    if IsSigned(k) {
      SignedFields(k, bs);
      DivModUnique(Pattern(k, n), MagnitudeBound(k), if n < 0 then 1 else 0, MaskedMagnitude(k, n));
    }
  }

  /** Values whose encoding does not decode back to themselves. */
  predicate Lossy(k: NumberKind, n: int)
  {
    (IsSigned(k) && n == Min(k)) || (k.UInt32? && n >= 0x8000_0000)
  }

  /**
    * What decoding an in-range value's encoding yields: the most negative signed
    * value comes back as 0, a uint32 at or above 2^31 comes back as `n - 2^32`,
    * anything else comes back unchanged.
    */
  function Recovered(k: NumberKind, n: int): int
  {
    if IsSigned(k) && n == Min(k) then 0
    else if k.UInt32? && n >= 0x8000_0000 then n - 0x1_0000_0000
    else n
  }

  /**
    * Reading back the pattern of an in-range number yields `Recovered(k, n)`: the sign
    * flag and `|n| mod 2^(bits-1)` determine `n`, except that the most negative value's
    * magnitude was masked to 0.
    */
  lemma PatternRoundTrip(k: NumberKind, n: int)
    requires InRange(k, n)
    ensures FromPattern(k, Pattern(k, n)) == Recovered(k, n)
  {
    if IsSigned(k) {
      WidthPowers(k);
      SignedPatternRoundTrip(n, MagnitudeBound(k));
    }
  }

  /** Sign flag plus `|n| mod bound`, read back, gives `n` except that `-bound` reads as 0. */
  lemma SignedPatternRoundTrip(n: int, bound: int)
    requires 0 < bound && -bound <= n < bound
    ensures var x := Abs(n) % bound + (if n < 0 then bound else 0);
      (if x / bound % 2 == 1 then -(x % bound) else x % bound) == if n == -bound then 0 else n
  {
    var m := Abs(n) % bound;
    if n == -bound {
      DivModUnique(Abs(n), bound, 1, 0);
    } else {
      DivModUnique(Abs(n), bound, 0, Abs(n));
    }
    var neg := if n < 0 then 1 else 0;
    DivModUnique(m + (if n < 0 then bound else 0), bound, neg, m);
  }

  /** Decoding the encoding of any in-range number yields `Recovered(k, n)`. */
  lemma NumberRoundTrip(k: NumberKind, n: int)
    requires InRange(k, n)
    ensures DecodeNumber(k, NumberBytes(k, n)) == Recovered(k, n)
  {
    PatternFacts(k, n);
    BigEndianInverse(Pattern(k, n), Width(k));
    PatternRoundTrip(k, n);
  }

  /** An in-range number survives encode-then-decode exactly when it is not lossy. */
  lemma NumberRoundTripExact(k: NumberKind, n: int)
    requires InRange(k, n)
    ensures DecodeNumber(k, NumberBytes(k, n)) == n <==> !Lossy(k, n)
  {
    NumberRoundTrip(k, n);
  }

  /** The most negative value of a signed kind passes `checkRange` but decodes as 0. */
  lemma MostNegativeDecodesAsZero(k: NumberKind)
    requires IsSigned(k)
    ensures EncodeNumber(k, Min(k)).Success?
    ensures DecodeNumber(k, NumberBytes(k, Min(k))) == 0
  {
    NumberRoundTrip(k, Min(k));
  }

  /** A uint32 at or above 2^31 encodes fine but decodes as `n - 2^32`. */
  lemma HighUInt32DecodesNegative(n: int)
    requires 0x8000_0000 <= n <= Max(UInt32)
    ensures EncodeNumber(UInt32, n).Success?
    ensures DecodeNumber(UInt32, NumberBytes(UInt32, n)) == n - 0x1_0000_0000
  {
    NumberRoundTrip(UInt32, n);
  }
}
