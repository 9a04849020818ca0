/** Integer decoding and encoding of byte strings: Python's `int.from_bytes`
    and `int.to_bytes`, and the two helpers of hanalyse/utilities.py built on
    them. The host byte order (`sys.byteorder`) is an explicit parameter. */
module Bytes {
  import opened Wrappers

  type Byte = b: int | 0 <= b < 256

  /** The values `sys.byteorder` can take. */
  datatype ByteOrder = Little | Big

  function Pow256(n: nat): (p: nat)
    ensures 1 <= p
  {
    if n == 0 then 1 else 256 * Pow256(n - 1)
  }

  /** The value of bytes stored least significant first. */
  function LittleValue(bs: seq<Byte>): nat {
    if bs == [] then 0 else bs[0] + 256 * LittleValue(bs[1..])
  }

  function Reverse(bs: seq<Byte>): (r: seq<Byte>)
    ensures |r| == |bs|
    ensures forall i :: 0 <= i < |bs| ==> r[i] == bs[|bs| - 1 - i]
  {
    if bs == [] then [] else Reverse(bs[1..]) + [bs[0]]
  }

  /** The bytes rearranged least significant first. */
  function LeastFirst(bs: seq<Byte>, order: ByteOrder): seq<Byte> {
    if order == Little then bs else Reverse(bs)
  }

  /** `int.from_bytes(bs, order, signed=False)`. */
  function FromBytesUnsigned(bs: seq<Byte>, order: ByteOrder): nat {
    LittleValue(LeastFirst(bs, order))
  }

  function MostSignificantByte(bs: seq<Byte>, order: ByteOrder): Byte
    requires bs != []
  {
    if order == Little then bs[|bs| - 1] else bs[0]
  }

  /** `int.from_bytes(bs, order, signed=True)`: two's complement over all the bytes. */
  function FromBytesSigned(bs: seq<Byte>, order: ByteOrder): int {
    var u := FromBytesUnsigned(bs, order);
    if bs != [] && MostSignificantByte(bs, order) >= 128 then u - Pow256(|bs|) else u
  }

  /** The `n` low-order base-256 digits of `v`, least significant first. */
  function LittleBytes(v: nat, n: nat): (r: seq<Byte>)
    ensures |r| == n
  {
    if n == 0 then [] else [v % 256] + LittleBytes(v / 256, n - 1)
  }

  /** `value.to_bytes(length, order, signed=False)`: a negative value or one
      that needs more than `length` bytes raises OverflowError. */
  function ToBytesUnsigned(value: int, length: nat, order: ByteOrder): Result<seq<Byte>> {
    if value < 0 || value >= Pow256(length) then Failure(OverflowError)
    else Success(LeastFirst(LittleBytes(value, length), order))
  }

  /** hanalyse/utilities.py `uchar_to_uint8`. */
  function UcharToUint8(uchar: seq<Byte>, order: ByteOrder): int {
    FromBytesUnsigned(uchar, order)
  }

  /** hanalyse/utilities.py `uchar_to_int8`. */
  function UcharToInt8(uchar: seq<Byte>, order: ByteOrder): int {
    FromBytesSigned(uchar, order)
  }

  // ---------------------------------------------------------------------------
  // Properties

  lemma {:induction false} ReverseTwice(bs: seq<Byte>)
    ensures Reverse(Reverse(bs)) == bs
  {
    assert |Reverse(Reverse(bs))| == |bs|;
    assert forall i :: 0 <= i < |bs| ==> Reverse(Reverse(bs))[i] == bs[i];
  }

  lemma LeastFirstTwice(bs: seq<Byte>, order: ByteOrder)
    ensures LeastFirst(LeastFirst(bs, order), order) == bs
  {
    if order == Big {
      ReverseTwice(bs);
    }
  }

  /** n bytes hold values below 256^n. */
  lemma {:induction false} LittleValueBound(bs: seq<Byte>)
    ensures LittleValue(bs) < Pow256(|bs|)
  {
    if bs != [] {
      LittleValueBound(bs[1..]);
    }
  }

  /** The last (most significant) byte contributes its value times 256^(n-1). */
  lemma {:induction false} LittleValueLast(bs: seq<Byte>)
    requires bs != []
    ensures LittleValue(bs) == LittleValue(bs[..|bs| - 1]) + bs[|bs| - 1] * Pow256(|bs| - 1)
  {
    if |bs| > 1 {
      LittleValueLast(bs[1..]);
      assert bs[1..][..|bs| - 2] == bs[..|bs| - 1][1..];
    } else {
      assert bs[..0] == [];
    }
  }

  lemma Threshold(low: int, msb: int, p: int)
    requires 0 <= low < p && 0 <= msb < 256
    ensures msb >= 128 <==> low + msb * p >= 128 * p
  {
    assert msb * p == 128 * p + (msb - 128) * p;
    if msb >= 128 {
      assert (msb - 128) * p >= 0;
    } else {
      assert (127 - msb) * p >= 0;
    }
  }

  /** The most significant byte has its top bit set exactly when the unsigned
      value reaches half of 256^n. */
  lemma TopBit(bs: seq<Byte>, order: ByteOrder)
    requires bs != []
    ensures MostSignificantByte(bs, order) >= 128
            <==> FromBytesUnsigned(bs, order) >= Pow256(|bs|) / 2
  {
    var le := LeastFirst(bs, order);
    var n := |bs|;
    assert |le| == n;
    assert le[n - 1] == MostSignificantByte(bs, order);
    LittleValueLast(le);
    LittleValueBound(le[..n - 1]);
    var p := Pow256(n - 1);
    assert Pow256(n) == 256 * p;
    Threshold(LittleValue(le[..n - 1]), le[n - 1], p);
  }

  /** The signed reading lies in the two's-complement range of n bytes, and
      differs from the unsigned reading by 256^n exactly when the unsigned
      reading is at least half of 256^n. */
  lemma SignedReading(bs: seq<Byte>, order: ByteOrder)
    requires bs != []
    ensures -(Pow256(|bs|) / 2) <= UcharToInt8(bs, order) < Pow256(|bs|) / 2
    ensures UcharToInt8(bs, order)
            == if UcharToUint8(bs, order) >= Pow256(|bs|) / 2
               then UcharToUint8(bs, order) - Pow256(|bs|)
               else UcharToUint8(bs, order)
  {
    TopBit(bs, order);
    LittleValueBound(LeastFirst(bs, order));
    PowEven(|bs|);
  }

  lemma PowEven(n: nat)
    requires 1 <= n
    ensures Pow256(n) == 2 * (Pow256(n) / 2)
  {
    assert Pow256(n) == 2 * (128 * Pow256(n - 1));
  }

  /** For a single byte: the unsigned reading is the byte, the signed reading
      is its two's-complement value, and neither depends on the byte order. */
  lemma SingleByte(b: Byte, order: ByteOrder)
    ensures UcharToUint8([b], order) == b
    ensures UcharToInt8([b], order) == if b < 128 then b else b - 256
    ensures UcharToInt8([0xFF], order) == -1
  {
    assert LeastFirst([b], order) == [b];
    assert [b][1..] == [] && LittleValue([]) == 0;
    assert LittleValue([b]) == b;
    assert Reverse([0xFF]) == [0xFF];
    assert [0xFF][1..] == [];
  }

  lemma {:induction false} LittleBytesValue(v: nat, n: nat)
    requires v < Pow256(n)
    ensures LittleValue(LittleBytes(v, n)) == v
  {
    if n > 0 {
      LittleBytesValue(v / 256, n - 1);
      assert LittleBytes(v, n)[1..] == LittleBytes(v / 256, n - 1);
    }
  }

  lemma {:induction false} LittleValueBytes(bs: seq<Byte>)
    ensures LittleBytes(LittleValue(bs), |bs|) == bs
  {
    if bs != [] {
      LittleValueBytes(bs[1..]);
      LowDigit(bs[0], LittleValue(bs[1..]));
    }
  }

  lemma LowDigit(low: Byte, high: nat)
    ensures (low + 256 * high) % 256 == low && (low + 256 * high) / 256 == high
  {
  }

  /** Encoding then decoding in the same byte order gives the value back;
      encoding fails exactly for negative values and values of 256^n or more. */
  lemma ToBytesRoundTrip(value: int, length: nat, order: ByteOrder)
    ensures ToBytesUnsigned(value, length, order).Success? <==> 0 <= value < Pow256(length)
    ensures ToBytesUnsigned(value, length, order).Success? ==>
              |ToBytesUnsigned(value, length, order).value| == length
              && FromBytesUnsigned(ToBytesUnsigned(value, length, order).value, order) == value
  {
    if 0 <= value < Pow256(length) {
      var le := LittleBytes(value, length);
      LeastFirstTwice(le, order);
      LittleBytesValue(value, length);
    }
  }

  /** Decoding then encoding to the same width gives the bytes back. */
  lemma FromBytesRoundTrip(bs: seq<Byte>, order: ByteOrder)
    ensures ToBytesUnsigned(FromBytesUnsigned(bs, order), |bs|, order) == Success(bs)
  {
    var le := LeastFirst(bs, order);
    assert |le| == |bs|;
    LittleValueBound(le);
    LittleValueBytes(le);
    LeastFirstTwice(bs, order);
  }

  /** The two-byte examples: [0x01, 0x00] is 1 little-endian and 256 big-endian. */
  lemma TwoByteExamples()
    ensures FromBytesUnsigned([0x01, 0x00], Little) == 1
    ensures FromBytesUnsigned([0x01, 0x00], Big) == 256
  {
    assert Reverse([0x01, 0x00]) == [0x00, 0x01];
  }
}
