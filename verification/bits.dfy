/** Byte <-> bit conversions used by the LSB codec, and the big-endian
    unsigned integer fields of the header.

    Bits are MSB-first within a byte, as `format(byte, '08b')` writes them and
    `int(bits[i:i+8], 2)` reads them back. A big-endian field is the binary
    value of its bytes' bits in that order. */
module Bits {

  type byte = bv8

  const UINT32_LIMIT: int := 0x1_0000_0000

  /** The mask selecting bit `k`, counting from the most significant (k = 0). */
  function Mask(k: nat): byte
    requires k < 8
  {
    if k == 0 then 0x80 else if k == 1 then 0x40 else if k == 2 then 0x20 else if k == 3 then 0x10
    else if k == 4 then 0x08 else if k == 5 then 0x04 else if k == 6 then 0x02 else 0x01
  }

  /** Bit `k` of `b`, counting from the most significant bit (k = 0). */
  function BitOf(b: byte, k: nat): bool
    requires k < 8
  {
    b & Mask(k) != 0
  }

  /** The eight bits of `b`, most significant first. */
  function ByteToBits(b: byte): (bits: seq<bool>)
    ensures |bits| == 8
  {
    seq(8, k requires 0 <= k < 8 => BitOf(b, k))
  }

  function Weight(bit: bool, w: byte): byte {
    if bit then w else 0
  }

  /** The byte whose binary digits, most significant first, are `bits`. */
  function BitsToByte(bits: seq<bool>): (b: byte)
    requires |bits| == 8
    ensures forall k :: 0 <= k < 8 ==> BitOf(b, k) == bits[k]
  {
    Weight(bits[0], 0x80) | Weight(bits[1], 0x40) | Weight(bits[2], 0x20) | Weight(bits[3], 0x10) |
    Weight(bits[4], 0x08) | Weight(bits[5], 0x04) | Weight(bits[6], 0x02) | Weight(bits[7], 0x01)
  }

  /** Two bytes with the same eight bits are the same byte. */
  lemma BitsDetermineByte(a: byte, b: byte)
    requires forall k :: 0 <= k < 8 ==> BitOf(a, k) == BitOf(b, k)
    ensures a == b
  {
    assert BitOf(a, 0) == BitOf(b, 0) && BitOf(a, 1) == BitOf(b, 1);
    assert BitOf(a, 2) == BitOf(b, 2) && BitOf(a, 3) == BitOf(b, 3);
    assert BitOf(a, 4) == BitOf(b, 4) && BitOf(a, 5) == BitOf(b, 5);
    assert BitOf(a, 6) == BitOf(b, 6) && BitOf(a, 7) == BitOf(b, 7);
  }

  lemma BitsToByteOfByteToBits(b: byte)
    ensures BitsToByte(ByteToBits(b)) == b
  {
    BitsDetermineByte(BitsToByte(ByteToBits(b)), b);
  }

  lemma ByteToBitsOfBitsToByte(bits: seq<bool>)
    requires |bits| == 8
    ensures ByteToBits(BitsToByte(bits)) == bits
  {
  }

  /** The bit string of `data`: bytes in order, each MSB-first. */
  function Expand(data: seq<byte>): (bits: seq<bool>)
    ensures |bits| == 8 * |data|
  {
    if |data| == 0 then [] else ByteToBits(data[0]) + Expand(data[1..])
  }

  /** Bit 8j+k of the expansion is bit k of byte j. */
  lemma {:induction false} ExpandIndex(data: seq<byte>, j: nat, k: nat)
    requires j < |data| && k < 8
    ensures Expand(data)[8 * j + k] == BitOf(data[j], k)
  {
    if j > 0 {
      ExpandIndex(data[1..], j - 1, k);
      assert 8 * j + k == 8 + (8 * (j - 1) + k);
    }
  }

  lemma ExpandBits(data: seq<byte>)
    ensures forall j, k :: 0 <= j < |data| && 0 <= k < 8 ==> Expand(data)[8 * j + k] == BitOf(data[j], k)
  {
    forall j, k | 0 <= j < |data| && 0 <= k < 8 {
      ExpandIndex(data, j, k);
    }
  }

  /** Repacks a bit string eight bits to a byte, MSB-first. */
  function Pack(bits: seq<bool>): (data: seq<byte>)
    requires |bits| % 8 == 0
    ensures |data| == |bits| / 8
  {
    if |bits| == 0 then [] else [BitsToByte(bits[..8])] + Pack(bits[8..])
  }

  /** Byte j of the repacked string holds bits 8j .. 8j+7. */
  lemma {:induction false} PackIndex(bits: seq<bool>, j: nat, k: nat)
    requires |bits| % 8 == 0 && j < |bits| / 8 && k < 8
    ensures BitOf(Pack(bits)[j], k) == bits[8 * j + k]
  {
    if j > 0 {
      PackIndex(bits[8..], j - 1, k);
      assert 8 * j + k == 8 + (8 * (j - 1) + k);
    }
  }

  lemma PackBits(bits: seq<bool>)
    requires |bits| % 8 == 0
    ensures forall j, k :: 0 <= j < |bits| / 8 && 0 <= k < 8 ==> BitOf(Pack(bits)[j], k) == bits[8 * j + k]
  {
    forall j, k | 0 <= j < |bits| / 8 && 0 <= k < 8 {
      PackIndex(bits, j, k);
    }
  }

  /** Repacking the expanded bits returns the original bytes. */
  lemma PackExpand(data: seq<byte>)
    ensures Pack(Expand(data)) == data
  {
    var bits := Expand(data);
    var r := Pack(bits);
    forall j | 0 <= j < |data|
      ensures r[j] == data[j]
    {
      forall k | 0 <= k < 8
        ensures BitOf(r[j], k) == BitOf(data[j], k)
      {
        ExpandIndex(data, j, k);
        PackIndex(bits, j, k);
      }
      BitsDetermineByte(r[j], data[j]);
    }
  }

  /** Expanding the repacked bytes returns the original bit string. */
  lemma {:induction false} ExpandPack(bits: seq<bool>)
    requires |bits| % 8 == 0
    ensures Expand(Pack(bits)) == bits
  {
    if |bits| > 0 {
      var data := Pack(bits);
      assert data[0] == BitsToByte(bits[..8]) && data[1..] == Pack(bits[8..]);
      ByteToBitsOfBitsToByte(bits[..8]);
      ExpandPack(bits[8..]);
      assert bits == bits[..8] + bits[8..];
    }
  }

  /** Expansion distributes over concatenation. */
  lemma {:induction false} ExpandAppend(a: seq<byte>, b: seq<byte>)
    ensures Expand(a + b) == Expand(a) + Expand(b)
  {
    if |a| == 0 {
      assert a + b == b;
    } else {
      assert (a + b)[1..] == a[1..] + b;
      ExpandAppend(a[1..], b);
    }
  }

  function Pow2(n: nat): (p: nat)
    ensures p >= 1
  {
    if n == 0 then 1 else 2 * Pow2(n - 1)
  }

  lemma {:induction false} Pow2Add(a: nat, b: nat)
    ensures Pow2(a + b) == Pow2(a) * Pow2(b)
    decreases b
  {
    if b > 0 {
      Pow2Add(a, b - 1);
    }
  }

  /** A byte has 2^8 values and a 32-bit field 2^32. */
  lemma Pow2Widths()
    ensures Pow2(8) == 0x100 && Pow2(32) == UINT32_LIMIT
  {
    assert Pow2(2) == 4;
    Pow2Add(2, 2);
    Pow2Add(4, 4);
    Pow2Add(8, 8);
    Pow2Add(16, 16);
  }

  /** The unsigned binary value of `bits`, most significant bit first. */
  function ValueOfBits(bits: seq<bool>): (v: nat)
    ensures v < Pow2(|bits|)
  {
    if |bits| == 0 then 0
    else 2 * ValueOfBits(bits[..|bits| - 1]) + (if bits[|bits| - 1] then 1 else 0)
  }

  /** The `n` binary digits of `x`, most significant first. */
  function IntToBits(x: int, n: nat): (bits: seq<bool>)
    requires 0 <= x < Pow2(n)
    ensures |bits| == n
  {
    if n == 0 then [] else IntToBits(x / 2, n - 1) + [x % 2 == 1]
  }

  lemma {:induction false} ValueOfIntToBits(x: int, n: nat)
    requires 0 <= x < Pow2(n)
    ensures ValueOfBits(IntToBits(x, n)) == x
  {
    if n > 0 {
      var bits := IntToBits(x, n);
      assert bits[..n - 1] == IntToBits(x / 2, n - 1);
      ValueOfIntToBits(x / 2, n - 1);
    }
  }

  lemma {:induction false} IntToBitsOfValue(bits: seq<bool>)
    ensures IntToBits(ValueOfBits(bits), |bits|) == bits
  {
    if |bits| > 0 {
      var n := |bits|;
      var v := ValueOfBits(bits);
      var upper := ValueOfBits(bits[..n - 1]);
      var low := if bits[n - 1] then 1 else 0;
      assert v == 2 * upper + low;
      assert v / 2 == upper && v % 2 == low;
      IntToBitsOfValue(bits[..n - 1]);
      assert bits == bits[..n - 1] + [bits[n - 1]];
    }
  }

  lemma Double(x: int, p: int)
    ensures x * (2 * p) == 2 * (x * p)
  {
    calc {
      x * (2 * p);
      x * (p + p);
      x * p + x * p;
    }
  }

  /** The value of the concatenation of two bit strings. */
  lemma {:induction false} ValueOfAppend(a: seq<bool>, b: seq<bool>)
    ensures ValueOfBits(a + b) == ValueOfBits(a) * Pow2(|b|) + ValueOfBits(b)
    decreases |b|
  {
    if |b| == 0 {
      assert a + b == a;
    } else {
      var n := |b|;
      var ab := a + b;
      var low := if b[n - 1] then 1 else 0;
      assert ab[|ab| - 1] == b[n - 1];
      assert ab[..|ab| - 1] == a + b[..n - 1];
      var va, p, vb := ValueOfBits(a), Pow2(n - 1), ValueOfBits(b[..n - 1]);
      calc {
        ValueOfBits(ab);
        2 * ValueOfBits(a + b[..n - 1]) + low;
        { ValueOfAppend(a, b[..n - 1]); }
        2 * (va * p + vb) + low;
        { Double(va, p); }
        va * (2 * p) + (2 * vb + low);
        va * Pow2(n) + ValueOfBits(b);
      }
    }
  }

  /** The numeric value of a byte. */
  function ByteValue(b: byte): (v: nat)
    ensures v < 0x100
  {
    Pow2Widths();
    ValueOfBits(ByteToBits(b))
  }

  /** The byte whose value is `x`. */
  function ByteOf(x: int): (b: byte)
    requires 0 <= x < 0x100
    ensures ByteValue(b) == x
  {
    Pow2Widths();
    ByteToBitsOfBitsToByte(IntToBits(x, 8));
    ValueOfIntToBits(x, 8);
    BitsToByte(IntToBits(x, 8))
  }

  lemma ByteValueOf(x: int)
    requires 0 <= x < 0x100
    ensures ByteValue(ByteOf(x)) == x
  {
    Pow2Widths();
    ByteToBitsOfBitsToByte(IntToBits(x, 8));
    ValueOfIntToBits(x, 8);
  }

  lemma ByteOfValue(b: byte)
    ensures ByteOf(ByteValue(b)) == b
  {
    IntToBitsOfValue(ByteToBits(b));
    BitsToByteOfByteToBits(b);
  }

  /** A bit string has value zero exactly when every bit is clear. */
  lemma {:induction false} ValueZero(bits: seq<bool>)
    ensures ValueOfBits(bits) == 0 <==> forall i :: 0 <= i < |bits| ==> !bits[i]
  {
    if |bits| > 0 {
      var n := |bits|;
      ValueZero(bits[..n - 1]);
      if ValueOfBits(bits) == 0 {
        forall i | 0 <= i < n
          ensures !bits[i]
        {
          if i < n - 1 {
            assert bits[..n - 1][i] == bits[i];
          }
        }
      }
    }
  }

  /** Only the zero byte has value zero. */
  lemma ByteValueZero(b: byte)
    ensures ByteValue(b) == 0 <==> b == 0
  {
    var bits := ByteToBits(b);
    ValueZero(bits);
    if ByteValue(b) == 0 {
      forall k | 0 <= k < 8
        ensures BitOf(b, k) == BitOf(0, k)
      {
        assert !bits[k];
      }
      BitsDetermineByte(b, 0);
    }
    if b == 0 {
      assert forall i :: 0 <= i < 8 ==> !bits[i];
    }
  }

  /** `n.to_bytes(4, 'big')`: defined only for 0 <= n < 2^32. */
  function UInt32ToBytes(n: int): (bs: seq<byte>)
    requires 0 <= n < UINT32_LIMIT
    ensures |bs| == 4
  {
    Pow2Widths();
    Pack(IntToBits(n, 32))
  }

  /** `int.from_bytes(bs, 'big')` for four bytes. */
  function BytesToUInt32(bs: seq<byte>): (n: nat)
    requires |bs| == 4
    ensures n < UINT32_LIMIT
  {
    Pow2Widths();
    ValueOfBits(Expand(bs))
  }

  /** Decoding the big-endian bytes of `n` returns `n`. */
  lemma UInt32RoundTrip(n: int)
    requires 0 <= n < UINT32_LIMIT
    ensures BytesToUInt32(UInt32ToBytes(n)) == n
  {
    Pow2Widths();
    ExpandPack(IntToBits(n, 32));
    ValueOfIntToBits(n, 32);
  }

  /** Encoding the value of four big-endian bytes returns those bytes. */
  lemma BytesRoundTrip(bs: seq<byte>)
    requires |bs| == 4
    ensures UInt32ToBytes(BytesToUInt32(bs)) == bs
  {
    IntToBitsOfValue(Expand(bs));
    PackExpand(bs);
  }

  /** Appending a byte to big-endian bytes appends a base-256 digit. */
  lemma ValueOfSnoc(data: seq<byte>, b: byte)
    ensures ValueOfBits(Expand(data + [b])) == ValueOfBits(Expand(data)) * 0x100 + ByteValue(b)
  {
    ExpandAppend(data, [b]);
    assert Expand([b]) == ByteToBits(b) by {
      assert Expand([b]) == ByteToBits(b) + Expand([]);
    }
    ValueOfAppend(Expand(data), ByteToBits(b));
    Pow2Widths();
  }

  /** The four bytes are the base-256 digits of the value, most significant
      first. */
  lemma BytesToUInt32Digits(bs: seq<byte>)
    requires |bs| == 4
    ensures BytesToUInt32(bs)
         == ByteValue(bs[0]) * 0x100_0000 + ByteValue(bs[1]) * 0x1_0000 + ByteValue(bs[2]) * 0x100 + ByteValue(bs[3])
  {
    var d0, d1, d2, d3 := ByteValue(bs[0]), ByteValue(bs[1]), ByteValue(bs[2]), ByteValue(bs[3]);
    assert ValueOfBits(Expand(bs[..1])) == d0 by {
      assert bs[..1] == [bs[0]];
      assert Expand([bs[0]]) == ByteToBits(bs[0]) + Expand([]);
      assert ByteToBits(bs[0]) + [] == ByteToBits(bs[0]);
    }
    ValueOfSnoc(bs[..1], bs[1]);
    assert bs[..1] + [bs[1]] == bs[..2];
    ValueOfSnoc(bs[..2], bs[2]);
    assert bs[..2] + [bs[2]] == bs[..3];
    ValueOfSnoc(bs[..3], bs[3]);
    assert bs[..3] + [bs[3]] == bs;
    assert BytesToUInt32(bs) == ((d0 * 0x100 + d1) * 0x100 + d2) * 0x100 + d3;
  }
}
