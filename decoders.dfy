/** The numeric decoders: an 8-byte little-endian buffer read as an unsigned
    64-bit word (`le64toh`), then as a two's-complement integer
    (decode_integer) or kept as the bit pattern of an IEEE-754 double
    (decode_double). */
module Decoders {
  import opened Format

  const TWO_63: nat := 0x8000_0000_0000_0000
  const TWO_64: nat := 0x1_0000_0000_0000_0000

  function Pow256(n: nat): (p: nat)
    ensures p > 0
  {
    if n == 0 then 1 else 256 * Pow256(n - 1)
  }

  /** Unsigned value of a little-endian byte string: byte k weighs 256^k. */
  function LittleEndian(b: seq<byte>): nat
  {
    if b == [] then 0 else b[0] + 256 * LittleEndian(b[1..])
  }

  /** The n-byte little-endian encoding of x. */
  function ToLittleEndian(x: nat, n: nat): (b: seq<byte>)
    requires x < Pow256(n)
    ensures |b| == n
  {
    if n == 0 then [] else [x % 256] + ToLittleEndian(x / 256, n - 1)
  }

  lemma {:induction false} LittleEndianBound(b: seq<byte>)
    ensures LittleEndian(b) < Pow256(|b|)
  {
    if b != [] {
      LittleEndianBound(b[1..]);
    }
  }

  /** Decoding an encoding gives the number back. */
  lemma {:induction false} DecodeEncode(x: nat, n: nat)
    requires x < Pow256(n)
    ensures LittleEndian(ToLittleEndian(x, n)) == x
  {
    if n > 0 {
      DecodeEncode(x / 256, n - 1);
      assert ToLittleEndian(x, n)[1..] == ToLittleEndian(x / 256, n - 1);
    }
  }

  /** Encoding a decoded byte string gives the bytes back. */
  lemma {:induction false} EncodeDecode(b: seq<byte>)
    ensures LittleEndian(b) < Pow256(|b|)
    ensures ToLittleEndian(LittleEndian(b), |b|) == b
  {
    LittleEndianBound(b);
    if b != [] {
      EncodeDecode(b[1..]);
      var x := LittleEndian(b);
      assert x % 256 == b[0] && x / 256 == LittleEndian(b[1..]);
    }
  }

  /** The last byte carries weight 256^(|b|-1). */
  lemma {:induction false} LittleEndianLast(b: seq<byte>)
    requires b != []
    ensures LittleEndian(b) == LittleEndian(b[..|b| - 1]) + Pow256(|b| - 1) * b[|b| - 1]
  {
    if |b| > 1 {
      LittleEndianLast(b[1..]);
      assert b[1..][..|b| - 2] == b[..|b| - 1][1..];
    }
  }

  lemma Pow256Words()
    ensures Pow256(7) * 128 == TWO_63 && Pow256(8) == TWO_64
  {
  }

  /** The top bit of an 8-byte little-endian word is the top bit of byte 7. */
  lemma SignBit(b: seq<byte>)
    requires |b| == 8
    ensures LittleEndian(b) >= TWO_63 <==> b[7] >= 0x80
  {
    LittleEndianLast(b);
    LittleEndianBound(b[..7]);
    Pow256Words();
    var low, p := LittleEndian(b[..7]), Pow256(7);
    assert LittleEndian(b) == low + p * b[7];
    if b[7] >= 0x80 {
      assert p * b[7] >= p * 128;
    } else {
      assert p * b[7] <= p * 127;
    }
  }

  /** `le64toh` of 8 bytes: the unsigned 64-bit word they hold. */
  function Word(b: seq<byte>): (w: nat)
    requires |b| == ELEM_SIZE
    ensures w < TWO_64
  {
    LittleEndianBound(b);
    Pow256Words();
    LittleEndian(b)
  }

  /** decode_integer: the word read as a two's-complement signed 64-bit integer. */
  function DecodeInteger(b: seq<byte>): (v: int)
    requires |b| == ELEM_SIZE
    ensures -(TWO_63 as int) <= v < TWO_63
    ensures v == LittleEndian(b) - (if b[7] >= 0x80 then TWO_64 else 0)
  {
    SignBit(b);
    var w := Word(b);
    if w >= TWO_63 then w - TWO_64 else w
  }

  /** decode_double: the raw bit pattern of the binary64 value. */
  function DecodeDouble(b: seq<byte>): (bits: nat)
    requires |b| == ELEM_SIZE
    ensures bits < TWO_64
  {
    Word(b)
  }

  /** The 8 bytes a signed 64-bit integer is stored as. */
  function EncodeInteger(v: int): (b: seq<byte>)
    requires -(TWO_63 as int) <= v < TWO_63
    ensures |b| == ELEM_SIZE
  {
    Pow256Words();
    ToLittleEndian(if v < 0 then v + TWO_64 else v, 8)
  }

  /** The 8 bytes a double with the given bit pattern is stored as. */
  function EncodeDouble(bits: nat): (b: seq<byte>)
    requires bits < TWO_64
    ensures |b| == ELEM_SIZE
  {
    Pow256Words();
    ToLittleEndian(bits, 8)
  }

  lemma IntegerRoundTrip(v: int)
    requires -(TWO_63 as int) <= v < TWO_63
    ensures DecodeInteger(EncodeInteger(v)) == v
  {
    Pow256Words();
    DecodeEncode(if v < 0 then v + TWO_64 else v, 8);
  }

  lemma IntegerBytesRoundTrip(b: seq<byte>)
    requires |b| == ELEM_SIZE
    ensures EncodeInteger(DecodeInteger(b)) == b
  {
    Pow256Words();
    EncodeDecode(b);
  }

  lemma DoubleRoundTrip(bits: nat)
    requires bits < TWO_64
    ensures DecodeDouble(EncodeDouble(bits)) == bits
  {
    Pow256Words();
    DecodeEncode(bits, 8);
  }

  lemma DoubleBytesRoundTrip(b: seq<byte>)
    requires |b| == ELEM_SIZE
    ensures EncodeDouble(DecodeDouble(b)) == b
  {
    Pow256Words();
    EncodeDecode(b);
  }
}
