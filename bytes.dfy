// Fixed-width integer types of the Go driver and the big-endian byte layouts
// it uses on the wire (encoding/binary.BigEndian and explicit shifts).
module Bytes {

  /** Go's uint8 / byte. */
  type byte = b: int | 0 <= b < 256

  /** Go's uint16. */
  type uint16 = x: int | 0 <= x < 0x1_0000

  /** Go's int16 (two's complement on the wire). */
  type int16 = x: int | -0x8000 <= x < 0x8000

  /** Go's uint32. */
  type uint32 = x: int | 0 <= x < 0x1_0000_0000

  /** Unsigned 16-bit value of the big-endian pair hi, lo. */
  function U16(hi: byte, lo: byte): (r: uint16)
    ensures r / 256 == hi && r % 256 == lo
  {
    hi * 256 + lo
  }

  /** The two bytes uint8(v >> 8), uint8(v & 0xFF) that the command builders emit. */
  function U16Bytes(v: uint16): (r: seq<byte>)
    ensures |r| == 2 && U16(r[0], r[1]) == v
  {
    [v / 256, v % 256]
  }

  /** Signed 16-bit value of the big-endian two's-complement pair hi, lo. */
  function I16(hi: byte, lo: byte): (r: int16)
    ensures (r < 0 <==> hi >= 0x80)
    ensures (if r < 0 then r + 0x1_0000 else r) == U16(hi, lo)
  {
    var u := U16(hi, lo);
    if u >= 0x8000 then u - 0x1_0000 else u
  }

  /** Big-endian two's-complement encoding of a signed 16-bit value. */
  function I16Bytes(v: int16): (r: seq<byte>)
    ensures |r| == 2 && I16(r[0], r[1]) == v
  {
    U16Bytes(if v < 0 then v + 0x1_0000 else v)
  }

  /** Unsigned 32-bit value of four big-endian bytes. */
  function U32(b0: byte, b1: byte, b2: byte, b3: byte): (r: uint32)
    ensures r % 256 == b3 && r / 0x100_0000 == b0
  {
    U16(b0, b1) * 0x1_0000 + U16(b2, b3)
  }

  /** Big-endian encoding of an unsigned 32-bit value. */
  function U32Bytes(v: uint32): (r: seq<byte>)
    ensures |r| == 4 && U32(r[0], r[1], r[2], r[3]) == v
  {
    U16Bytes(v / 0x1_0000) + U16Bytes(v % 0x1_0000)
  }

  /** Decoding a signed pair and encoding it again gives back the two bytes. */
  lemma I16BytesOfI16(hi: byte, lo: byte)
    ensures I16Bytes(I16(hi, lo)) == [hi, lo]
  {
  }

  /** Decoding four bytes as a uint32 and encoding it again gives them back. */
  lemma U32BytesOfU32(b0: byte, b1: byte, b2: byte, b3: byte)
    ensures U32Bytes(U32(b0, b1, b2, b3)) == [b0, b1, b2, b3]
  {
    var hi, lo := U16(b0, b1), U16(b2, b3);
    SplitU32(hi, lo);
    assert U16Bytes(hi) == [b0, b1];
    assert U16Bytes(lo) == [b2, b3];
  }

  /** The high and low halves of hi * 65536 + lo are hi and lo. */
  lemma SplitU32(hi: uint16, lo: uint16)
    ensures (hi * 0x1_0000 + lo) / 0x1_0000 == hi
    ensures (hi * 0x1_0000 + lo) % 0x1_0000 == lo
  {
    var v := hi * 0x1_0000 + lo;
    var q, r := v / 0x1_0000, v % 0x1_0000;
    assert v == q * 0x1_0000 + r;
    assert (q - hi) * 0x1_0000 == lo - r;
  }
}
