// The asynchronous collision notification: the Collision record, its
// 16-byte big-endian payload, and the decision handleCollisionDetected makes
// between publishing a decoded record and publishing the raw frame.
module Collision {
  import opened Bytes
  import opened Codec

  /** The Collision struct, field by field in wire order. */
  datatype Collision = Collision(
    x: int16, y: int16, z: int16,
    axis: byte,
    xMagnitude: int16, yMagnitude: int16,
    speed: byte,
    timestamp: uint32)

  /** The payload published on the "collision" event: a record, or the raw frame. */
  datatype Payload = Record(collision: Collision) | Raw(data: seq<byte>)

  /** Async id code of a collision notification (frame byte 2). */
  const CollisionIdCode: byte := 0x07

  /** Payload length byte of a collision frame: 16 data bytes + 1 checksum byte. */
  const CollisionDlen: byte := 17

  /** Total length of a collision frame: 5-byte async header + 16 + 1. */
  const CollisionFrameLength: nat := 22

  /** binary.Read of a Collision from 16 big-endian bytes. */
  function Decode(b: seq<byte>): (c: Collision)
    requires |b| >= 16
  {
    Collision(
      I16(b[0], b[1]), I16(b[2], b[3]), I16(b[4], b[5]),
      b[6],
      I16(b[7], b[8]), I16(b[9], b[10]),
      b[11],
      U32(b[12], b[13], b[14], b[15]))
  }

  /** The 16-byte big-endian layout of a Collision (binary.Write's inverse of Decode). */
  function Encode(c: Collision): (b: seq<byte>)
    ensures |b| == 16
  {
    I16Bytes(c.x) + I16Bytes(c.y) + I16Bytes(c.z) + [c.axis]
    + I16Bytes(c.xMagnitude) + I16Bytes(c.yMagnitude) + [c.speed]
    + U32Bytes(c.timestamp)
  }

  lemma DecodeEncode(c: Collision)
    ensures Decode(Encode(c)) == c
  {
    var b := Encode(c);
    assert b[0..2] == I16Bytes(c.x);
    assert b[2..4] == I16Bytes(c.y);
    assert b[4..6] == I16Bytes(c.z);
    assert b[7..9] == I16Bytes(c.xMagnitude);
    assert b[9..11] == I16Bytes(c.yMagnitude);
    assert b[12..16] == U32Bytes(c.timestamp);
  }

  /** Every 16-byte payload is the encoding of the record it decodes to. */
  lemma EncodeDecode(b: seq<byte>)
    requires |b| == 16
    ensures Encode(Decode(b)) == b
  {
    var c := Decode(b);
    I16BytesOfI16(b[0], b[1]);
    I16BytesOfI16(b[2], b[3]);
    I16BytesOfI16(b[4], b[5]);
    I16BytesOfI16(b[7], b[8]);
    I16BytesOfI16(b[9], b[10]);
    U32BytesOfU32(b[12], b[13], b[14], b[15]);
    assert b == b[0..2] + b[2..4] + b[4..6] + [b[6]] + b[7..9] + b[9..11] + [b[11]] + b[12..16];
  }

  /** The checks handleCollisionDetected applies before decoding. */
  predicate Decodable(data: seq<byte>)
  {
    |data| == CollisionFrameLength && data[4] == CollisionDlen && ValidChecksum(data)
  }

  /**
   * What one call of handleCollisionDetected publishes: the decoded record
   * (bytes 5..20) exactly when length, length byte and checksum pass, and
   * otherwise the raw frame unchanged.
   */
  function Handle(data: seq<byte>): (p: Payload)
    ensures p.Record? <==> Decodable(data)
    ensures p.Raw? ==> p.data == data
    ensures p.Record? ==>
      p.collision.x == I16(data[5], data[6]) && p.collision.y == I16(data[7], data[8])
      && p.collision.z == I16(data[9], data[10]) && p.collision.axis == data[11]
      && p.collision.xMagnitude == I16(data[12], data[13])
      && p.collision.yMagnitude == I16(data[14], data[15])
      && p.collision.speed == data[16]
      && p.collision.timestamp == U32(data[17], data[18], data[19], data[20])
  {
    if Decodable(data) then Record(Decode(data[5..])) else Raw(data)
  }

  /** A well-formed collision notification as the device sends it. */
  function Notification(c: Collision): (f: seq<byte>)
    ensures |f| == CollisionFrameLength
  {
    var covered := [CollisionIdCode, 0x00, CollisionDlen] + Encode(c);
    [0xFF, 0xFE] + covered + [Checksum(covered)]
  }

  /** A valid collision frame is published as exactly the record it carries. */
  lemma FramePublishesRecord(c: Collision)
    ensures Handle(Notification(c)) == Record(c)
  {
    var f := Notification(c);
    var covered := [CollisionIdCode, 0x00, CollisionDlen] + Encode(c);
    assert f[2..21] == covered;
    assert f[5..] == Encode(c) + [Checksum(covered)];
    assert f[5..][..16] == Encode(c);
    DecodeEncode(c);
    assert Decode(f[5..]) == Decode(Encode(c));
  }

  /** Corrupting one payload byte of a valid frame makes the handler publish the raw bytes. */
  lemma CorruptedFramePublishesRaw(c: Collision, k: nat, v: byte)
    requires 5 <= k < 21 && v != Notification(c)[k]
    ensures Handle(Notification(c)[k := v]) == Raw(Notification(c)[k := v])
  {
    var f := Notification(c);
    var covered := [CollisionIdCode, 0x00, CollisionDlen] + Encode(c);
    assert f[2..21] == covered;
    SingleByteChangeDetected(f, k, v);
  }
}
