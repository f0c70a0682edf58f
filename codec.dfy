// Outbound command framing and the one's-complement checksum of the Sphero
// serial protocol (platforms/sphero/sphero_driver.go, packet, craftPacket,
// calculateChecksum).
module Codec {
  import opened Bytes

  /** An outbound packet: a 6-byte header, the body and one checksum byte. */
  datatype Packet = Packet(header: seq<byte>, body: seq<byte>, checksum: byte)

  /** Sum of all bytes, unbounded. */
  function Sum(buf: seq<byte>): nat
  {
    if buf == [] then 0 else Sum(buf[..|buf| - 1]) + buf[|buf| - 1]
  }

  /**
   * The checksum the driver computes: the bitwise complement of the byte
   * sum modulo 256, truncated to eight bits. Adding it to the sum gives 0xFF.
   */
  function Checksum(buf: seq<byte>): (c: byte)
    ensures (Sum(buf) + c) % 256 == 0xFF
  {
    255 - Sum(buf) % 256
  }

  /** The integrity test a receiver applies: the last byte is the checksum of bytes 2 .. |frame|-2. */
  predicate ValidChecksum(frame: seq<byte>)
  {
    |frame| >= 3 && frame[|frame| - 1] == Checksum(frame[2..|frame| - 1])
  }

  lemma {:induction false} SumAppend(a: seq<byte>, b: seq<byte>)
    ensures Sum(a + b) == Sum(a) + Sum(b)
    decreases |b|
  {
    if b == [] {
      assert a + b == a;
    } else {
      var b' := b[..|b| - 1];
      assert (a + b)[..|a + b| - 1] == a + b';
      SumAppend(a, b');
    }
  }

  lemma {:induction false} SumUpdate(buf: seq<byte>, k: nat, v: byte)
    requires k < |buf|
    ensures Sum(buf[k := v]) == Sum(buf) - buf[k] + v
  {
    var pre, post := buf[..k], buf[k + 1..];
    assert buf == pre + [buf[k]] + post;
    assert buf[k := v] == pre + [v] + post;
    SumAppend(pre + [buf[k]], post);
    SumAppend(pre + [v], post);
    SumAppend(pre, [buf[k]]);
    SumAppend(pre, [v]);
    assert Sum([v]) == v by { assert [v][..0] == []; }
    assert Sum([buf[k]]) == buf[k] by { assert [buf[k]][..0] == []; }
  }

  /** Adding to a value already reduced modulo 65536 reduces the same way. */
  lemma AddMod16(a: nat, b: nat)
    ensures (a % 0x1_0000 + b) % 0x1_0000 == (a + b) % 0x1_0000
  {
    var q := a / 0x1_0000;
    assert a == q * 0x1_0000 + a % 0x1_0000;
    assert (a % 0x1_0000 + b) + q * 0x1_0000 == a + b;
  }

  /** 65536 is a multiple of 256, so the uint16 wrap-around keeps the low byte. */
  lemma LowByteOfWrapped(x: nat)
    ensures (x % 0x1_0000) % 256 == x % 256
  {
    var q := x / 0x1_0000;
    assert x == (q * 256) * 256 + x % 0x1_0000;
  }

  /**
   * calculateChecksum as the driver runs it: a uint16 accumulator that
   * may wrap, then uint8(^(acc % 256)). Because 65536 is a multiple of 256
   * the wrap-around never changes the result.
   */
  method CalculateChecksum(buf: seq<byte>) returns (c: byte)
    ensures c == Checksum(buf)
    ensures (Sum(buf) + c) % 256 == 0xFF
  {
    var acc: uint16 := 0;
    var i := 0;
    while i < |buf|
      invariant 0 <= i <= |buf|
      invariant acc == Sum(buf[..i]) % 0x1_0000
    {
      assert buf[..i + 1][..i] == buf[..i];
      AddMod16(Sum(buf[..i]), buf[i]);
      acc := (acc + buf[i]) % 0x1_0000;
      i := i + 1;
    }
    assert buf[..|buf|] == buf;
    LowByteOfWrapped(Sum(buf));
    // ^x on a uint16 is 0xFFFF - x; the conversion to uint8 keeps the low byte.
    c := (0xFFFF - acc % 256) % 256;
  }

  /** The bytes the packet checksum covers: header[2:] ++ body. */
  function Covered(p: Packet): (r: seq<byte>)
    requires |p.header| >= 2
    ensures |r| == |p.header| - 2 + |p.body|
  {
    (p.header + p.body)[2..]
  }

  /** The driver's calculateChecksum(packet): the checksum over header[2:] ++ body. */
  method PacketChecksum(p: Packet) returns (c: byte)
    requires |p.header| >= 2
    ensures c == Checksum(Covered(p))
    ensures (Sum(p.header[2..]) + Sum(p.body) + c) % 256 == 0xFF
  {
    var buf := p.header + p.body;
    assert buf[2..] == p.header[2..] + p.body;
    SumAppend(p.header[2..], p.body);
    c := CalculateChecksum(buf[2..]);
  }

  /** craftPacket for a given value of the driver's sequence counter. */
  function Craft(sq: byte, body: seq<byte>, did: byte, cid: byte): (p: Packet)
    ensures p.header == [0xFF, 0xFF, did, cid, sq, (|body| + 1) % 256]
    ensures p.body == body
    ensures p.checksum == Checksum([did, cid, sq, (|body| + 1) % 256] + body)
  {
    var header := [0xFF, 0xFF, did, cid, sq, (|body| + 1) % 256];
    assert (header + body)[2..] == header[2..] + body;
    var p := Packet(header, body, 0);
    p.(checksum := Checksum(Covered(p)))
  }

  /** The shape every crafted packet has. */
  predicate WellFormed(p: Packet)
  {
    |p.header| == 6 && p.header[0] == 0xFF && p.header[1] == 0xFF
    && p.header[5] == (|p.body| + 1) % 256
    && p.checksum == Checksum(Covered(p))
  }

  /** The contiguous buffer write hands to the transport: header ++ body ++ checksum. */
  function Serialize(p: Packet): (buf: seq<byte>)
    ensures |buf| == |p.header| + |p.body| + 1
    ensures buf[..|p.header|] == p.header
    ensures buf[|p.header|..|buf| - 1] == p.body && buf[|buf| - 1] == p.checksum
  {
    p.header + p.body + [p.checksum]
  }

  /** What a receiver reads back from the standard header. */
  datatype HeaderFields = HeaderFields(did: byte, cid: byte, sq: byte, dlen: byte)

  function ParseHeader(frame: seq<byte>): (h: HeaderFields)
    requires |frame| >= 6
  {
    HeaderFields(frame[2], frame[3], frame[4], frame[5])
  }

  /**
   * A crafted and serialised packet carries its device id, command id,
   * sequence number and body length + 1 in the header, carries the body
   * unchanged, and passes the receiver's checksum test.
   */
  lemma CraftedFrameRoundTrip(sq: byte, body: seq<byte>, did: byte, cid: byte)
    ensures WellFormed(Craft(sq, body, did, cid))
    ensures var buf := Serialize(Craft(sq, body, did, cid));
      |buf| == |body| + 7
      && ParseHeader(buf) == HeaderFields(did, cid, sq, (|body| + 1) % 256)
      && buf[6..6 + |body|] == body
      && ValidChecksum(buf)
  {
    var p := Craft(sq, body, did, cid);
    var buf := Serialize(p);
    assert buf[2..|buf| - 1] == Covered(p);
  }

  /** Changing any single covered byte of a valid frame makes the checksum test fail. */
  lemma SingleByteChangeDetected(frame: seq<byte>, k: nat, v: byte)
    requires ValidChecksum(frame)
    requires 2 <= k < |frame| && v != frame[k]
    ensures !ValidChecksum(frame[k := v])
  {
    var n := |frame|;
    var f := frame[k := v];
    if k < n - 1 {
      assert f[2..n - 1] == frame[2..n - 1][k - 2 := v];
      SumUpdate(frame[2..n - 1], k - 2, v);
      assert f[n - 1] == frame[n - 1];
    } else {
      assert f[2..n - 1] == frame[2..n - 1];
    }
  }
}
