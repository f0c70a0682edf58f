// The fixed command bodies and ids of the driver's high-level commands, and
// the byte extraction GetRGB applies to the synchronous reply.
module Commands {
  import opened Bytes
  import opened Codec

  /** Device id, command id and body handed to craftPacket. */
  datatype Command = Command(did: byte, cid: byte, body: seq<byte>)

  /** Device id of the Sphero core commands. */
  const SpheroDid: byte := 0x02

  function SetRGB(r: byte, g: byte, b: byte): (c: Command)
    ensures c.did == SpheroDid && c.cid == 0x20
    ensures |c.body| == 4 && c.body[..3] == [r, g, b] && c.body[3] == 0x01
  {
    Command(SpheroDid, 0x20, [r, g, b, 0x01])
  }

  /** The request GetRGB sends: an empty body. */
  function GetRGB(): (c: Command)
    ensures c.did == SpheroDid && c.cid == 0x22 && c.body == []
  {
    Command(SpheroDid, 0x22, [])
  }

  function SetBackLED(level: byte): (c: Command)
    ensures c.did == SpheroDid && c.cid == 0x21 && c.body == [level]
  {
    Command(SpheroDid, 0x21, [level])
  }

  /** The heading travels as two big-endian bytes that decode back to it. */
  function SetHeading(heading: uint16): (c: Command)
    ensures c.did == SpheroDid && c.cid == 0x01
    ensures |c.body| == 2 && U16(c.body[0], c.body[1]) == heading
  {
    Command(SpheroDid, 0x01, U16Bytes(heading))
  }

  /** One flag byte: 0x01 when on, 0x00 when off. */
  function SetStabilization(on: bool): (c: Command)
    ensures c.did == SpheroDid && c.cid == 0x02
    ensures |c.body| == 1 && (c.body[0] == 0x01 <==> on) && c.body[0] <= 0x01
  {
    Command(SpheroDid, 0x02, [if on then 0x01 else 0x00])
  }

  /** Speed, big-endian heading, then the state byte 0x01. */
  function Roll(speed: byte, heading: uint16): (c: Command)
    ensures c.did == SpheroDid && c.cid == 0x30
    ensures |c.body| == 4 && c.body[0] == speed && U16(c.body[1], c.body[2]) == heading
    ensures c.body[3] == 0x01
  {
    Command(SpheroDid, 0x30, [speed] + U16Bytes(heading) + [0x01])
  }

  /** Stop is Roll with speed 0 and heading 0. */
  function Stop(): (c: Command)
    ensures c.did == SpheroDid && c.cid == 0x30 && c.body == [0x00, 0x00, 0x00, 0x01]
  {
    assert U16Bytes(0) == [0x00, 0x00];
    Roll(0, 0)
  }

  /** Method byte 0x01 (enable), then the five thresholds in argument order. */
  function ConfigureCollisionDetectionRaw(xThreshold: byte, xSpeed: byte, yThreshold: byte,
                                          ySpeed: byte, deadTime: byte): (c: Command)
    ensures c.did == SpheroDid && c.cid == 0x12
    ensures c.body == [0x01] + [xThreshold, xSpeed, yThreshold, ySpeed, deadTime]
  {
    Command(SpheroDid, 0x12, [0x01, xThreshold, xSpeed, yThreshold, ySpeed, deadTime])
  }

  /** configureDefaultCollisionDetection: thresholds 0x40/0x40/0x50/0x50, dead time 0x60. */
  function ConfigureDefaultCollisionDetection(): (c: Command)
    ensures c.did == SpheroDid && c.cid == 0x12 && c.body == [0x01, 0x40, 0x40, 0x50, 0x50, 0x60]
  {
    ConfigureCollisionDetectionRaw(0x40, 0x40, 0x50, 0x50, 0x60)
  }

  function EnableStopOnDisconnect(): (c: Command)
    ensures c.did == SpheroDid && c.cid == 0x37 && c.body == [0x00, 0x00, 0x00, 0x01]
  {
    Command(SpheroDid, 0x37, [0x00, 0x00, 0x00, 0x01])
  }

  /**
   * GetRGB's reading of the synchronous reply: bytes 5, 6, 7 of a 9-byte
   * reply, and an empty result for any other length.
   */
  function Rgb(buf: seq<byte>): (rgb: seq<byte>)
    ensures |buf| == 9 ==> rgb == buf[5..8]
    ensures |buf| != 9 ==> rgb == []
  {
    if |buf| == 9 then [buf[5], buf[6], buf[7]] else []
  }

  /** A synchronous reply as the device sends it: [0xFF, 0xFF, mrsp, seq, dlen] ++ data ++ checksum. */
  function Reply(mrsp: byte, sq: byte, data: seq<byte>): (f: seq<byte>)
    requires |data| < 255
    ensures |f| == |data| + 6 && ValidChecksum(f)
    ensures f[..2] == [0xFF, 0xFF] && f[2] == mrsp && f[3] == sq && f[4] == |data| + 1
    ensures f[5..|f| - 1] == data
  {
    var covered := [mrsp, sq, |data| + 1] + data;
    assert ([0xFF, 0xFF] + covered + [Checksum(covered)])[2..|covered| + 2] == covered;
    [0xFF, 0xFF] + covered + [Checksum(covered)]
  }

  /** The colour the device reports in a reply is exactly what GetRGB returns. */
  lemma RgbOfReply(mrsp: byte, sq: byte, r: byte, g: byte, b: byte)
    ensures Rgb(Reply(mrsp, sq, [r, g, b])) == [r, g, b]
  {
    var f := Reply(mrsp, sq, [r, g, b]);
    assert f[5] == r && f[6] == g && f[7] == b;
  }
}
