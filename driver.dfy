// The SpheroDriver object: its sequence counter, the async and sync
// response lists, the two channels (as FIFO sequences) and the event bus (as
// a log of publications). Each goroutine loop body of Start is one method.
module Driver {
  import opened Bytes
  import opened Codec
  import opened Transport
  import opened Dispatch
  import Collision
  import Commands

  class SpheroDriver {
    /** The driver-local sequence counter (the Go field `seq`). */
    var sequence: byte
    var asyncResponse: seq<Frame>
    var syncResponse: seq<Frame>
    /** packetChannel: packets waiting for the writer goroutine, oldest first. */
    var packetChannel: seq<Packet>
    /** responseChannel: sync frames waiting for the appender goroutine, oldest first. */
    var responseChannel: seq<Frame>
    /** Everything published on the device's events, in publication order. */
    var published: seq<Publication>

    /** Every inbound frame holds at least its 5-byte header; every queued packet is crafted. */
    ghost predicate Valid()
      reads this
    {
      AllFrames(asyncResponse) && AllFrames(syncResponse) && AllFrames(responseChannel)
      && forall i | 0 <= i < |packetChannel| :: WellFormed(packetChannel[i])
    }

    /** NewSpheroDriver: counter 0, every list and channel empty. */
    constructor ()
      ensures Valid()
      ensures sequence == 0 && asyncResponse == [] && syncResponse == []
      ensures packetChannel == [] && responseChannel == [] && published == []
    {
      sequence := 0;
      asyncResponse, syncResponse := [], [];
      packetChannel, responseChannel := [], [];
      published := [];
    }

    /** craftPacket: the frame for `body` under the current counter, which it does not change. */
    method CraftPacket(body: seq<byte>, did: byte, cid: byte) returns (p: Packet)
      ensures p == Craft(sequence, body, did, cid)
      ensures WellFormed(p) && p.header[4] == sequence
    {
      var dlen: byte := (|body| + 1) % 256;
      var header: seq<byte> := [0xFF, 0xFF, did, cid, sequence, dlen];
      p := Packet(header, body, 0);
      var c := PacketChecksum(p);
      p := p.(checksum := c);
    }

    /** `s.packetChannel <- s.craftPacket(body, did, cid)`. */
    method Send(cmd: Commands.Command)
      requires Valid()
      modifies this`packetChannel
      ensures Valid()
      ensures packetChannel == old(packetChannel) + [Craft(sequence, cmd.body, cmd.did, cmd.cid)]
    {
      var p := CraftPacket(cmd.body, cmd.did, cmd.cid);
      packetChannel := packetChannel + [p];
    }

    method SetRGB(r: byte, g: byte, b: byte)
      requires Valid()
      modifies this`packetChannel
      ensures Valid()
      ensures packetChannel == old(packetChannel) + [Craft(sequence, [r, g, b, 0x01], 0x02, 0x20)]
    {
      Send(Commands.SetRGB(r, g, b));
    }

    method SetBackLED(level: byte)
      requires Valid()
      modifies this`packetChannel
      ensures Valid()
      ensures packetChannel == old(packetChannel) + [Craft(sequence, [level], 0x02, 0x21)]
    {
      Send(Commands.SetBackLED(level));
    }

    method SetHeading(heading: uint16)
      requires Valid()
      modifies this`packetChannel
      ensures Valid()
      ensures packetChannel == old(packetChannel) + [Craft(sequence, U16Bytes(heading), 0x02, 0x01)]
    {
      Send(Commands.SetHeading(heading));
    }

    method SetStabilization(on: bool)
      requires Valid()
      modifies this`packetChannel
      ensures Valid()
      ensures packetChannel == old(packetChannel) + [Craft(sequence, [if on then 0x01 else 0x00], 0x02, 0x02)]
    {
      Send(Commands.SetStabilization(on));
    }

    method Roll(speed: byte, heading: uint16)
      requires Valid()
      modifies this`packetChannel
      ensures Valid()
      ensures packetChannel == old(packetChannel) + [Craft(sequence, [speed] + U16Bytes(heading) + [0x01], 0x02, 0x30)]
    {
      Send(Commands.Roll(speed, heading));
    }

    method Stop()
      requires Valid()
      modifies this`packetChannel
      ensures Valid()
      ensures packetChannel == old(packetChannel) + [Craft(sequence, [0x00, 0x00, 0x00, 0x01], 0x02, 0x30)]
    {
      assert U16Bytes(0) == [0x00, 0x00];
      assert [0x00] + U16Bytes(0) + [0x01] == [0x00, 0x00, 0x00, 0x01];
      Roll(0, 0);
    }

    method ConfigureCollisionDetectionRaw(xThreshold: byte, xSpeed: byte, yThreshold: byte,
                                          ySpeed: byte, deadTime: byte)
      requires Valid()
      modifies this`packetChannel
      ensures Valid()
      ensures packetChannel == old(packetChannel)
        + [Craft(sequence, [0x01, xThreshold, xSpeed, yThreshold, ySpeed, deadTime], 0x02, 0x12)]
    {
      Send(Commands.ConfigureCollisionDetectionRaw(xThreshold, xSpeed, yThreshold, ySpeed, deadTime));
    }

    method EnableStopOnDisconnect()
      requires Valid()
      modifies this`packetChannel
      ensures Valid()
      ensures packetChannel == old(packetChannel) + [Craft(sequence, [0x00, 0x00, 0x00, 0x01], 0x02, 0x37)]
    {
      Send(Commands.EnableStopOnDisconnect());
    }

    /**
     * The sequential part of Start: the default collision configuration,
     * then stop-on-disconnect. In this sequential model no WriterStep runs
     * between the two calls, so both packets carry the current counter; in
     * the driver the writer goroutine is already running and may write the
     * first packet, and advance the counter, before the second is crafted.
     */
    method Start()
      requires Valid()
      modifies this`packetChannel
      ensures Valid()
      ensures packetChannel == old(packetChannel)
        + [Craft(sequence, [0x01, 0x40, 0x40, 0x50, 0x50, 0x60], 0x02, 0x12),
           Craft(sequence, [0x00, 0x00, 0x00, 0x01], 0x02, 0x37)]
      ensures packetChannel[|packetChannel| - 2].header[4] == packetChannel[|packetChannel| - 1].header[4] == sequence
    {
      ConfigureCollisionDetectionRaw(0x40, 0x40, 0x50, 0x50, 0x60);
      EnableStopOnDisconnect();
    }

    /**
     * write: hands header ++ body ++ checksum to the transport in one call
     * and advances the counter unless Write returned an error; a short
     * write is only logged and advances it too.
     */
    method Write(p: Packet, outcome: WriteOutcome) returns (buf: seq<byte>)
      modifies this`sequence
      ensures buf == Serialize(p)
      ensures sequence == NextSeq(old(sequence), outcome)
    {
      buf := p.header + p.body;
      buf := buf + [p.checksum];
      if outcome.WriteFailed? {
        return;
      }
      sequence := (sequence + 1) % 256;
    }

    /**
     * One turn of the writer goroutine: take the oldest packet and write it.
     * With the channel empty the goroutine is still waiting: nothing is
     * written and the result is empty.
     */
    method WriterStep(outcome: WriteOutcome) returns (buf: seq<byte>)
      requires Valid()
      modifies this`packetChannel, this`sequence
      ensures Valid()
      ensures old(packetChannel) == [] ==> buf == [] && packetChannel == [] && sequence == old(sequence)
      ensures old(packetChannel) != [] ==>
        buf == Serialize(old(packetChannel)[0]) && packetChannel == old(packetChannel)[1..]
        && sequence == NextSeq(old(sequence), outcome)
    {
      if packetChannel == [] {
        return [];
      }
      var p := packetChannel[0];
      packetChannel := packetChannel[1..];
      buf := Write(p, outcome);
    }

    /** One turn of the appender goroutine: move the oldest sync frame into syncResponse. */
    method AppenderStep()
      requires Valid()
      modifies this`responseChannel, this`syncResponse
      ensures Valid()
      ensures old(responseChannel) == [] ==> responseChannel == [] && syncResponse == old(syncResponse)
      ensures old(responseChannel) != [] ==>
        responseChannel == old(responseChannel)[1..]
        && syncResponse == old(syncResponse) + [old(responseChannel)[0]]
    {
      if responseChannel == [] {
        return;
      }
      var response := responseChannel[0];
      responseChannel := responseChannel[1..];
      syncResponse := syncResponse + [response];
    }

    /**
     * One turn of the reader goroutine over the given Read outcomes: a
     * frame whose header byte 1 is 0xFE is appended to asyncResponse, any
     * other frame is sent to responseChannel, and a failed header read adds
     * nothing anywhere.
     */
    method ReaderStep(script: seq<ReadOutcome>) returns (r: FrameRead)
      requires Valid() && ReaderFits(script)
      modifies this`asyncResponse, this`responseChannel
      ensures Valid()
      ensures r == ReadFrame(script)
      ensures r.Read? && IsAsync(r.frame) ==>
        asyncResponse == old(asyncResponse) + [r.frame] && responseChannel == old(responseChannel)
      ensures r.Read? && !IsAsync(r.frame) ==>
        responseChannel == old(responseChannel) + [r.frame] && asyncResponse == old(asyncResponse)
      ensures !r.Read? ==> asyncResponse == old(asyncResponse) && responseChannel == old(responseChannel)
    {
      var header, used := ReadNextChunk(5, script);
      if header.Nil? {
        return NoHeader;
      }
      if header.Blocked? {
        return Stalled;
      }
      var body, _ := ReadNextChunk(header.bytes[4], script[used..]);
      if body.Blocked? {
        return Stalled;
      }
      var frame := header.bytes + (if body.Filled? then body.bytes else []);
      if header.bytes[1] == 0xFE {
        asyncResponse := asyncResponse + [frame];
      } else {
        responseChannel := responseChannel + [frame];
      }
      return Read(frame);
    }

    /**
     * handleCollisionDetected: publishes exactly once, the decoded record
     * when length, length byte and checksum pass, the raw frame otherwise.
     */
    method HandleCollisionDetected(data: seq<byte>)
      modifies this`published
      ensures published == old(published) + [Publication("collision", Collision.Handle(data))]
    {
      if |data| == 22 && data[4] == 17 {
        var checksum := data[|data| - 1];
        var expected := CalculateChecksum(data[2..|data| - 1]);
        if checksum == expected {
          var collision := Collision.Decode(data[5..]);
          published := published + [Publication("collision", Collision.Record(collision))];
          return;
        }
      }
      published := published + [Publication("collision", Collision.Raw(data))];
    }

    /**
     * One wake-up of the async goroutine: pop from the end until the list is
     * empty, handing event id 0x07 to the collision handler and dropping
     * everything else.
     */
    method DrainAsync()
      requires Valid()
      modifies this`asyncResponse, this`published
      ensures Valid()
      ensures asyncResponse == []
      ensures published == old(published) + DrainEvents(old(asyncResponse))
    {
      while |asyncResponse| != 0
        invariant Valid()
        invariant old(published) + DrainEvents(old(asyncResponse)) == published + DrainEvents(asyncResponse)
        decreases |asyncResponse|
      {
        var evt := asyncResponse[|asyncResponse| - 1];
        ghost var before := asyncResponse;
        asyncResponse := asyncResponse[..|asyncResponse| - 1];
        assert DrainEvents(before)
          == (if IsCollisionEvent(evt) then [HandleCollision(evt)] else []) + DrainEvents(asyncResponse);
        if evt[2] == 0x07 {
          HandleCollisionDetected(evt);
        }
      }
    }

    /**
     * getSyncResponse: queue the packet, then poll up to 500 times; at each
     * poll the frames given by `arrivals` for that poll are first appended
     * (the appender goroutine running meanwhile). If any entry's byte 3 is
     * the packet's sequence number and it is longer than 6 bytes, the LAST
     * entry is removed and returned; after 500 polls the result is empty.
     */
    method GetSyncResponse(p: Packet, arrivals: seq<seq<Frame>>) returns (response: seq<byte>)
      requires Valid() && WellFormed(p)
      requires forall i | 0 <= i < |arrivals| :: AllFrames(arrivals[i])
      modifies this`packetChannel, this`syncResponse
      ensures Valid()
      ensures packetChannel == old(packetChannel) + [p]
      ensures var w := Poll(old(syncResponse), arrivals, p.header[4], 0);
        response == w.response && syncResponse == w.queue
    {
      packetChannel := packetChannel + [p];
      var sq := p.header[4];
      var i := 0;
      while i < MaxPolls
        invariant 0 <= i <= MaxPolls
        invariant Valid() && packetChannel == old(packetChannel) + [p]
        invariant Poll(old(syncResponse), arrivals, sq, 0) == Poll(syncResponse, arrivals, sq, i)
        decreases MaxPolls - i
      {
        ghost var before := syncResponse;
        ArrivalsKeepFrames(before, arrivals, i);
        syncResponse := syncResponse + ArrivalsAt(arrivals, i);
        var found := ScanForReply(syncResponse, sq);
        if found {
          PollStops(before, arrivals, sq, i);
          response := syncResponse[|syncResponse| - 1];
          syncResponse := syncResponse[..|syncResponse| - 1];
          return;
        }
        PollSkips(before, arrivals, sq, i);
        i := i + 1;
      }
      response := [];
    }

    /**
     * The inner `for key := range s.syncResponse` loop of getSyncResponse:
     * whether some entry's byte 3 is `sq` and it is longer than 6 bytes.
     */
    static method ScanForReply(q: seq<Frame>, sq: byte) returns (found: bool)
      requires AllFrames(q)
      ensures found <==> HasMatch(q, sq)
    {
      var key := 0;
      while key < |q|
        invariant 0 <= key <= |q|
        invariant forall k | 0 <= k < key :: !Matches(q[k], sq)
        decreases |q| - key
      {
        if q[key][3] == sq && |q[key]| > 6 {
          return true;
        }
        key := key + 1;
      }
      return false;
    }

    /** GetRGB: ask for the colour and take bytes 5..7 of a 9-byte reply, else nothing. */
    method GetRGB(arrivals: seq<seq<Frame>>) returns (rgb: seq<byte>)
      requires Valid()
      requires forall i | 0 <= i < |arrivals| :: AllFrames(arrivals[i])
      modifies this`packetChannel, this`syncResponse
      ensures Valid()
      ensures packetChannel == old(packetChannel) + [Craft(sequence, [], 0x02, 0x22)]
      ensures var w := Poll(old(syncResponse), arrivals, sequence, 0);
        rgb == Commands.Rgb(w.response) && syncResponse == w.queue
    {
      var p := CraftPacket([], 0x02, 0x22);
      var buf := GetSyncResponse(p, arrivals);
      if |buf| == 9 {
        return [buf[5], buf[6], buf[7]];
      }
      return [];
    }
  }
}
