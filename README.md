# Sphero serial-protocol driver, modelled in Dafny

This project models the core of gobot's Sphero driver
(`platforms/sphero/sphero_driver.go`). That core covers:

- the command frames the driver sends: a 6-byte header `[0xFF, 0xFF, did, cid, seq, len(body)+1]`, the body, and a one's-complement checksum over `header[2:] ++ body`;
- the writer, which serialises a packet and advances the driver-local sequence counter;
- the reader, which assembles a 5-byte header and a body from partial reads and sorts the frame into the async list or the sync response channel;
- the async drain, which pops LIFO and decodes collision notifications into a big-endian `Collision` record, or publishes the raw bytes instead;
- the synchronous request/response wait, which polls up to 500 times for a reply to a sequence number;
- the fixed bodies of the high-level commands.

Modules, one per component:

| file | module | what it holds |
|---|---|---|
| bytes.dfy | `Bytes` | Go's `uint8`, `uint16`, `int16` and `uint32`, and the big-endian layouts they use on the wire |
| codec.dfy | `Codec` | `packet`, `calculateChecksum` (as a function and as the loop that computes it), `craftPacket`, the write buffer |
| collision.dfy | `Collision` | the `Collision` record, its 16-byte decode and encode, the decision `handleCollisionDetected` makes |
| commands.dfy | `Commands` | the command builders and GetRGB's byte extraction |
| transport.dfy | `Transport` | `readNextChunk` over an array buffer, proved against the recursive `Gather` |
| dispatch.dfy | `Dispatch` | value-level specifications of the loops: sequence advance, frame classification, LIFO drain, the poll |
| driver.dfy | `Driver` | class `SpheroDriver` with the fields `sequence` (Go `seq`), `asyncResponse`, `syncResponse`, `packetChannel`, `responseChannel`, and `published` (the event bus), with one method per goroutine loop body |

The goroutines of `Start` are modelled as separate sequential steps:

- `WriterStep` is the writer loop;
- `AppenderStep` is the loop that appends to `syncResponse`;
- `ReaderStep` is the reader loop;
- `DrainAsync` is one wake-up of the async loop.

The two channels are FIFO sequences. The serial port is an oracle:

- `Read` is a script of `ReadOutcome`s, one per call;
- `Write` is a `WriteOutcome` parameter;
- `gobot.Publish` appends to `published`.

While `getSyncResponse` waits, other goroutines keep running. The model stands for them with an `arrivals` parameter: the frames that reach `syncResponse` before each poll.

Points where the code behaves differently from what its names suggest:

- `getSyncResponse` scans `syncResponse` for an entry whose byte 3 is the request's sequence number, but on finding one it removes and returns the *last* entry of the list, whichever entry matched. So it can return a frame that answers a different request. `Dispatch.CrossMatch` shows a case where a non-matching frame is returned.
- `handleCollisionDetected` decodes a record only when the frame is 22 bytes long, its length byte `data[4]` is 17, and the checksum matches. It publishes the raw bytes in every other case.
- The reader only sorts frames into async and sync by header byte 1. It decodes no other notification than the collision (`evt[2] == 0x07`), and the driver sends no streaming configuration.
- `craftPacket` reads the counter when the packet is *queued*, but `write` advances it only when the packet is *written*. In this sequential model, two packets queued with no `WriterStep` between them carry the same sequence number. `Start` queues two packets this way, and its contract states that they share one. In the driver the writer goroutine is already running when `Start` queues them, so whether they share a number depends on scheduling. Consecutive numbers are guaranteed only when each packet is crafted after the previous one was written (`Dispatch.CraftedAfterWritesNumbered`).

## Model

| member | source | states |
|---|---|---|
| Bytes.U16Bytes | platforms/sphero/sphero_driver.go:180 | the two bytes `uint8(h >> 8)`, `uint8(h & 0xFF)` decode big-endian back to `h` |
| Codec.Checksum | platforms/sphero/sphero_driver.go:277-283 | the checksum added to the byte sum is 0xFF modulo 256 |
| Codec.CalculateChecksum | platforms/sphero/sphero_driver.go:277-283 | the uint16 accumulator loop with its wrap-around gives exactly `255 - sum mod 256`, so `(sum + checksum) mod 256 == 255` |
| Codec.PacketChecksum | platforms/sphero/sphero_driver.go:272-275 | the packet checksum is the checksum of `header[2:] ++ body`, so it completes that byte sum to 0xFF |
| Codec.Craft | platforms/sphero/sphero_driver.go:247-254 | header `[0xFF, 0xFF, did, cid, seq, (len(body)+1) mod 256]`, body unchanged, checksum over `header[2:] ++ body` |
| Codec.Serialize | platforms/sphero/sphero_driver.go:257-258 | the write buffer is the header, then the body, then the checksum byte |
| Codec.CraftedFrameRoundTrip | platforms/sphero/sphero_driver.go:247-258 | a crafted, serialised packet is `len(body)+7` bytes; parsing its header gives back did, cid, seq and length+1; the body is carried unchanged and the checksum test passes |
| Codec.ValidChecksum | platforms/sphero/sphero_driver.go:218-219 | the receiver's test: the last byte is the checksum of bytes 2 up to the last |
| Codec.SingleByteChangeDetected | platforms/sphero/sphero_driver.go:218-219 | changing any one checksummed byte, or the checksum byte itself, of a valid frame makes the checksum test fail |
| Collision.DecodeEncode | platforms/sphero/sphero_driver.go:27-38 | the 16-byte big-endian layout (X, Y, Z, Axis, XMagnitude, YMagnitude, Speed, Timestamp) decodes back to the record that produced it |
| Collision.Decode | platforms/sphero/sphero_driver.go:220-223 | `binary.Read` of a `Collision` from the big-endian bytes 0..15 of the buffer, fields in struct order |
| Collision.EncodeDecode | platforms/sphero/sphero_driver.go:220-223 | every 16-byte payload is the big-endian encoding of the record decoded from it, so decoding loses no byte |
| Collision.Decodable | platforms/sphero/sphero_driver.go:217-219 | the guard of the decode path: length 22, length byte 17, checksum of `data[2:21]` equal to the last byte |
| Collision.Handle | platforms/sphero/sphero_driver.go:215-229 | a decoded record is published iff the length is 22, `data[4] == 17` and the checksum of `data[2..21]` matches; its fields are the big-endian values at bytes 5-6, 7-8, 9-10, 11, 12-13, 14-15, 16, 17-20; otherwise the raw data is published |
| Collision.FramePublishesRecord | platforms/sphero/sphero_driver.go:215-226 | a well-formed collision notification is published as exactly the record it carries |
| Collision.CorruptedFramePublishesRaw | platforms/sphero/sphero_driver.go:217-228 | corrupting any one payload byte of a valid notification makes the handler publish the raw bytes |
| Commands.SetRGB | platforms/sphero/sphero_driver.go:163-165 | device 0x02, command 0x20, body r, g, b then 0x01 |
| Commands.GetRGB | platforms/sphero/sphero_driver.go:168 | device 0x02, command 0x22, empty body |
| Commands.SetBackLED | platforms/sphero/sphero_driver.go:175-177 | device 0x02, command 0x21, body the level |
| Commands.SetHeading | platforms/sphero/sphero_driver.go:179-181 | device 0x02, command 0x01, two body bytes that decode big-endian to the heading |
| Commands.SetStabilization | platforms/sphero/sphero_driver.go:183-189 | device 0x02, command 0x02, one body byte that is 0x01 iff on, else 0x00 |
| Commands.Roll | platforms/sphero/sphero_driver.go:191-193 | device 0x02, command 0x30, the speed, then two bytes that decode big-endian to the heading, then 0x01 |
| Commands.Stop | platforms/sphero/sphero_driver.go:195-197 | Stop is Roll(0, 0): command 0x30 with body 0, 0, 0, 1 |
| Commands.ConfigureCollisionDetectionRaw | platforms/sphero/sphero_driver.go:202-205 | device 0x02, command 0x12, the enable byte 0x01 and then the five thresholds in argument order |
| Commands.ConfigureDefaultCollisionDetection | platforms/sphero/sphero_driver.go:207-209 | the default thresholds 0x40, 0x40, 0x50, 0x50 and dead time 0x60 |
| Commands.EnableStopOnDisconnect | platforms/sphero/sphero_driver.go:211-213 | device 0x02, command 0x37, body 0, 0, 0, 1 |
| Commands.Rgb | platforms/sphero/sphero_driver.go:169-172 | bytes 5..7 of a 9-byte reply, and empty for any other length |
| Commands.Reply | platforms/sphero/sphero_driver.go:235 | a device reply is `[0xFF, 0xFF, mrsp, seq, len(data)+1] ++ data ++ checksum`: byte 3 carries the sequence number, it is six bytes longer than its data, and it passes the checksum test |
| Dispatch.ReplyMatches | platforms/sphero/sphero_driver.go:235 | a device reply with data is longer than 6 bytes and carries its sequence number at byte 3, so the wait accepts it |
| Dispatch.GetRGBReply | platforms/sphero/sphero_driver.go:167-173 | when the 3-byte reply to GetRGB arrives before the first poll, the wait returns it and GetRGB reports the colour it carries |
| Commands.RgbOfReply | platforms/sphero/sphero_driver.go:167-173 | the colour carried in a device reply is exactly what GetRGB extracts |
| Transport.Gather | platforms/sphero/sphero_driver.go:293-308 | a filled buffer has exactly the requested length, and no more Read calls are made than the script holds |
| Transport.GatherMeaning | platforms/sphero/sphero_driver.go:293-308 | when no Read fails, the buffer is the chunks concatenated in read order; the result is nil exactly when the last Read made failed; the reader blocks only when every Read succeeded and too few bytes arrived |
| Transport.ReadNextChunk | platforms/sphero/sphero_driver.go:293-308 | the loop that fills the array buffer from successive Reads gives the result `Gather` specifies |
| Dispatch.NextSeq | platforms/sphero/sphero_driver.go:259-269 | a Write error leaves the counter unchanged; a successful or short write advances it by 1 mod 256 |
| Dispatch.SeqAfter | platforms/sphero/sphero_driver.go:269 | the counter after a series of writes: each applies `NextSeq` in turn |
| Dispatch.WritesAdvanceSeq | platforms/sphero/sphero_driver.go:269 | N writes without error advance the counter by N mod 256 |
| Dispatch.FailedWritesKeepSeq | platforms/sphero/sphero_driver.go:260-265 | writes that all fail leave the counter unchanged |
| Dispatch.CraftedAfterWritesNumbered | platforms/sphero/sphero_driver.go:251 | a packet crafted after i error-free writes carries sequence number s + i mod 256 |
| Dispatch.ReadFrame | platforms/sphero/sphero_driver.go:121-131 | a frame is at least 5 bytes, and its first 5 bytes are the header read's buffer; a 5-byte frame with a nonzero length byte occurs only when the body read returned nil; otherwise the frame is 5 + header[4] bytes |
| Dispatch.ReadFrameMeaning | platforms/sphero/sphero_driver.go:121-131 | for any transport behaviour, the header is the bytes the header Reads delivered; with no failed body Read the rest is exactly header[4] bytes, the body Reads' bytes in order; otherwise the frame is the header alone and the last body Read failed |
| Dispatch.ReadsWholeFrame | platforms/sphero/sphero_driver.go:121-131 | a frame delivered as a header read and a body read is assembled unchanged |
| Dispatch.IsAsync | platforms/sphero/sphero_driver.go:126 | a frame is asynchronous exactly when header byte 1 is 0xFE |
| Dispatch.DrainEvents | platforms/sphero/sphero_driver.go:139-144 | one drain pops from the end of the list and publishes a handled collision for each frame whose byte 2 is 0x07 |
| Dispatch.DrainIsLatestFirst | platforms/sphero/sphero_driver.go:139-144 | one drain publishes one handled collision per frame with event id 0x07, latest arrival first, and nothing for any other frame |
| Dispatch.Matches | platforms/sphero/sphero_driver.go:235 | an entry answers sequence number sq when byte 3 is sq and it is longer than 6 bytes |
| Dispatch.Poll | platforms/sphero/sphero_driver.go:233-244 | polls i..499: after each poll's arrivals, if some entry matches, the last entry is removed and returned; after 500 polls the response is empty and the list unchanged |
| Dispatch.PollTimesOut | platforms/sphero/sphero_driver.go:233-244 | when no poll sees a matching entry, the result is empty, 500 polls are made, and the list keeps exactly what arrived |
| Dispatch.PollMatches | platforms/sphero/sphero_driver.go:233-239 | on a match the wait ends at the first poll that sees one; exactly one entry, the last of the list at that poll, is removed and returned |
| Dispatch.ReturnsLastEntry | platforms/sphero/sphero_driver.go:234-238 | with nothing arriving, a match returns and removes the last entry, and no match leaves the list unchanged |
| Dispatch.CrossMatch | platforms/sphero/sphero_driver.go:235-237 | a reply that matches, followed by an unrelated frame, yields the unrelated frame |
| Dispatch.EmptyMeansTimeout | platforms/sphero/sphero_driver.go:231-245 | an empty result means exactly that no poll saw a match |
| Driver.SpheroDriver.constructor | platforms/sphero/sphero_driver.go:40-49 | a new driver has counter 0, empty lists and empty channels |
| Driver.SpheroDriver.CraftPacket | platforms/sphero/sphero_driver.go:247-254 | the method computes the packet `Codec.Craft` describes under the current counter, without changing it |
| Driver.SpheroDriver.Send | platforms/sphero/sphero_driver.go:164 | queues the crafted packet at the end of the packet channel |
| Driver.SpheroDriver.SetRGB | platforms/sphero/sphero_driver.go:163-165 | queues the SetRGB packet under the current counter |
| Driver.SpheroDriver.SetBackLED | platforms/sphero/sphero_driver.go:175-177 | queues the SetBackLED packet |
| Driver.SpheroDriver.SetHeading | platforms/sphero/sphero_driver.go:179-181 | queues the SetHeading packet |
| Driver.SpheroDriver.SetStabilization | platforms/sphero/sphero_driver.go:183-189 | queues the SetStabilization packet |
| Driver.SpheroDriver.Roll | platforms/sphero/sphero_driver.go:191-193 | queues the Roll packet |
| Driver.SpheroDriver.Stop | platforms/sphero/sphero_driver.go:195-197 | queues a Roll packet with speed 0 and heading 0 |
| Driver.SpheroDriver.ConfigureCollisionDetectionRaw | platforms/sphero/sphero_driver.go:202-205 | queues the collision-detection configuration packet |
| Driver.SpheroDriver.EnableStopOnDisconnect | platforms/sphero/sphero_driver.go:211-213 | queues the stop-on-disconnect packet |
| Driver.SpheroDriver.Start | platforms/sphero/sphero_driver.go:149-150 | queues the default collision configuration, then stop-on-disconnect; with no write between the two calls, both carry the current sequence number |
| Driver.SpheroDriver.Write | platforms/sphero/sphero_driver.go:256-270 | the transport gets exactly header ++ body ++ checksum; the counter moves as `NextSeq` says |
| Driver.SpheroDriver.WriterStep | platforms/sphero/sphero_driver.go:105-110 | writes the oldest queued packet and removes it; with none queued, nothing happens |
| Driver.SpheroDriver.AppenderStep | platforms/sphero/sphero_driver.go:112-117 | moves the oldest frame of the response channel to the end of `syncResponse` |
| Driver.SpheroDriver.ReaderStep | platforms/sphero/sphero_driver.go:119-134 | a frame goes to `asyncResponse` iff header byte 1 is 0xFE and to the response channel otherwise; a failed or unfinished read adds nothing anywhere |
| Driver.SpheroDriver.HandleCollisionDetected | platforms/sphero/sphero_driver.go:215-229 | publishes exactly once, on the "collision" event, what `Collision.Handle` decides |
| Driver.SpheroDriver.DrainAsync | platforms/sphero/sphero_driver.go:136-147 | empties `asyncResponse` and publishes exactly `DrainEvents` of its old contents |
| Driver.SpheroDriver.ScanForReply | platforms/sphero/sphero_driver.go:234-240 | the scan finds a reply iff some entry has the sequence number at byte 3 and is longer than 6 bytes |
| Driver.SpheroDriver.GetSyncResponse | platforms/sphero/sphero_driver.go:231-245 | queues the packet first, then returns and leaves exactly what `Poll` specifies |
| Driver.SpheroDriver.GetRGB | platforms/sphero/sphero_driver.go:167-173 | queues the GetRGB request and returns `Rgb` of the reply that the wait produces |

## Left out

- The goroutines and the scheduling between them. Each loop body is a separate step method; true concurrency is not modelled, nor are data races on `asyncResponse` and `syncResponse`, which the Go code shares without locks.
- The 1024-slot capacity of `packetChannel` and `responseChannel`. A send on a full channel blocks, which is a scheduling matter, so the model's queues are unbounded.
- Timing: the 1 ms, 100 µs and 100 ms sleeps. The 500-poll bound is modelled as a count.
- `Halt`. It schedules `Stop` every 10 ms through the framework's timer, which is not part of this model.
- Serial I/O. `Read` and `Write` are oracles.
- A `Read` that returns bytes together with an error is modelled as `Failed`, because the driver discards those bytes.
- The disconnect/reconnect calls and the log lines in `write`. The adaptor is not part of this model.
- The `AddCommand` closures in `NewSpheroDriver`. They convert `float64` values out of untyped parameter maps at run time. (`SetStabilization`'s closure reads the key `"heading"` as a bool.)
- `Init` and `adaptor`: trivial.
- Locator decoding and locator streaming configuration. This driver file has no such code.
- Transport.ReadNextChunk: the model requires each Read to deliver no more bytes than requested (the io.Reader contract). When the script runs out before the buffer is full, the result is `Blocked`: the Go loop keeps waiting and never returns.
- Driver.SpheroDriver.GetSyncResponse: the frames that arrive during the wait are a parameter. They are not tied to the reader and appender steps, which run concurrently in Go.
- Go's out-of-range panics (`evt[2]`, `syncResponse[key][3]`, `header[4]`). They cannot occur: `Valid()` keeps every inbound frame at 5 bytes or more.
