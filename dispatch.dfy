// The value-level specification of the driver's background loops: how a
// read frame is classified, what one drain of the async list publishes,
// how the synchronous wait polls, and how writes advance the sequence counter.
module Dispatch {
  import opened Bytes
  import opened Codec
  import opened Transport
  import Collision
  import Commands

  /** An inbound frame as the reader assembles it: header ++ body. */
  type Frame = seq<byte>

  /** Header byte 1 of an asynchronous notification. */
  const AsyncMarker: byte := 0xFE

  /** The number of polls getSyncResponse makes before giving up. */
  const MaxPolls: nat := 500

  // ---------------------------------------------------------------- writer

  /** The outcome of one transport Write: the byte count it reports, or an error. */
  datatype WriteOutcome = Wrote(n: nat) | WriteFailed

  /** The sequence counter after one write: advanced (mod 256) unless Write erred; short writes advance it too. */
  function NextSeq(sq: byte, w: WriteOutcome): (r: byte)
    ensures w.WriteFailed? <==> r == sq
    ensures w.Wrote? ==> r == (sq + 1) % 256
  {
    if w.WriteFailed? then sq else (sq + 1) % 256
  }

  /** The sequence counter after a series of writes. */
  function SeqAfter(sq: byte, outcomes: seq<WriteOutcome>): byte
    decreases |outcomes|
  {
    if outcomes == [] then sq else SeqAfter(NextSeq(sq, outcomes[0]), outcomes[1..])
  }

  predicate NoWriteError(outcomes: seq<WriteOutcome>)
  {
    forall i | 0 <= i < |outcomes| :: outcomes[i].Wrote?
  }

  /** N writes without a Write error advance the counter by N modulo 256. */
  lemma {:induction false} WritesAdvanceSeq(sq: byte, outcomes: seq<WriteOutcome>)
    requires NoWriteError(outcomes)
    ensures SeqAfter(sq, outcomes) == (sq + |outcomes|) % 256
    decreases |outcomes|
  {
    if outcomes != [] {
      assert outcomes[0].Wrote?;
      WritesAdvanceSeq(NextSeq(sq, outcomes[0]), outcomes[1..]);
      IncrementThenAdd(sq, |outcomes| - 1);
    }
  }

  lemma IncrementThenAdd(sq: byte, n: nat)
    ensures ((sq + 1) % 256 + n) % 256 == (sq + 1 + n) % 256
  {
    if sq == 255 {
      assert (sq + 1) % 256 == 0;
      assert (sq + 1 + n) == 256 + n;
    }
  }

  /** Writes that all fail leave the counter where it was. */
  lemma {:induction false} FailedWritesKeepSeq(sq: byte, outcomes: seq<WriteOutcome>)
    requires forall i | 0 <= i < |outcomes| :: outcomes[i].WriteFailed?
    ensures SeqAfter(sq, outcomes) == sq
    decreases |outcomes|
  {
    if outcomes != [] {
      assert outcomes[0].WriteFailed?;
      FailedWritesKeepSeq(sq, outcomes[1..]);
    }
  }

  /**
   * When each packet is crafted after the previous one has been written
   * without error, the i-th packet carries sequence number s + i (mod 256).
   */
  lemma CraftedAfterWritesNumbered(sq: byte, outcomes: seq<WriteOutcome>, i: nat,
                                   body: seq<byte>, did: byte, cid: byte)
    requires NoWriteError(outcomes) && i <= |outcomes|
    ensures Craft(SeqAfter(sq, outcomes[..i]), body, did, cid).header[4] == (sq + i) % 256
  {
    WritesAdvanceSeq(sq, outcomes[..i]);
  }

  // ---------------------------------------------------------------- reader

  /** One pass of the reader loop: no frame (header Read failed), still waiting, or a frame. */
  datatype FrameRead = NoHeader | Stalled | Read(frame: Frame)

  /** The transport honours the io.Reader contract for the header read and the body read that follows it. */
  predicate ReaderFits(script: seq<ReadOutcome>)
  {
    Fits(script, 5)
    && var (h, u) := Gather(script, 5);
       h.Filled? ==> Fits(script[u..], h.bytes[4])
  }

  /**
   * readHeader, then readBody(header[4]): a frame is the 5 header bytes
   * followed by the body, or the header alone when the body Read failed
   * (append of a nil body).
   */
  function ReadFrame(script: seq<ReadOutcome>): (r: FrameRead)
    requires ReaderFits(script)
    ensures r.Read? ==> |r.frame| >= 5 && (|r.frame| == 5 || |r.frame| == 5 + r.frame[4] as int)
    ensures r.Read? ==> Gather(script, 5).0 == Filled(r.frame[..5])
    ensures r.Read? && |r.frame| == 5 && r.frame[4] > 0 ==> Gather(script[Gather(script, 5).1..], r.frame[4]).0.Nil?
  {
    var (h, u) := Gather(script, 5);
    if h.Nil? then NoHeader
    else if h.Blocked? then Stalled
    else
      var (b, _) := Gather(script[u..], h.bytes[4]);
      if b.Blocked? then Stalled
      else Read(h.bytes + (if b.Filled? then b.bytes else []))
  }

  /**
   * A frame delivered as its header in one Read and its body in another is
   * read back unchanged.
   */
  lemma ReadsWholeFrame(f: Frame)
    requires |f| >= 5 && |f| == 5 + f[4] as int
    ensures ReaderFits([Got(f[..5]), Got(f[5..])])
    ensures ReadFrame([Got(f[..5]), Got(f[5..])]) == Read(f)
  {
    var script := [Got(f[..5]), Got(f[5..])];
    assert script[1..] == [Got(f[5..])];
    assert Gather(script[1..], 0) == (Filled([]), 0);
    assert f[..5] + [] == f[..5];
    assert Gather(script, 5) == (Filled(f[..5]), 1);
    assert Gather(script[1..], f[4]).0 == Filled(f[5..]) by {
      if f[4] > 0 {
        assert [Got(f[5..])][1..] == [];
        assert Gather([], 0) == (Filled([]), 0);
        assert f[5..] + [] == f[5..];
      } else {
        assert f[5..] == [];
      }
    }
    assert f[..5] + f[5..] == f;
  }

  /**
   * For any transport behaviour: the frame's first 5 bytes are what the
   * header Reads delivered, none of which failed. If no body Read failed,
   * the rest of the frame is exactly header[4] bytes, what the body Reads
   * delivered in order; otherwise the frame is the header alone, header[4]
   * is not 0, and it was the last body Read that failed.
   */
  lemma ReadFrameMeaning(script: seq<ReadOutcome>)
    requires ReaderFits(script)
    ensures ReadFrame(script).Read? ==>
      var f := ReadFrame(script).frame;
      var u := Gather(script, 5).1;
      var v := Gather(script[u..], f[4]).1;
      && f[..5] == Delivered(script[..u]) && NoFailure(script[..u])
      && (NoFailure(script[u..][..v]) ==> |f| == 5 + f[4] as int && f[5..] == Delivered(script[u..][..v]))
      && (!NoFailure(script[u..][..v]) ==>
            |f| == 5 && f[4] > 0 && v > 0 && NoFailure(script[u..][..v - 1]) && script[u..][v - 1].Failed?)
  {
    if ReadFrame(script).Read? {
      var f := ReadFrame(script).frame;
      var (h, u) := Gather(script, 5);
      GatherMeaning(script, 5);
      var (b, v) := Gather(script[u..], h.bytes[4]);
      GatherMeaning(script[u..], h.bytes[4]);
      if b.Filled? {
        assert f == h.bytes + b.bytes;
        assert f[..5] == h.bytes && f[5..] == b.bytes;
      } else {
        assert b.Nil?;
        assert f == h.bytes + [];
        assert !NoFailure(script[u..][..v]) by {
          assert script[u..][..v][v - 1] == script[u..][v - 1];
        }
      }
    }
  }

  /** A frame goes to the async list exactly when header byte 1 is the async marker. */
  predicate IsAsync(f: Frame)
    requires |f| >= 2
  {
    f[1] == AsyncMarker
  }

  // ---------------------------------------------------------------- async drain

  /** A publication on the "collision" event. */
  datatype Publication = Publication(event: string, payload: Collision.Payload)

  predicate IsCollisionEvent(evt: Frame)
    requires |evt| >= 3
  {
    evt[2] == Collision.CollisionIdCode
  }

  function HandleCollision(evt: Frame): Publication
  {
    Publication("collision", Collision.Handle(evt))
  }

  predicate AllFrames(q: seq<Frame>)
  {
    forall i | 0 <= i < |q| :: |q[i]| >= 5
  }

  /** What one drain of the async list publishes, popping from the end. */
  function DrainEvents(q: seq<Frame>): seq<Publication>
    requires AllFrames(q)
    decreases |q|
  {
    if q == [] then []
    else
      var evt := q[|q| - 1];
      (if IsCollisionEvent(evt) then [HandleCollision(evt)] else []) + DrainEvents(q[..|q| - 1])
  }

  /** The collision frames of a list, in arrival order. */
  function CollisionFrames(q: seq<Frame>): (r: seq<Frame>)
    requires AllFrames(q)
    ensures AllFrames(r)
    decreases |q|
  {
    if q == [] then []
    else
      var front := CollisionFrames(q[..|q| - 1]);
      if IsCollisionEvent(q[|q| - 1]) then front + [q[|q| - 1]] else front
  }

  function Reverse<T>(s: seq<T>): (r: seq<T>)
    ensures |r| == |s|
    ensures forall k | 0 <= k < |s| :: r[k] == s[|s| - 1 - k]
  {
    if s == [] then [] else [s[|s| - 1]] + Reverse(s[..|s| - 1])
  }

  function PublishAll(fs: seq<Frame>): (r: seq<Publication>)
    ensures |r| == |fs|
  {
    if fs == [] then [] else [HandleCollision(fs[0])] + PublishAll(fs[1..])
  }

  /**
   * LIFO dispatch: one drain publishes a handled collision for every
   * collision frame, latest arrival first, and nothing for any other frame.
   */
  lemma {:induction false} DrainIsLatestFirst(q: seq<Frame>)
    requires AllFrames(q)
    ensures DrainEvents(q) == PublishAll(Reverse(CollisionFrames(q)))
    decreases |q|
  {
    if q != [] {
      var front, evt := q[..|q| - 1], q[|q| - 1];
      DrainIsLatestFirst(front);
      var cf := CollisionFrames(front);
      if IsCollisionEvent(evt) {
        assert (cf + [evt])[..|cf|] == cf;
        assert Reverse(cf + [evt]) == [evt] + Reverse(cf);
        assert ([evt] + Reverse(cf))[1..] == Reverse(cf);
      }
    }
  }

  // ---------------------------------------------------------------- sync wait

  /** A reply to sequence number sq: byte 3 matches and it is longer than 6 bytes. */
  predicate Matches(f: Frame, sq: byte)
  {
    |f| > 6 && f[3] == sq
  }

  predicate HasMatch(q: seq<Frame>, sq: byte)
  {
    exists k | 0 <= k < |q| :: Matches(q[k], sq)
  }

  /** Frames the appender adds to the sync list just before poll i. */
  function ArrivalsAt(arrivals: seq<seq<Frame>>, i: nat): seq<Frame>
  {
    if i < |arrivals| then arrivals[i] else []
  }

  /** Every frame that arrives before polls i .. n-1, in order. */
  function Arrived(arrivals: seq<seq<Frame>>, i: nat, n: nat): seq<Frame>
    decreases n - i
  {
    if i >= n then [] else ArrivalsAt(arrivals, i) + Arrived(arrivals, i + 1, n)
  }

  /** The outcome of the wait: the returned bytes, the sync list afterwards, and the poll that ended it. */
  datatype Wait = Wait(response: Frame, queue: seq<Frame>, polls: nat)

  /**
   * Polls i .. MaxPolls-1 of getSyncResponse: after a poll's arrivals, if
   * any entry matches, the LAST entry is removed and returned.
   */
  function Poll(q: seq<Frame>, arrivals: seq<seq<Frame>>, sq: byte, i: nat): Wait
    decreases MaxPolls - i
  {
    if i >= MaxPolls then Wait([], q, MaxPolls)
    else
      var q' := q + ArrivalsAt(arrivals, i);
      if HasMatch(q', sq) then Wait(q'[|q'| - 1], q'[..|q'| - 1], i)
      else Poll(q', arrivals, sq, i + 1)
  }

  /** A device reply with data is a match for the sequence number it carries. */
  lemma ReplyMatches(mrsp: byte, sq: byte, data: seq<byte>)
    requires 0 < |data| < 255
    ensures Matches(Commands.Reply(mrsp, sq, data), sq)
  {
  }

  /**
   * GetRGB end to end: when the device's 3-byte reply arrives before the
   * first poll, the wait returns it and GetRGB extracts the colour it carries.
   */
  lemma GetRGBReply(mrsp: byte, sq: byte, r: byte, g: byte, b: byte)
    ensures Commands.Rgb(Poll([], [[Commands.Reply(mrsp, sq, [r, g, b])]], sq, 0).response) == [r, g, b]
  {
    var f := Commands.Reply(mrsp, sq, [r, g, b]);
    var q' := [] + ArrivalsAt([[f]], 0);
    assert q' == [f];
    assert Matches(q'[0], sq);
    assert Poll([], [[f]], sq, 0).response == f;
    Commands.RgbOfReply(mrsp, sq, r, g, b);
  }

  lemma HasMatchGrows(a: seq<Frame>, b: seq<Frame>, sq: byte)
    requires HasMatch(a, sq)
    ensures HasMatch(a + b, sq)
  {
    var k :| 0 <= k < |a| && Matches(a[k], sq);
    assert (a + b)[k] == a[k];
  }

  /** Every frame that arrives before poll i is appended in front of those that arrive later. */
  lemma StepArrivals(q: seq<Frame>, arrivals: seq<seq<Frame>>, i: nat, n: nat)
    requires i < n
    ensures q + Arrived(arrivals, i, n) == (q + ArrivalsAt(arrivals, i)) + Arrived(arrivals, i + 1, n)
  {
    ArrivedSplit(arrivals, i, n);
  }

  /** Timeout: when no poll can see a match, nothing is returned and the list keeps every arrival. */
  lemma {:induction false} PollTimesOut(q: seq<Frame>, arrivals: seq<seq<Frame>>, sq: byte, i: nat)
    requires i <= MaxPolls
    requires !HasMatch(q + Arrived(arrivals, i, MaxPolls), sq)
    ensures Poll(q, arrivals, sq, i) == Wait([], q + Arrived(arrivals, i, MaxPolls), MaxPolls)
    decreases MaxPolls - i
  {
    if i == MaxPolls {
      assert q + [] == q;
    } else {
      var q' := q + ArrivalsAt(arrivals, i);
      StepArrivals(q, arrivals, i, MaxPolls);
      if HasMatch(q', sq) {
        HasMatchGrows(q', Arrived(arrivals, i + 1, MaxPolls), sq);
        assert false;
      }
      PollTimesOut(q', arrivals, sq, i + 1);
    }
  }

  /**
   * A match: the wait ends at the first poll that sees a matching entry,
   * removes exactly one entry, the last one, and returns it.
   */
  lemma {:induction false} PollMatches(q: seq<Frame>, arrivals: seq<seq<Frame>>, sq: byte, i: nat)
    requires i < MaxPolls
    requires HasMatch(q + Arrived(arrivals, i, MaxPolls), sq)
    ensures var w := Poll(q, arrivals, sq, i);
      i <= w.polls < MaxPolls
      && w.queue + [w.response] == q + Arrived(arrivals, i, w.polls + 1)
      && HasMatch(q + Arrived(arrivals, i, w.polls + 1), sq)
      && (w.polls == i || !HasMatch(q + Arrived(arrivals, i, w.polls), sq))
    decreases MaxPolls - i
  {
    var q' := q + ArrivalsAt(arrivals, i);
    if HasMatch(q', sq) {
      MatchAtThisPoll(q, arrivals, sq, i);
    } else {
      StepArrivals(q, arrivals, i, MaxPolls);
      assert q' + [] == q';
      if i + 1 == MaxPolls {
        assert false;
      }
      PollMatches(q', arrivals, sq, i + 1);
      LaterPoll(q, arrivals, sq, i);
    }
  }

  lemma MatchAtThisPoll(q: seq<Frame>, arrivals: seq<seq<Frame>>, sq: byte, i: nat)
    requires i < MaxPolls && HasMatch(q + ArrivalsAt(arrivals, i), sq)
    ensures var w := Poll(q, arrivals, sq, i);
      w.polls == i && w.queue + [w.response] == q + Arrived(arrivals, i, i + 1)
      && HasMatch(q + Arrived(arrivals, i, i + 1), sq)
  {
    var q' := q + ArrivalsAt(arrivals, i);
    StepArrivals(q, arrivals, i, i + 1);
    assert q' + [] == q';
    DropLastThenLast(q');
  }

  /** A poll that sees no match hands the grown list on to the next poll. */
  lemma PollSkips(q: seq<Frame>, arrivals: seq<seq<Frame>>, sq: byte, i: nat)
    requires i < MaxPolls && !HasMatch(q + ArrivalsAt(arrivals, i), sq)
    ensures Poll(q, arrivals, sq, i) == Poll(q + ArrivalsAt(arrivals, i), arrivals, sq, i + 1)
  {
  }

  /** A poll that sees a match removes and returns the last entry of the grown list. */
  lemma PollStops(q: seq<Frame>, arrivals: seq<seq<Frame>>, sq: byte, i: nat)
    requires i < MaxPolls && HasMatch(q + ArrivalsAt(arrivals, i), sq)
    ensures var q' := q + ArrivalsAt(arrivals, i);
      Poll(q, arrivals, sq, i) == Wait(q'[|q'| - 1], q'[..|q'| - 1], i)
  {
  }

  /** Arrivals that are all frames append to a list of frames to give a list of frames. */
  lemma ArrivalsKeepFrames(q: seq<Frame>, arrivals: seq<seq<Frame>>, i: nat)
    requires AllFrames(q) && forall k | 0 <= k < |arrivals| :: AllFrames(arrivals[k])
    ensures AllFrames(q + ArrivalsAt(arrivals, i))
  {
    var a := ArrivalsAt(arrivals, i);
    assert AllFrames(a);
    assert forall k | 0 <= k < |q + a| :: (q + a)[k] == if k < |q| then q[k] else a[k - |q|];
  }

  /** How the outcome of the wait from poll i + 1 reads from poll i, when poll i saw no match. */
  lemma LaterPoll(q: seq<Frame>, arrivals: seq<seq<Frame>>, sq: byte, i: nat)
    requires i + 1 < MaxPolls && !HasMatch(q + ArrivalsAt(arrivals, i), sq)
    requires var q', w := q + ArrivalsAt(arrivals, i), Poll(q + ArrivalsAt(arrivals, i), arrivals, sq, i + 1);
      i + 1 <= w.polls < MaxPolls
      && w.queue + [w.response] == q' + Arrived(arrivals, i + 1, w.polls + 1)
      && HasMatch(q' + Arrived(arrivals, i + 1, w.polls + 1), sq)
      && (w.polls == i + 1 || !HasMatch(q' + Arrived(arrivals, i + 1, w.polls), sq))
    ensures var w := Poll(q, arrivals, sq, i);
      i <= w.polls < MaxPolls
      && w.queue + [w.response] == q + Arrived(arrivals, i, w.polls + 1)
      && HasMatch(q + Arrived(arrivals, i, w.polls + 1), sq)
      && w.polls != i && !HasMatch(q + Arrived(arrivals, i, w.polls), sq)
  {
    PollSkips(q, arrivals, sq, i);
    ShiftWait(q, arrivals, sq, i, Poll(q + ArrivalsAt(arrivals, i), arrivals, sq, i + 1));
  }

  /** The facts about a wait outcome seen from poll i + 1 carry over to poll i. */
  lemma ShiftWait(q: seq<Frame>, arrivals: seq<seq<Frame>>, sq: byte, i: nat, w: Wait)
    requires !HasMatch(q + ArrivalsAt(arrivals, i), sq)
    requires var q' := q + ArrivalsAt(arrivals, i);
      i + 1 <= w.polls
      && w.queue + [w.response] == q' + Arrived(arrivals, i + 1, w.polls + 1)
      && HasMatch(q' + Arrived(arrivals, i + 1, w.polls + 1), sq)
      && (w.polls == i + 1 || !HasMatch(q' + Arrived(arrivals, i + 1, w.polls), sq))
    ensures w.queue + [w.response] == q + Arrived(arrivals, i, w.polls + 1)
      && HasMatch(q + Arrived(arrivals, i, w.polls + 1), sq)
      && !HasMatch(q + Arrived(arrivals, i, w.polls), sq)
  {
    StepArrivals(q, arrivals, i, w.polls + 1);
    NoEarlierMatch(q, arrivals, sq, i, w.polls);
  }

  /** No match before poll n, seen from poll i + 1, means none seen from poll i either. */
  lemma NoEarlierMatch(q: seq<Frame>, arrivals: seq<seq<Frame>>, sq: byte, i: nat, n: nat)
    requires !HasMatch(q + ArrivalsAt(arrivals, i), sq) && i + 1 <= n
    requires n == i + 1 || !HasMatch(q + ArrivalsAt(arrivals, i) + Arrived(arrivals, i + 1, n), sq)
    ensures !HasMatch(q + Arrived(arrivals, i, n), sq)
  {
    var q' := q + ArrivalsAt(arrivals, i);
    StepArrivals(q, arrivals, i, n);
    if n == i + 1 {
      assert q' + Arrived(arrivals, i + 1, n) == q';
    }
  }

  /** With every frame holding its header, an empty result means exactly that the wait timed out. */
  lemma EmptyMeansTimeout(q: seq<Frame>, arrivals: seq<seq<Frame>>, sq: byte)
    requires AllFrames(q + Arrived(arrivals, 0, MaxPolls))
    ensures Poll(q, arrivals, sq, 0).response == [] <==> !HasMatch(q + Arrived(arrivals, 0, MaxPolls), sq)
  {
    if HasMatch(q + Arrived(arrivals, 0, MaxPolls), sq) {
      PollMatches(q, arrivals, sq, 0);
      var w := Poll(q, arrivals, sq, 0);
      MatchedResponseIsFrame(q, arrivals, w);
    } else {
      PollTimesOut(q, arrivals, sq, 0);
    }
  }

  /** The entry a match returns is one of the frames that were in the list. */
  lemma MatchedResponseIsFrame(q: seq<Frame>, arrivals: seq<seq<Frame>>, w: Wait)
    requires AllFrames(q + Arrived(arrivals, 0, MaxPolls))
    requires w.polls < MaxPolls && w.queue + [w.response] == q + Arrived(arrivals, 0, w.polls + 1)
    ensures |w.response| >= 5
  {
    PrefixOfArrivals(q, arrivals, w.polls + 1);
    LastOfPrefix(w.queue + [w.response], q + Arrived(arrivals, 0, MaxPolls));
  }

  lemma LastOfPrefix<T>(a: seq<T>, b: seq<T>)
    requires a <= b && a != []
    ensures a[|a| - 1] in b
  {
    assert b[|a| - 1] == a[|a| - 1];
  }

  /** The list as some poll sees it is a prefix of the list after all polls. */
  lemma {:induction false} PrefixOfArrivals(q: seq<Frame>, arrivals: seq<seq<Frame>>, n: nat)
    requires n <= MaxPolls
    ensures q + Arrived(arrivals, 0, n) <= q + Arrived(arrivals, 0, MaxPolls)
    decreases MaxPolls - n
  {
    if n < MaxPolls {
      PrefixOfArrivals(q, arrivals, n + 1);
      ArrivedSnoc(arrivals, 0, n);
    }
  }

  lemma {:induction false} ArrivedSnoc(arrivals: seq<seq<Frame>>, i: nat, n: nat)
    requires i <= n
    ensures Arrived(arrivals, i, n + 1) == Arrived(arrivals, i, n) + ArrivalsAt(arrivals, n)
    decreases n - i
  {
    if i < n {
      ArrivedSnoc(arrivals, i + 1, n);
    } else {
      assert Arrived(arrivals, i, n + 1) == ArrivalsAt(arrivals, n) + [];
    }
  }

  lemma DropLastThenLast<T>(s: seq<T>)
    requires s != []
    ensures s[..|s| - 1] + [s[|s| - 1]] == s
  {
  }

  lemma ArrivedSplit(arrivals: seq<seq<Frame>>, i: nat, n: nat)
    requires i < n
    ensures Arrived(arrivals, i, n) == ArrivalsAt(arrivals, i) + Arrived(arrivals, i + 1, n)
  {
  }

  /** With nothing arriving during the wait, a match removes and returns the last entry, which need not match. */
  lemma ReturnsLastEntry(q: seq<Frame>, sq: byte)
    ensures var w := Poll(q, [], sq, 0);
      if HasMatch(q, sq) then w.response == q[|q| - 1] && w.queue == q[..|q| - 1]
      else w.response == [] && w.queue == q
  {
    assert q + ArrivalsAt([], 0) == q;
    if !HasMatch(q, sq) {
      NothingArrives(0, MaxPolls);
      assert q + [] == q;
      PollTimesOut(q, [], sq, 0);
    }
  }

  lemma {:induction false} NothingArrives(i: nat, n: nat)
    ensures Arrived([], i, n) == []
    decreases n - i
  {
    if i < n {
      NothingArrives(i + 1, n);
    }
  }

  /** A concrete case: the matching reply is first, another frame last; the other frame is returned. */
  lemma CrossMatch()
    ensures var reply := [0xFF, 0xFF, 0x00, 0x05, 0x04, 0x01, 0x02, 0x03, 0x00];
      var other := [0xFF, 0xFF, 0x00, 0x09, 0x01, 0x00];
      Poll([reply, other], [], 0x05, 0).response == other
  {
    var reply := [0xFF, 0xFF, 0x00, 0x05, 0x04, 0x01, 0x02, 0x03, 0x00];
    var other := [0xFF, 0xFF, 0x00, 0x09, 0x01, 0x00];
    assert Matches([reply, other][0], 0x05);
    ReturnsLastEntry([reply, other], 0x05);
  }
}
