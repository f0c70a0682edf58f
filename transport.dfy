// Reading from the serial transport: readNextChunk, which keeps calling Read
// into the unfilled tail of a fixed-size buffer until it is full or a Read
// fails. The transport is an oracle: the outcomes of successive Read calls.
module Transport {
  import opened Bytes

  /** The outcome of one Read call: the bytes it delivered, or an error. */
  datatype ReadOutcome = Got(data: seq<byte>) | Failed

  /**
   * The outcome of readNextChunk: the full buffer, nil after a failed Read,
   * or Blocked when the scripted Reads run out first (the goroutine is still
   * waiting on the transport).
   */
  datatype Chunk = Filled(bytes: seq<byte>) | Nil | Blocked

  /** The io.Reader contract: no Read returns more bytes than the space it is given. */
  predicate Fits(script: seq<ReadOutcome>, need: nat)
    decreases |script|
  {
    need == 0 || script == [] || script[0].Failed?
    || (|script[0].data| <= need && Fits(script[1..], need - |script[0].data|))
  }

  /** Concatenation of the bytes the given Reads delivered. */
  function Delivered(script: seq<ReadOutcome>): seq<byte>
  {
    if script == [] then [] else (if script[0].Got? then script[0].data else []) + Delivered(script[1..])
  }

  predicate NoFailure(script: seq<ReadOutcome>)
  {
    forall i | 0 <= i < |script| :: script[i].Got?
  }

  /** What reading `need` more bytes yields, and how many Read calls it makes. */
  function Gather(script: seq<ReadOutcome>, need: nat): (r: (Chunk, nat))
    requires Fits(script, need)
    ensures r.1 <= |script|
    ensures r.0.Filled? ==> |r.0.bytes| == need
    decreases |script|
  {
    if need == 0 then (Filled([]), 0)
    else if script == [] then (Blocked, 0)
    else if script[0].Failed? then (Nil, 1)
    else
      var (c, u) := Gather(script[1..], need - |script[0].data|);
      (if c.Filled? then Filled(script[0].data + c.bytes) else c, u + 1)
  }

  /**
   * readNextChunk's promise: a buffer of exactly the requested length, made
   * of the delivered chunks in read order, when no Read failed; Nil exactly
   * when the last Read it made failed; Blocked only when every scripted Read
   * succeeded and together they delivered too few bytes.
   */
  lemma GatherMeaning(script: seq<ReadOutcome>, need: nat)
    requires Fits(script, need)
    ensures var (c, u) := Gather(script, need);
      && (c.Filled? ==> c.bytes == Delivered(script[..u]))
      && (c.Filled? || c.Blocked? ==> NoFailure(script[..u]))
      && (c.Nil? ==> u > 0 && NoFailure(script[..u - 1]) && script[u - 1].Failed?)
      && (c.Blocked? ==> u == |script| && |Delivered(script)| < need)
  {
    GatherDelivers(script, need);
    GatherFailures(script, need);
    GatherBlocks(script, need);
  }

  /** A filled buffer is the delivered chunks, in read order. */
  lemma {:induction false} GatherDelivers(script: seq<ReadOutcome>, need: nat)
    requires Fits(script, need)
    ensures var (c, u) := Gather(script, need);
      c.Filled? ==> c.bytes == Delivered(script[..u])
    decreases |script|
  {
    if need == 0 || script == [] || script[0].Failed? {
      assert script[..0] == [];
    } else {
      var d := script[0].data;
      GatherDelivers(script[1..], need - |d|);
      var (c, u) := Gather(script[1..], need - |d|);
      assert script[..u + 1][1..] == script[1..][..u];
    }
  }

  /** No Read before the last one failed; nil means the last one did. */
  lemma {:induction false} GatherFailures(script: seq<ReadOutcome>, need: nat)
    requires Fits(script, need)
    ensures var (c, u) := Gather(script, need);
      && (c.Filled? || c.Blocked? ==> NoFailure(script[..u]))
      && (c.Nil? ==> u > 0 && NoFailure(script[..u - 1]) && script[u - 1].Failed?)
    decreases |script|
  {
    if need == 0 || script == [] || script[0].Failed? {
      assert script[..0] == [];
    } else {
      var d := script[0].data;
      GatherFailures(script[1..], need - |d|);
      var (c, u) := Gather(script[1..], need - |d|);
      assert script[..u + 1] == [script[0]] + script[1..][..u];
      if c.Nil? {
        assert script[..u] == [script[0]] + script[1..][..u - 1];
      }
    }
  }

  /** Blocking happens only after every Read succeeded and too few bytes came. */
  lemma {:induction false} GatherBlocks(script: seq<ReadOutcome>, need: nat)
    requires Fits(script, need)
    ensures var (c, u) := Gather(script, need);
      c.Blocked? ==> u == |script| && |Delivered(script)| < need
    decreases |script|
  {
    if need > 0 && script != [] && script[0].Got? {
      GatherBlocks(script[1..], need - |script[0].data|);
    }
  }

  /** Put in front of a later Gather the bytes and Read calls already done. */
  function Prepend(done: seq<byte>, calls: nat, rest: (Chunk, nat)): (Chunk, nat)
  {
    (if rest.0.Filled? then Filled(done + rest.0.bytes) else rest.0, calls + rest.1)
  }

  /** One successful Read of `d` bytes, then the rest of the Gather. */
  lemma GatherStep(script: seq<ReadOutcome>, i: nat, need: nat, done: seq<byte>, calls: nat)
    requires i < |script| && script[i].Got? && need > 0 && Fits(script[i..], need)
    ensures |script[i].data| <= need && Fits(script[i + 1..], need - |script[i].data|)
    ensures Prepend(done, calls, Gather(script[i..], need))
         == Prepend(done + script[i].data, calls + 1, Gather(script[i + 1..], need - |script[i].data|))
  {
    var d := script[i].data;
    assert script[i..][1..] == script[i + 1..];
    var rest := Gather(script[i + 1..], need - |d|);
    assert rest.0.Filled? ==> done + (d + rest.0.bytes) == (done + d) + rest.0.bytes;
  }

  /** A failed Read ends the Gather with nil after one call. */
  lemma GatherFailsAt(script: seq<ReadOutcome>, i: nat, need: nat)
    requires i < |script| && script[i].Failed? && need > 0
    ensures Fits(script[i..], need) && Gather(script[i..], need) == (Nil, 1)
  {
    assert script[i..][0] == script[i];
  }

  /** With no scripted Reads left and bytes still missing, the reader is blocked. */
  lemma GatherRunsOut(script: seq<ReadOutcome>, need: nat)
    requires need > 0
    ensures Fits(script[|script|..], need) && Gather(script[|script|..], need) == (Blocked, 0)
  {
    assert script[|script|..] == [];
  }

  /** What Read does with the slice it is given: places `d` at offset `at` of the buffer. */
  method CopyInto(buf: array<byte>, at: nat, d: seq<byte>)
    requires at + |d| <= buf.Length
    modifies buf
    ensures buf[..at + |d|] == old(buf[..at]) + d
  {
    forall k | 0 <= k < |d| {
      buf[at + k] := d[k];
    }
  }

  /** readNextChunk(length): fill a buffer of `length` bytes from successive Reads. */
  method ReadNextChunk(length: nat, script: seq<ReadOutcome>) returns (r: Chunk, used: nat)
    requires Fits(script, length)
    ensures (r, used) == Gather(script, length)
  {
    var read := new byte[length];
    var bytesRead: nat := 0;
    var i: nat := 0;
    assert script[i..] == script;
    assert read[..bytesRead] == [];
    ghost var g := Gather(script, length);
    assert g.0.Filled? ==> [] + g.0.bytes == g.0.bytes;
    while bytesRead < length && i < |script|
      invariant read.Length == length
      invariant i <= |script| && bytesRead <= length
      invariant Fits(script[i..], length - bytesRead)
      invariant g == Prepend(read[..bytesRead], i, Gather(script[i..], length - bytesRead))
      decreases |script| - i
    {
      if script[i].Failed? {
        GatherFailsAt(script, i, length - bytesRead);
        return Nil, i + 1;
      }
      var d := script[i].data;
      GatherStep(script, i, length - bytesRead, read[..bytesRead], i);
      CopyInto(read, bytesRead, d);
      bytesRead := bytesRead + |d|;
      i := i + 1;
    }
    if bytesRead < length {
      GatherRunsOut(script, length - bytesRead);
      return Blocked, |script|;
    }
    assert read[..] == read[..bytesRead] + [];
    return Filled(read[..]), i;
  }
}
