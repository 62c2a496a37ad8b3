/**
 bench/exp04_fragmentation.py: how many chunk round trips a message costs. The closed form
 is exact: a sender that fills every response uses that many, `dechunk` inverts it, and no
 complete sequence of responses of that size does better.
 */
module ChunkCount {
  import opened Bytes
  import opened Dechunk
  import opened DechunkComplete

  /** `chunk_roundtrips`; None is the ValueError for a DataTransferSize below a header. The
      branch for a message that fits in one first chunk is the source's; it cannot be taken. */
  function ChunkRoundtrips(msgBytes: nat, dts: int): Option<int> {
    if msgBytes <= dts then Some(0)
    else
      var first := dts - FIRST_HEADER;
      var rest := dts - HEADER;
      if first <= 0 || rest <= 0 then None
      else if msgBytes <= first then Some(1)
      else Some(1 + CeilDiv(msgBytes - first, rest))
  }

  /** Nothing for a message that is not above DataTransferSize; no answer when that leaves a first
      chunk no room; otherwise the count is one ceiling, and one response never suffices. */
  lemma {:induction false} ClosedForm(msgBytes: nat, dts: int)
    ensures ChunkRoundtrips(msgBytes, dts) ==
            if msgBytes <= dts then Some(0) else if dts <= 16 then None else Some(CeilDiv(msgBytes + 4, dts - 12))
    ensures msgBytes > dts > 16 ==> ChunkRoundtrips(msgBytes, dts).value >= 2
  {
    if msgBytes > dts > 16 {
      CeilDivOneMore(msgBytes - (dts - FIRST_HEADER), dts - HEADER);
      CeilDivIsLeast(msgBytes + 4, dts - HEADER, 1);
    }
  }

  /** The count never falls as the message grows and never rises as the transfer size does. */
  lemma {:induction false} RoundtripsMonotone(short: nat, long: nat, small: nat, large: nat)
    requires short <= long && FIRST_HEADER < small <= large
    ensures ChunkRoundtrips(short, large).Some? && ChunkRoundtrips(long, small).Some?
    ensures ChunkRoundtrips(short, large).value <= ChunkRoundtrips(long, small).value
  {
    if short > large {
      ClosedForm(short, large);
      ClosedForm(long, small);
      var n := CeilDiv(long + 4, small - HEADER);
      CeilDivIsLeast(long + 4, small - HEADER, n);
      assert n * (small - HEADER) <= n * (large - HEADER);
      CeilDivIsLeast(short + 4, large - HEADER, n);
    }
  }

  /** A sender that fills each response to `dts` bytes. */
  function Filled(msg: seq<byte>, dts: nat): seq<seq<byte>>
    requires dts > FIRST_HEADER
  {
    ChunksFrom(msg, 0, 0, dts - FIRST_HEADER, dts - HEADER)
  }

  lemma {:induction false} FilledTail(msg: seq<byte>, off: nat, k: nat, dts: nat)
    requires dts > FIRST_HEADER && 0 < k && off <= |msg|
    ensures var cs := ChunksFrom(msg, off, k, dts - FIRST_HEADER, dts - HEADER);
            && |cs| == CeilDiv(|msg| - off, dts - HEADER)
            && forall i :: 0 <= i < |cs| ==> |cs[i]| <= dts && (i < |cs| - 1 ==> |cs[i]| == dts)
    decreases |msg| - off
  {
    var rest := dts - HEADER;
    if off + rest <= |msg| {
      FilledTail(msg, off + rest, k + 1, dts);
      CeilDivOneMore(|msg| - off - rest, rest);
    } else if off < |msg| {
      FilledTail(msg, |msg|, k + 1, dts);
      CeilDivIsLeast(|msg| - off, rest, 1);
      CeilDivIsLeast(|msg| - off, rest, 0);
    } else {
      CeilDivIsLeast(0, rest, 0);
    }
  }

  /** What the filling sender emits: the predicted number of responses, none above the
      transfer size and all but the last exactly at it. */
  lemma {:induction false} FilledUsesThatMany(msg: seq<byte>, dts: nat)
    requires dts > FIRST_HEADER && |msg| > dts
    ensures var cs := Filled(msg, dts);
            && Some(|cs|) == ChunkRoundtrips(|msg|, dts)
            && forall i :: 0 <= i < |cs| ==> |cs[i]| <= dts && (i < |cs| - 1 ==> |cs[i]| == dts)
  {
    FilledTail(msg, dts - FIRST_HEADER, 1, dts);
    CeilDivIsLeast(|msg| - (dts - FIRST_HEADER), dts - HEADER, 0);
  }

  lemma {:induction false} PayloadRoom(m: seq<byte>, i: nat, handle: byte, dts: nat)
    requires IsChunk(m, i, handle) && |m| <= dts && dts > FIRST_HEADER
    ensures |Payload(m)| <= dts - if i == 0 then FIRST_HEADER else HEADER
  {
  }

  /** Chunks `k` and later of a sequence, none longer than `dts`. */
  ghost predicate Fitting(chunks: seq<seq<byte>>, k: nat, handle: byte, dts: nat) {
    forall i :: 0 <= i < |chunks| ==> IsChunk(chunks[i], k + i, handle) && |chunks[i]| <= dts
  }

  lemma {:induction false} FittingTail(chunks: seq<seq<byte>>, k: nat, handle: byte, dts: nat)
    requires chunks != [] && Fitting(chunks, k, handle, dts) && dts > FIRST_HEADER
    ensures Fitting(chunks[1..], k + 1, handle, dts)
    ensures Concat(Payloads(chunks)) == Payload(chunks[0]) + Concat(Payloads(chunks[1..]))
    ensures |Payload(chunks[0])| <= dts - if k == 0 then FIRST_HEADER else HEADER
  {
    hide IsChunk, Payload;
    assert IsChunk(chunks[0], k + 0, handle);
    PayloadRoom(chunks[0], k, handle, dts);
    assert Payloads(chunks)[1..] == Payloads(chunks[1..]);
    forall i | 0 <= i < |chunks[1..]|
      ensures IsChunk(chunks[1..][i], k + 1 + i, handle) && |chunks[1..][i]| <= dts
    {
      assert chunks[1..][i] == chunks[i + 1] && IsChunk(chunks[i + 1], k + (i + 1), handle);
    }
  }

  /** The payloads of `n` chunks after the first hold at most `n` times the room of one. */
  lemma {:induction false} RoomInChunks(chunks: seq<seq<byte>>, k: nat, handle: byte, dts: nat)
    requires 0 < k && dts > FIRST_HEADER && Fitting(chunks, k, handle, dts)
    ensures |Concat(Payloads(chunks))| <= |chunks| * (dts - HEADER)
  {
    hide Fitting, IsChunk, Payload;
    if chunks != [] {
      FittingTail(chunks, k, handle, dts);
      RoomInChunks(chunks[1..], k + 1, handle, dts);
      assert |chunks| * (dts - HEADER) == |chunks[1..]| * (dts - HEADER) + (dts - HEADER);
    }
  }

  /** No complete sequence whose responses stay within the transfer size uses fewer. */
  lemma {:induction false} NoSequenceUsesFewer(chunks: seq<seq<byte>>, msg: seq<byte>, dts: nat)
    requires dts > FIRST_HEADER && Complete(chunks, msg)
    requires forall i :: 0 <= i < |chunks| ==> |chunks[i]| <= dts
    ensures ChunkRoundtrips(|msg|, dts).Some? && |chunks| >= ChunkRoundtrips(|msg|, dts).value
  {
    hide IsChunk, Payload, LargeTotal;
    if |msg| > dts {
      var n, room := |chunks|, dts - HEADER;
      assert Fitting(chunks, 0, Handle(chunks), dts);
      FittingTail(chunks, 0, Handle(chunks), dts);
      RoomInChunks(chunks[1..], 1, Handle(chunks), dts);
      assert n * room == (n - 1) * room + room;
      CeilDivIsLeast(|msg| + 4, room, n);
      ClosedForm(|msg|, dts);
    }
  }

  lemma {:induction false} FilledCompletes(msg: Message, dts: nat)
    requires dts > FIRST_HEADER && dts < |msg| < 0x1_0000_0000 && ChunkRoundtrips(|msg|, dts).value <= 0x1_0000
    ensures Complete(Filled(msg, dts), msg) && |Filled(msg, dts)| == ChunkRoundtrips(|msg|, dts).value
  {
    hide Complete, ChunksFrom, ChunkRoundtrips;
    FilledUsesThatMany(msg, dts);
    SentChunksComplete(msg, dts - FIRST_HEADER, dts - HEADER);
  }

  lemma {:induction false} OneDelivery(es: seq<Entry>, msg: Message, chunks: seq<seq<byte>>)
    requires msg[1] != CHUNK_RESPONSE && Complete(chunks, msg)
    requires Watched(es, {msg[1]}) == chunks && OffTheWire(es)
    ensures Reassembled(es).Some? && Seen(Reassembled(es).value.logical, {msg[1]}) == [(msg, true)]
  {
    hide Complete, Watched, OffTheWire, Reassembled, Seen;
    var d := InChunks(msg, chunks);
    assert Wires([d]) == d.chunks + Wires([]) == d.chunks;
    assert [d][1..] == [] && AllValid([], {msg[1]});
    DechunkInvertsChunking(es, {msg[1]}, [d]);
    assert Received([d]) == [(d.msg, true)] + Received([]) == [(msg, true)];
  }

  /** The closed form is the exact optimum, reached by the filling sender, whose sequence
      `dechunk` turns back into the message among any other traffic. */
  lemma {:induction false} RoundtripsAreOptimal(msg: Message, dts: nat, es: seq<Entry>)
    requires dts > FIRST_HEADER && dts < |msg| < 0x1_0000_0000 && msg[1] != CHUNK_RESPONSE
    requires ChunkRoundtrips(|msg|, dts).value <= 0x1_0000
    requires Watched(es, {msg[1]}) == Filled(msg, dts) && OffTheWire(es)
    ensures Complete(Filled(msg, dts), msg) && |Filled(msg, dts)| == ChunkRoundtrips(|msg|, dts).value
    ensures Reassembled(es).Some? && Seen(Reassembled(es).value.logical, {msg[1]}) == [(msg, true)]
    ensures forall chunks :: Complete(chunks, msg) && (forall i :: 0 <= i < |chunks| ==> |chunks[i]| <= dts)
              ==> |chunks| >= |Filled(msg, dts)|
  {
    hide Complete, Watched, OffTheWire, Reassembled, Seen, Filled, ChunkRoundtrips;
    FilledCompletes(msg, dts);
    OneDelivery(es, msg, Filled(msg, dts));
    forall chunks | Complete(chunks, msg) && (forall i :: 0 <= i < |chunks| ==> |chunks[i]| <= dts)
      ensures |chunks| >= |Filled(msg, dts)|
    {
      NoSequenceUsesFewer(chunks, msg, dts);
    }
  }
}
