/**
 The other direction: whatever is sent, whole or in a complete chunk sequence, and
 whatever else is interleaved with it, `dechunk` hands back exactly what was sent.
 */
module DechunkComplete {
  import opened Bytes
  import opened Dechunk

  /** One message on its way: whole, or as a complete chunk sequence. */
  datatype Delivery = Whole(msg: Message) | InChunks(msg: Message, chunks: seq<seq<byte>>)
  {
    function Wire(): seq<seq<byte>> { if Whole? then [msg] else chunks }

    ghost predicate Valid(codes: set<byte>) {
      msg[1] in codes && (InChunks? ==> Complete(chunks, msg))
    }
  }

  /** The entry is a readable message of one of these codes. */
  predicate Of(e: Entry, codes: set<byte>) {
    e.Spdm? && e.msg[1] in codes
  }

  function Wires(ds: seq<Delivery>): seq<seq<byte>> {
    if ds == [] then [] else ds[0].Wire() + Wires(ds[1..])
  }

  /** What traffic of these codes looks like on the wire: its messages and every CHUNK_RESPONSE. */
  function Watched(es: seq<Entry>, codes: set<byte>): seq<seq<byte>> {
    if es == [] then [] else
      (if Of(es[0], codes) || es[0].Has(CHUNK_RESPONSE) then [es[0].msg] else []) + Watched(es[1..], codes)
  }

  /** The messages of these codes in a list of entries, each with whether it was rebuilt. */
  function Seen(es: seq<Entry>, codes: set<byte>): seq<(seq<byte>, bool)> {
    if es == [] then [] else
      (if Of(es[0], codes) then [(es[0].msg, es[0].from != [])] else []) + Seen(es[1..], codes)
  }

  function Received(ds: seq<Delivery>): seq<(seq<byte>, bool)> {
    if ds == [] then [] else [(ds[0].msg, ds[0].InChunks?)] + Received(ds[1..])
  }

  ghost predicate AllValid(ds: seq<Delivery>, codes: set<byte>) {
    ds == [] || (ds[0].Valid(codes) && AllValid(ds[1..], codes))
  }

  /** Nothing in the capture has been through `dechunk` before. */
  ghost predicate OffTheWire(es: seq<Entry>) {
    es == [] || ((es[0].Spdm? ==> es[0].from == []) && OffTheWire(es[1..]))
  }

  /** The entries hold exactly these deliveries, in order, among any other traffic that is
      neither of these codes nor a CHUNK_RESPONSE. */
  ghost predicate Carries(es: seq<Entry>, codes: set<byte>, ds: seq<Delivery>) {
    && Watched(es, codes) == Wires(ds)
    && AllValid(ds, codes) && OffTheWire(es)
  }

  lemma {:induction false} SeenAppend(es: seq<Entry>, e: Entry, codes: set<byte>)
    ensures Seen(es + [e], codes) == Seen(es, codes) + if Of(e, codes) then [(e.msg, e.from != [])] else []
  {
    if es == [] {
      assert [] + [e] == [e];
    } else {
      SeenAppend(es[1..], e, codes);
      assert (es + [e])[1..] == es[1..] + [e];
    }
  }

  /** `j` chunks of the sequence are in. */
  ghost predicate Midway(st: State, chunks: seq<seq<byte>>, j: nat)
    requires j < |chunks|
  {
    if j == 0 then st.open.None?
    else
      && st.open.Some?
      && var o := st.open.value;
         && o.handle == Handle(chunks) && o.declared == LargeTotal(chunks[0]) && o.next == j
         && o.data == Concat(Payloads(chunks[..j]))
  }

  /** One more chunk of a complete sequence: it is taken, and the last one closes it. */
  lemma {:induction false} ChunkTaken(st: State, packet: nat, chunks: seq<seq<byte>>, msg: Message, j: nat)
    requires Complete(chunks, msg) && j < |chunks| && |chunks[j]| >= 2 && Midway(st, chunks, j)
    ensures var r := ChunkStep(st, packet, chunks[j]);
            && r.Some? && r.value.notes == st.notes
            && (j + 1 < |chunks| ==> Midway(r.value, chunks, j + 1) && r.value.logical == st.logical)
            && (j + 1 == |chunks| ==>
                  && r.value.open.None?
                  && var l := r.value.logical;
                     && l != [] && l[..|l| - 1] == st.logical
                     && l[|l| - 1].Spdm? && l[|l| - 1].msg == msg && l[|l| - 1].from != [])
  {
    var m := chunks[j];
    assert IsChunk(m, j, Handle(chunks));
    assert chunks[..j + 1] == chunks[..j] + [m];
    assert Payloads(chunks[..j + 1]) == Payloads(chunks[..j]) + [Payload(m)];
    ConcatAppend(Payloads(chunks[..j]), [Payload(m)]);
    assert Concat([Payload(m)]) == Payload(m) + Concat([]) == Payload(m);
    assert j == 0 ==> Payloads(chunks[..j]) == [];
    assert chunks[..|chunks|] == chunks;
  }

  lemma {:induction false} InsideSequence(st: State, es: seq<Entry>, codes: set<byte>, chunks: seq<seq<byte>>,
                                          msg: Message, j: nat, ds: seq<Delivery>)
    requires CHUNK_RESPONSE !in codes && msg[1] in codes
    requires Complete(chunks, msg) && j < |chunks| && Midway(st, chunks, j)
    requires Watched(es, codes) == chunks[j..] + Wires(ds)
    requires AllValid(ds, codes) && OffTheWire(es)
    ensures var r := Run(st, es);
            && r.Some? && r.value.open.None? && r.value.notes == st.notes
            && Seen(r.value.logical, codes) == Seen(st.logical, codes) + [(msg, true)] + Received(ds)
    decreases |es|, 0
  {
    hide Midway, ChunkStep, Complete;
    var e := es[0];
    if Of(e, codes) || e.Has(CHUNK_RESPONSE) {
      var w := chunks[j..] + Wires(ds);
      assert Watched(es, codes) == [e.msg] + Watched(es[1..], codes);
      assert e.msg == w[0] == chunks[j] && Watched(es[1..], codes) == w[1..];
      TakenFromWire(st, e, codes, chunks, msg, j);
      var next := Step(st, e).value;
      if j + 1 < |chunks| {
        assert w[1..] == chunks[j + 1..] + Wires(ds);
        InsideSequence(next, es[1..], codes, chunks, msg, j + 1, ds);
      } else {
        assert w[1..] == Wires(ds);
        BetweenDeliveries(next, es[1..], codes, ds);
      }
    } else {
      PassedBy(st, e, codes, chunks, j);
      InsideSequence(Step(st, e).value, es[1..], codes, chunks, msg, j, ds);
    }
  }

  /** Traffic of no interest changes neither the sequence in progress nor what was seen. */
  lemma {:induction false} PassedBy(st: State, e: Entry, codes: set<byte>, chunks: seq<seq<byte>>, j: nat)
    requires !Of(e, codes) && !e.Has(CHUNK_RESPONSE) && j < |chunks| && Midway(st, chunks, j)
    ensures var r := Step(st, e);
            && r.Some? && r.value.notes == st.notes && Midway(r.value, chunks, j)
            && Seen(r.value.logical, codes) == Seen(st.logical, codes)
  {
    SeenAppend(st.logical, e, codes);
  }

  lemma {:induction false} TakenFromWire(st: State, e: Entry, codes: set<byte>, chunks: seq<seq<byte>>,
                                         msg: Message, j: nat)
    requires CHUNK_RESPONSE !in codes && msg[1] in codes
    requires Complete(chunks, msg) && j < |chunks| && Midway(st, chunks, j) && e.Spdm? && e.msg == chunks[j]
    ensures var r := Step(st, e);
            && r.Some? && r.value.notes == st.notes
            && (j + 1 < |chunks| ==>
                  Midway(r.value, chunks, j + 1) && Seen(r.value.logical, codes) == Seen(st.logical, codes))
            && (j + 1 == |chunks| ==>
                  r.value.open.None? && Seen(r.value.logical, codes) == Seen(st.logical, codes) + [(msg, true)])
  {
    assert IsChunk(chunks[j], j, Handle(chunks));
    ChunkTaken(st, e.packet, chunks, msg, j);
    if j + 1 == |chunks| {
      var l := Step(st, e).value.logical;
      var x := l[|l| - 1];
      assert l == st.logical + [x];
      SeenAppend(st.logical, x, codes);
    }
  }

  lemma {:induction false} BetweenDeliveries(st: State, es: seq<Entry>, codes: set<byte>, ds: seq<Delivery>)
    requires CHUNK_RESPONSE !in codes && st.open.None? && Carries(es, codes, ds)
    ensures var r := Run(st, es);
            && r.Some? && r.value.open.None? && r.value.notes == st.notes
            && Seen(r.value.logical, codes) == Seen(st.logical, codes) + Received(ds)
    decreases |es|, 1
  {
    assert ds != [] ==> ds[0].Wire() != [];
    hide Complete, ChunkStep;
    if es == [] {
    } else if ds != [] && ds[0].InChunks? {
      assert ds[0].chunks[0..] == ds[0].chunks;
      InsideSequence(st, es, codes, ds[0].chunks, ds[0].msg, 0, ds[1..]);
      Assoc(Seen(st.logical, codes), [(ds[0].msg, true)], Received(ds[1..]));
    } else {
      var e := es[0];
      SeenAppend(st.logical, e, codes);
      if Of(e, codes) || e.Has(CHUNK_RESPONSE) {
        ConsInjective(e.msg, Watched(es[1..], codes), ds[0].msg, Wires(ds[1..]));
        BetweenDeliveries(Step(st, e).value, es[1..], codes, ds[1..]);
        Assoc(Seen(st.logical, codes), [(ds[0].msg, false)], Received(ds[1..]));
      } else {
        BetweenDeliveries(Step(st, e).value, es[1..], codes, ds);
      }
    }
  }

  /** Chunking is invisible after `dechunk`: for any codes, any mixture of whole and chunked
      deliveries and any other traffic in between, the logical view holds exactly the
      messages sent, in order, and nothing is noted as wrong. */
  lemma {:induction false} DechunkInvertsChunking(es: seq<Entry>, codes: set<byte>, ds: seq<Delivery>)
    requires CHUNK_RESPONSE !in codes && Carries(es, codes, ds)
    ensures Reassembled(es).Some?
    ensures Seen(Reassembled(es).value.logical, codes) == Received(ds)
    ensures Reassembled(es).value.notes == []
  {
    BetweenDeliveries(START, es, codes, ds);
  }

  // ---- senders ------------------------------------------------------------------

  /** A CHUNK_RESPONSE as `_chunked` lays it out. */
  function ChunkMessage(seqNo: nat, total: nat, piece: seq<byte>, last: bool): (m: seq<byte>)
    ensures |m| == (if seqNo == 0 then FIRST_HEADER else HEADER) + |piece|
  {
    [0x14, CHUNK_RESPONSE, if last then 1 else 0, 1] + ToLE(seqNo, 2) + [0, 0] + ToLE(|piece|, 4)
      + (if seqNo == 0 then ToLE(total, 4) else []) + piece
  }

  /** The chunks from `off` on, with `first` payload bytes in chunk 0 and `rest` in others. */
  function ChunksFrom(msg: seq<byte>, off: nat, seqNo: nat, first: nat, rest: nat): seq<seq<byte>>
    requires first > 0 && rest > 0 && off <= |msg|
    decreases |msg| - off
  {
    if off == |msg| then []
    else
      var end := Min(off + if seqNo == 0 then first else rest, |msg|);
      [ChunkMessage(seqNo, |msg|, msg[off..end], end == |msg|)] + ChunksFrom(msg, end, seqNo + 1, first, rest)
  }

  /** Where the six parts of a CHUNK_RESPONSE stand. */
  lemma {:induction false} ChunkLayout(a: seq<byte>, b: seq<byte>, c: seq<byte>, d: seq<byte>, e: seq<byte>,
                                       p: seq<byte>)
    requires |a| == 4 && |b| == 2 && |c| == 2 && |d| == 4
    ensures var m := a + b + c + d + e + p;
            && |m| == 12 + |e| + |p| && m[..4] == a
            && Slice(m, 4, 6) == b && Slice(m, 8, 12) == d && (|e| == 4 ==> Slice(m, 12, 16) == e)
            && Slice(m, 12 + |e|, 12 + |e| + |p|) == p
  {
    var m := a + b + c + d + e + p;
    assert m[4..6] == b && m[8..12] == d;
    assert m[12..12 + |e|] == e && m[12 + |e|..] == p;
  }

  lemma {:induction false} ChunkMessageFields(seqNo: nat, total: nat, piece: seq<byte>, last: bool)
    requires seqNo < 0x1_0000 && total < 0x1_0000_0000 && |piece| < 0x1_0000_0000
    ensures var m := ChunkMessage(seqNo, total, piece, last);
            && IsChunk(m, seqNo, 1) && Payload(m) == piece && (LastChunk(m) <==> last)
            && (seqNo == 0 ==> LargeTotal(m) == total)
  {
    hide LE, ToLE, Slice, Pow256;
    Widths();
    LERoundTrip(seqNo, 2);
    LERoundTrip(|piece|, 4);
    LERoundTrip(total, 4);
    var head: seq<byte> := [0x14, CHUNK_RESPONSE, if last then 1 else 0, 1];
    var extra := if seqNo == 0 then ToLE(total, 4) else [];
    ChunkLayout(head, ToLE(seqNo, 2), [0, 0], ToLE(|piece|, 4), extra, piece);
    var m := ChunkMessage(seqNo, total, piece, last);
    assert m[1] == m[..4][1] && m[2] == m[..4][2] && m[3] == m[..4][3];
  }

  lemma {:induction false} ChunksFromNumbered(msg: seq<byte>, off: nat, k: nat, first: nat, rest: nat)
    requires first > 0 && rest > 0 && off <= |msg| < 0x1_0000_0000
    requires k + |ChunksFrom(msg, off, k, first, rest)| <= 0x1_0000
    ensures var cs := ChunksFrom(msg, off, k, first, rest);
            && (forall i :: 0 <= i < |cs| ==> IsChunk(cs[i], k + i, 1) && (LastChunk(cs[i]) <==> i == |cs| - 1))
            && Concat(Payloads(cs)) == msg[off..]
    decreases |msg| - off
  {
    hide ChunkMessage, IsChunk, LastChunk, Payload, Concat, Payloads;
    if off == |msg| {
      NothingCarried();
    } else {
      var end := Min(off + if k == 0 then first else rest, |msg|);
      var c := ChunkMessage(k, |msg|, msg[off..end], end == |msg|);
      var tail := ChunksFrom(msg, end, k + 1, first, rest);
      assert ChunksFrom(msg, off, k, first, rest) == [c] + tail;
      ChunksFromNumbered(msg, end, k + 1, first, rest);
      ChunkMessageFields(k, |msg|, msg[off..end], end == |msg|);
      ConsChunk(c, tail, k);
      assert msg[off..] == Payload(c) + msg[end..];
    }
  }

  lemma {:induction false} NothingCarried()
    ensures Concat(Payloads([])) == []
  {
  }

  lemma {:induction false} ConsChunk(c: seq<byte>, tail: seq<seq<byte>>, k: nat)
    requires IsChunk(c, k, 1) && (LastChunk(c) <==> tail == [])
    requires forall i :: 0 <= i < |tail| ==> IsChunk(tail[i], k + 1 + i, 1) && (LastChunk(tail[i]) <==> i == |tail| - 1)
    ensures var cs := [c] + tail;
            && (forall i :: 0 <= i < |cs| ==> IsChunk(cs[i], k + i, 1) && (LastChunk(cs[i]) <==> i == |cs| - 1))
            && Concat(Payloads(cs)) == Payload(c) + Concat(Payloads(tail))
  {
    var cs := [c] + tail;
    assert Payloads(cs)[1..] == Payloads(tail);
    forall i | 0 <= i < |cs|
      ensures IsChunk(cs[i], k + i, 1) && (LastChunk(cs[i]) <==> i == |cs| - 1)
    {
      if i > 0 {
        assert cs[i] == tail[i - 1] && IsChunk(tail[i - 1], k + 1 + (i - 1), 1);
      }
    }
  }

  /** A sender's chunks are a complete sequence, as long as ChunkSeqNo can number them. */
  lemma {:induction false} SentChunksComplete(msg: Message, first: nat, rest: nat)
    requires first > 0 && rest > 0 && |msg| < 0x1_0000_0000
    requires |ChunksFrom(msg, 0, 0, first, rest)| <= 0x1_0000
    ensures Complete(ChunksFrom(msg, 0, 0, first, rest), msg)
  {
    var cs := ChunksFrom(msg, 0, 0, first, rest);
    ChunksFromNumbered(msg, 0, 0, first, rest);
    var end := Min(first, |msg|);
    assert cs[0] == ChunkMessage(0, |msg|, msg[0..end], end == |msg|);
    ChunkMessageFields(0, |msg|, msg[0..end], end == |msg|);
    assert IsChunk(cs[0], 0 + 0, 1);
    assert msg[0..] == msg;
  }

  lemma {:induction false} NextChunk(msg: seq<byte>, off: nat, k: nat, first: nat, rest: nat)
    requires first > 0 && rest > 0 && off < |msg|
    ensures var end := Min(off + if k == 0 then first else rest, |msg|);
            ChunksFrom(msg, off, k, first, rest)
              == [ChunkMessage(k, |msg|, msg[off..end], end == |msg|)] + ChunksFrom(msg, end, k + 1, first, rest)
  {
  }

  lemma {:induction false} NoMoreChunks(msg: seq<byte>, k: nat, first: nat, rest: nat)
    requires first > 0 && rest > 0
    ensures ChunksFrom(msg, |msg|, k, first, rest) == []
  {
  }

  /** `_chunked`. None is `struct.error`: a sequence number past 16 bits or a size past 32. A
      chunk size of zero never gets anywhere and runs out of sequence numbers. */
  method Chunked(msg: seq<byte>, chunkSize: nat) returns (result: Option<seq<seq<byte>>>)
    ensures chunkSize > 0 ==>
              var cs := ChunksFrom(msg, 0, 0, chunkSize, chunkSize);
              result == if |cs| <= 0x1_0000 && (|msg| < 0x1_0000_0000 || cs == []) then Some(cs) else None
    ensures chunkSize == 0 ==> result == if msg == [] then Some([]) else None
  {
    hide ChunksFrom, ToLE;
    var out := [];
    var off, seqNo := 0, 0;
    while off < |msg|
      invariant 0 <= off <= |msg| && seqNo == |out| <= 0x1_0000
      invariant chunkSize > 0 ==>
                  ChunksFrom(msg, 0, 0, chunkSize, chunkSize) == out + ChunksFrom(msg, off, seqNo, chunkSize, chunkSize)
      invariant if seqNo > 0 then |msg| < 0x1_0000_0000 else off == 0
      invariant chunkSize == 0 ==> off == 0
      invariant msg == [] ==> out == []
      decreases 0x1_0000 - seqNo
    {
      var piece := Slice(msg, off, off + chunkSize);
      if chunkSize > 0 {
        NextChunk(msg, off, seqNo, chunkSize, chunkSize);
      }
      ghost var before := out;
      off := off + |piece|;
      var last := if off >= |msg| then 1 else 0;
      if seqNo >= 0x1_0000 || |piece| >= 0x1_0000_0000 || (seqNo == 0 && |msg| >= 0x1_0000_0000) {
        return None;
      }
      var head := [0x14, CHUNK_RESPONSE, last, 1] + ToLE(seqNo, 2) + [0, 0] + ToLE(|piece|, 4);
      head := head + if seqNo == 0 then ToLE(|msg|, 4) else [];
      assert head + piece == ChunkMessage(seqNo, |msg|, piece, off == |msg|);
      hide ChunkMessage;
      out := out + [head + piece];
      if chunkSize > 0 {
        Assoc(before, [head + piece], ChunksFrom(msg, off, seqNo + 1, chunkSize, chunkSize));
      }
      seqNo := seqNo + 1;
    }
    if chunkSize > 0 {
      NoMoreChunks(msg, seqNo, chunkSize, chunkSize);
    }
    assert out + [] == out;
    result := Some(out);
  }

  // ---- one code among several -------------------------------------------------------

  function OnlyCode(seen: seq<(seq<byte>, bool)>, code: byte): seq<(seq<byte>, bool)> {
    if seen == [] then []
    else if |seen[0].0| >= 2 && seen[0].0[1] == code then [seen[0]] + OnlyCode(seen[1..], code)
    else OnlyCode(seen[1..], code)
  }

  /** What is seen of one code is what that code has of what is seen of several. */
  lemma {:induction false} SeenOfOne(es: seq<Entry>, codes: set<byte>, code: byte)
    requires code in codes
    ensures Seen(es, {code}) == OnlyCode(Seen(es, codes), code)
  {
    if es != [] {
      SeenOfOne(es[1..], codes, code);
      var e := es[0];
      if Of(e, codes) {
        var x := (e.msg, e.from != []);
        assert Seen(es, codes) == [x] + Seen(es[1..], codes) && Seen(es, codes)[1..] == Seen(es[1..], codes);
        assert Seen(es, {code}) == (if e.msg[1] == code then [x] else []) + Seen(es[1..], {code});
      } else {
        assert Seen(es, codes) == Seen(es[1..], codes) && Seen(es, {code}) == Seen(es[1..], {code});
      }
    }
  }
}
