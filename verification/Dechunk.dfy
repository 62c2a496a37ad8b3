/**
 bench/pcapstat.py: the chunking layer. A capture is a list of entries; a message larger
 than DataTransferSize travels as a run of CHUNK_RESPONSE messages (DSP0274 1.4.0,
 "CHUNK_RESPONSE response message"), which `dechunk` puts back together.
 */
module Dechunk {
  import opened Bytes

  const CERTIFICATE: byte := 0x02
  const CHUNK_SEND_ACK: byte := 0x05
  const CHUNK_RESPONSE: byte := 0x06
  const GET_CERTIFICATE: byte := 0x82
  const CHUNK_SEND: byte := 0x85

  /** An SPDM message long enough to carry its RequestResponseCode in byte 1. */
  type Message = m: seq<byte> | |m| >= 2 witness [0, 0]

  /** One entry of a capture. `from` names the packets a rebuilt message came from and
      is empty for a message seen on the wire. `Unread` is an entry with no readable
      SPDM message: unframed (no bytes counted) or secured. */
  datatype Entry =
    | Unread(packet: nat, bytes: nat)
    | Spdm(packet: nat, msg: Message, from: seq<nat>)
  {
    predicate Has(code: byte) { Spdm? && msg[1] == code }

    function Size(): nat { if Spdm? then |msg| else bytes }
  }

  // ---- the fields of a CHUNK_RESPONSE -------------------------------------------

  const HEADER := 12
  const FIRST_HEADER := 16

  function SeqNo(m: seq<byte>): nat { LE(Slice(m, 4, 6)) }

  function ChunkSize(m: seq<byte>): nat { LE(Slice(m, 8, 12)) }

  function LargeTotal(m: seq<byte>): nat { LE(Slice(m, 12, 16)) }

  function Head(m: seq<byte>): nat { if SeqNo(m) == 0 then FIRST_HEADER else HEADER }

  function Payload(m: seq<byte>): seq<byte> { Slice(m, Head(m), Head(m) + ChunkSize(m)) }

  predicate LastChunk(m: seq<byte>) { |m| > 2 && m[2] % 2 == 1 }

  function Payloads(chunks: seq<seq<byte>>): (ps: seq<seq<byte>>)
    ensures |ps| == |chunks|
  {
    seq(|chunks|, i requires 0 <= i < |chunks| => Payload(chunks[i]))
  }

  /** `m` is chunk number `i` of a sequence with this handle, with all its bytes. */
  ghost predicate IsChunk(m: seq<byte>, i: nat, handle: byte) {
    && |m| >= HEADER && m[1] == CHUNK_RESPONSE
    && m[3] == handle && SeqNo(m) == i
    && |Payload(m)| == ChunkSize(m)
  }

  ghost predicate Numbered(chunks: seq<seq<byte>>, handle: byte) {
    forall i :: 0 <= i < |chunks| ==> IsChunk(chunks[i], i, handle)
  }

  /** What DSP0274 calls a complete sequence carrying `msg`: chunks numbered from 0 in
      order under one handle, LastChunk on the last and only there, and the payloads
      adding up to the LargeMessageSize of chunk 0. */
  ghost predicate Complete(chunks: seq<seq<byte>>, msg: seq<byte>) {
    && chunks != []
    && Numbered(chunks, Handle(chunks))
    && (forall i :: 0 <= i < |chunks| ==> (LastChunk(chunks[i]) <==> i == |chunks| - 1))
    && Concat(Payloads(chunks)) == msg
    && |msg| == LargeTotal(chunks[0])
  }

  ghost function Handle(chunks: seq<seq<byte>>): byte {
    if chunks != [] && |chunks[0]| > 3 then chunks[0][3] else 0
  }

  // ---- dechunk ------------------------------------------------------------------

  /** The packets a sequence has used so far; there is always a first one. */
  type Packets = p: seq<nat> | p != [] witness [0]

  datatype Open = Open(handle: byte, packets: Packets, declared: nat, next: nat,
                       wire: nat, data: seq<byte>)

  datatype Why = ShortChunk | NewSequence | HandleChanged | SeqJump | WrongTotal | NeverFinished

  /** A sequence in the report; complete exactly when nothing is given as the reason. */
  datatype Record = Record(chunks: Open, why: Option<Why>)

  datatype Note = ShortHeader(packet: nat) | ShortPayload(packet: nat) | NoSequence(packet: nat)
                | Closed(first: nat, last: nat, why: Why)

  datatype State = State(open: Option<Open>, logical: seq<Entry>, sequences: seq<Record>,
                         notes: seq<Note>, recovered: nat, bytesRecovered: nat,
                         chunkSends: nat, chunkSendAcks: nat)

  const START := State(None, [], [], [], 0, 0, 0, 0)

  function Fail(st: State, why: Why): State
    requires st.open.Some?
  {
    var o := st.open.value;
    st.(open := None,
        sequences := st.sequences + [Record(o, Some(why))],
        notes := st.notes + [Closed(o.packets[0], o.packets[|o.packets| - 1], why)])
  }

  /** A sequence closes well; reading its code fails (`IndexError`) below two bytes. */
  function Succeed(st: State): Option<State>
    requires st.open.Some?
  {
    var o := st.open.value;
    if |o.data| < 2 then None
    else Some(st.(open := None,
                  sequences := st.sequences + [Record(o, None)],
                  recovered := st.recovered + 1,
                  bytesRecovered := st.bytesRecovered + |o.data|,
                  logical := st.logical + [Spdm(o.packets[0], o.data, o.packets)]))
  }

  function Pass(st: State, e: Entry): State {
    st.(logical := st.logical + [e])
  }

  function AfterChunk(st: State, m: Message): Option<State>
    requires st.open.Some?
  {
    if !LastChunk(m) then Some(st)
    else if |st.open.value.data| != st.open.value.declared then Some(Fail(st, WrongTotal))
    else Succeed(st)
  }

  function Opened(packet: nat, m: Message): Open
    requires |m| >= HEADER
  {
    Open(m[3], [packet], LargeTotal(m), 1, |m|, Payload(m))
  }

  function Extended(o: Open, packet: nat, m: Message): Open {
    o.(packets := o.packets + [packet], next := o.next + 1, wire := o.wire + |m|, data := o.data + Payload(m))
  }

  function ChunkStep(st: State, packet: nat, m: Message): Option<State> {
    if |m| < HEADER then Some(st.(notes := st.notes + [ShortHeader(packet)]))
    else if |Payload(m)| != ChunkSize(m) then
      var noted := st.(notes := st.notes + [ShortPayload(packet)]);
      Some(if st.open.Some? then Fail(noted, ShortChunk) else noted)
    else if SeqNo(m) == 0 then
      var begun := if st.open.Some? then Fail(st, NewSequence) else st;
      AfterChunk(begun.(open := Some(Opened(packet, m))), m)
    else if st.open.None? then Some(st.(notes := st.notes + [NoSequence(packet)]))
    else if m[3] != st.open.value.handle then Some(Fail(st, HandleChanged))
    else if SeqNo(m) != st.open.value.next then Some(Fail(st, SeqJump))
    else AfterChunk(st.(open := Some(Extended(st.open.value, packet, m))), m)
  }

  function Step(st: State, e: Entry): Option<State> {
    if e.Has(CHUNK_SEND) then Some(Pass(st.(chunkSends := st.chunkSends + 1), e))
    else if e.Has(CHUNK_SEND_ACK) then Some(Pass(st.(chunkSendAcks := st.chunkSendAcks + 1), e))
    else if !e.Has(CHUNK_RESPONSE) then Some(Pass(st, e))
    else ChunkStep(st, e.packet, e.msg)
  }

  function Run(st: State, es: seq<Entry>): Option<State>
    decreases |es|
  {
    if es == [] then Some(st)
    else match Step(st, es[0])
      case None => None
      case Some(next) => Run(next, es[1..])
  }

  /** The specification of `dechunk`; None is the uncaught IndexError of a complete
      sequence carrying fewer than two bytes. */
  function Reassembled(es: seq<Entry>): Option<State> {
    match Run(START, es)
    case None => None
    case Some(st) => Some(if st.open.Some? then Fail(st, NeverFinished) else st)
  }

  /** `dechunk`, with the loop and the branches of the source. */
  method Dechunk(entries: seq<Entry>) returns (result: Option<State>)
    ensures result == Reassembled(entries)
  {
    var st := START;
    var i := 0;
    while i < |entries|
      invariant 0 <= i <= |entries|
      invariant Run(START, entries) == Run(st, entries[i..])
    {
      var e := entries[i];
      assert entries[i..][0] == e && entries[i..][1..] == entries[i + 1..];
      i := i + 1;
      if e.Has(CHUNK_SEND) {
        st := st.(chunkSends := st.chunkSends + 1, logical := st.logical + [e]);
        continue;
      }
      if e.Has(CHUNK_SEND_ACK) {
        st := st.(chunkSendAcks := st.chunkSendAcks + 1, logical := st.logical + [e]);
        continue;
      }
      if !e.Has(CHUNK_RESPONSE) {
        st := st.(logical := st.logical + [e]);
        continue;
      }
      var m := e.msg;
      if |m| < HEADER {
        st := st.(notes := st.notes + [ShortHeader(e.packet)]);
        continue;
      }
      var handle, seqNo, size, payload := m[3], SeqNo(m), ChunkSize(m), Payload(m);
      if |payload| != size {
        st := st.(notes := st.notes + [ShortPayload(e.packet)]);
        if st.open.Some? {
          st := Fail(st, ShortChunk);
        }
        continue;
      }
      if seqNo == 0 {
        if st.open.Some? {
          st := Fail(st, NewSequence);
        }
        st := st.(open := Some(Open(handle, [e.packet], LargeTotal(m), 1, |m|, payload)));
      } else {
        if st.open.None? {
          st := st.(notes := st.notes + [NoSequence(e.packet)]);
          continue;
        }
        if handle != st.open.value.handle {
          st := Fail(st, HandleChanged);
          continue;
        }
        if seqNo != st.open.value.next {
          st := Fail(st, SeqJump);
          continue;
        }
        var o := st.open.value;
        st := st.(open := Some(Open(o.handle, o.packets + [e.packet], o.declared, o.next + 1,
                                    o.wire + |m|, o.data + payload)));
      }
      if LastChunk(m) {
        var o := st.open.value;
        if |o.data| != o.declared {
          st := Fail(st, WrongTotal);
        } else {
          var closed := Succeed(st);
          if closed.None? {
            return None;
          }
          st := closed.value;
        }
      }
    }
    if st.open.Some? {
      st := Fail(st, NeverFinished);
    }
    result := Some(st);
  }
}
