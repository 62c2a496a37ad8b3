/**
 bench/pcapstat.py: from the packets of a capture to the entries the reassemblers work on,
 and the identity that accounts for every captured byte.
 */
module Capture {
  import opened Bytes
  import opened Dechunk
  import opened DechunkSound
  import opened DechunkComplete

  const MCTP_HEADER := 4
  const MCTP_FRAMING := MCTP_HEADER + 1
  const TYPE_SPDM: byte := 5
  const TYPE_SECURED: byte := 6

  /** A link type this tool frames, or another. */
  datatype Link = Mctp | OtherLink

  /** A packet is the bytes captured of it; the file reader lists none that is cut short.
      `spdm_bytes`, if the packet holds an SPDM or a secured message. */
  function SpdmBytes(l: Link, p: seq<byte>): (n: Option<nat>)
    ensures n.Some? ==> n.value == |p| - MCTP_FRAMING >= 4
  {
    if l == OtherLink || |p| < MCTP_FRAMING + 4 then None
    else if p[MCTP_HEADER] == TYPE_SECURED || p[MCTP_HEADER] == TYPE_SPDM then Some(|p| - MCTP_FRAMING)
    else None
  }

  function EntryOf(l: Link, index: nat, p: seq<byte>): Entry {
    match SpdmBytes(l, p)
    case None => Unread(index + 1, 0)
    case Some(n) =>
      if p[MCTP_HEADER] == TYPE_SECURED then Unread(index + 1, n)
      else Spdm(index + 1, p[MCTP_FRAMING..], [])
  }

  function Entries(l: Link, ps: seq<seq<byte>>): (es: seq<Entry>)
    ensures |es| == |ps| && forall i :: 0 <= i < |es| ==> es[i] == EntryOf(l, i, ps[i])
  {
    if ps == [] then [] else Entries(l, ps[..|ps| - 1]) + [EntryOf(l, |ps| - 1, ps[|ps| - 1])]
  }

  /** The packet loop of `messages`. */
  method Messages(l: Link, packets: seq<seq<byte>>) returns (out: seq<Entry>)
    ensures out == Entries(l, packets)
    ensures |out| == |packets|
    ensures forall i :: 0 <= i < |packets| ==>
              var p := packets[i];
              out[i] == if l == Mctp && |p| >= 9 && p[4] == 5 then Spdm(i + 1, p[5..], [])
                        else Unread(i + 1, if l == Mctp && |p| >= 9 && p[4] == 6 then |p| - 5 else 0)
  {
    hide Entries;
    out := [];
    for i := 0 to |packets|
      invariant |out| == i && forall k :: 0 <= k < i ==> out[k] == EntryOf(l, k, packets[k])
    {
      var body := packets[i];
      if l == OtherLink || |body| < MCTP_FRAMING + 4 {
        out := out + [Unread(i + 1, 0)];
        continue;
      }
      var mtype, spdm := body[MCTP_HEADER], body[MCTP_FRAMING..];
      if mtype == TYPE_SECURED {
        out := out + [Unread(i + 1, |spdm|)];
      } else if mtype != TYPE_SPDM {
        out := out + [Unread(i + 1, 0)];
      } else {
        out := out + [Spdm(i + 1, spdm, [])];
      }
    }
  }

  // ---- what the reassemblers may rely on --------------------------------------------------

  lemma {:induction false} FreshTail(es: seq<Entry>)
    requires forall i :: 0 <= i < |es| && es[i].Spdm? ==> es[i].from == []
    ensures OffTheWire(es)
  {
    if es != [] {
      FreshTail(es[1..]);
    }
  }

  /** Every capture is what `dechunk` and the walk expect: numbered from 1, nothing rebuilt. */
  lemma {:induction false} CapturesAreFresh(l: Link, ps: seq<seq<byte>>)
    ensures Captured(Entries(l, ps)) && OffTheWire(Entries(l, ps))
  {
    FreshTail(Entries(l, ps));
  }

  // ---- every byte accounted for -------------------------------------------------------------

  function CapturedTotal(ps: seq<seq<byte>>): nat {
    if ps == [] then 0 else CapturedTotal(ps[..|ps| - 1]) + |ps[|ps| - 1]|
  }

  function Parsed(l: Link, ps: seq<seq<byte>>): nat {
    if ps == [] then 0
    else Parsed(l, ps[..|ps| - 1]) + if SpdmBytes(l, ps[|ps| - 1]).Some? then 1 else 0
  }

  function UnparsedTotal(l: Link, ps: seq<seq<byte>>): nat {
    if ps == [] then 0
    else UnparsedTotal(l, ps[..|ps| - 1]) + if SpdmBytes(l, ps[|ps| - 1]).Some? then 0 else |ps[|ps| - 1]|
  }

  /** `framing_accounts_for_the_difference`, on a framed link: it never fails. */
  lemma {:induction false} FramingAccounts(l: Link, ps: seq<seq<byte>>)
    ensures CapturedTotal(ps) == TotalBytes(Entries(l, ps)) + MCTP_FRAMING * Parsed(l, ps) + UnparsedTotal(l, ps)
  {
    hide SpdmBytes, Entries;
    if ps == [] {
      assert Entries(l, ps) == [];
    } else {
      var n := |ps| - 1;
      var es := Entries(l, ps);
      FramingAccounts(l, ps[..n]);
      assert es[..n] == Entries(l, ps[..n]);
      LastPacket(l, n, ps[n]);
    }
  }

  lemma {:induction false} LastPacket(l: Link, index: nat, p: seq<byte>)
    ensures SpdmBytes(l, p).Some? ==> EntryOf(l, index, p).Size() + MCTP_FRAMING == |p|
    ensures SpdmBytes(l, p).None? ==> EntryOf(l, index, p).Size() == 0
  {
  }

  /** From the file to the logical view: the logical bytes are the captured ones, less the
      framing, less what is not SPDM, less the CHUNK_RESPONSEs, plus the messages recovered
      from them. */
  lemma {:induction false} EveryByteIsAccountedFor(ps: seq<seq<byte>>)
    requires Reassembled(Entries(Mctp, ps)).Some?
    ensures var es := Entries(Mctp, ps);
            TotalBytes(Reassembled(es).value.logical) + ChunkBytes(es) + MCTP_FRAMING * Parsed(Mctp, ps)
              + UnparsedTotal(Mctp, ps) == CapturedTotal(ps) + Reassembled(es).value.bytesRecovered
  {
    hide Entries, CapturedTotal, Parsed, UnparsedTotal, TotalBytes, ChunkBytes, Reassembled;
    FramingAccounts(Mctp, ps);
    CapturesAreFresh(Mctp, ps);
    BytesBalance(Entries(Mctp, ps));
  }
}
