/**
 harness/tamper_proxy.py: the proxy between the two emulators. It reads frames from two TCP
 streams, learns from what goes past, and changes at most one bit of one message.
 */
module Proxy {
  import opened Bytes
  import opened Measurements

  const FRAME_HEADER := 12
  const COMMAND_NORMAL := 0x0001
  const TYPE_SPDM: byte := 0x05
  const ALGORITHMS: byte := 0x63
  const GET_MEASUREMENTS: byte := 0xE0
  const MEASUREMENTS: byte := 0x60

  // ---- framing ----------------------------------------------------------------------

  datatype Frame = Frame(command: nat, transport: nat, payload: seq<byte>)
  {
    /** `Frame.encode` */
    function Encode(): (e: seq<byte>)
      ensures |e| == FRAME_HEADER + |payload|
    {
      ToBE(command, 4) + ToBE(transport, 4) + ToBE(|payload|, 4) + payload
    }

    /** `Frame.spdm`: the SPDM message inside, if the frame carries a readable one. */
    function Spdm(): (msg: Option<seq<byte>>)
      ensures msg.Some? ==> |msg.value| >= 4 && payload == [TYPE_SPDM] + msg.value
    {
      if command != COMMAND_NORMAL || |payload| < 5 || payload[0] != TYPE_SPDM then None else Some(payload[1..])
    }
  }

  /** A message is found exactly in a frame of the normal command that carries type 5 and at least
      four bytes, and then it is those bytes. */
  lemma {:induction false} SpdmExactly(f: Frame, msg: seq<byte>)
    ensures f.Spdm() == Some(msg) <==> f.command == 1 && |msg| >= 4 && f.payload == [5] + msg
  {
    if f.Spdm() == Some(msg) {
      assert f.payload == [f.payload[0]] + f.payload[1..];
    }
  }

  /** The frame at the front of a stream, if all of it is there. */
  function FrameAt(data: seq<byte>): (f: Option<Frame>)
    ensures f.Some? ==> FRAME_HEADER + |f.value.payload| <= |data|
  {
    if |data| < FRAME_HEADER then None
    else
      var size := BE(data[8..12]);
      if |data| < FRAME_HEADER + size then None
      else Some(Frame(BE(data[0..4]), BE(data[4..8]), data[12..12 + size]))
  }

  lemma {:induction false} EncodeUndoesRead(data: seq<byte>)
    requires FrameAt(data).Some?
    ensures FrameAt(data).value.Encode() == data[..FRAME_HEADER + |FrameAt(data).value.payload|]
  {
    hide BE, ToBE;
    ToBERoundTrip(data[0..4]);
    ToBERoundTrip(data[4..8]);
    ToBERoundTrip(data[8..12]);
    var f := FrameAt(data).value;
    assert data[..12 + |f.payload|] == data[0..4] + data[4..8] + data[8..12] + data[12..12 + |f.payload|];
  }

  lemma {:induction false} ReadUndoesEncode(f: Frame, rest: seq<byte>)
    requires f.command < 0x1_0000_0000 && f.transport < 0x1_0000_0000 && |f.payload| < 0x1_0000_0000
    ensures FrameAt(f.Encode() + rest) == Some(f)
  {
    hide BE, ToBE, Pow256;
    Widths();
    BERoundTrip(f.command, 4);
    BERoundTrip(f.transport, 4);
    BERoundTrip(|f.payload|, 4);
    var data := f.Encode() + rest;
    assert data[0..4] == ToBE(f.command, 4) && data[4..8] == ToBE(f.transport, 4);
    assert data[8..12] == ToBE(|f.payload|, 4) && data[12..12 + |f.payload|] == f.payload;
  }

  /** A connected socket: what its peer sent, as TCP happened to cut it up. A reset reads as
      the end of the stream, as in the source. */
  class Socket {
    var segments: seq<seq<byte>>

    ghost predicate Valid()
      reads this
    {
      forall i :: 0 <= i < |segments| ==> segments[i] != []
    }

    /** All the bytes still to come, however cut. */
    ghost function Pending(): seq<byte>
      reads this
    {
      Concat(segments)
    }

    constructor (segments: seq<seq<byte>>)
      requires forall i :: 0 <= i < |segments| ==> segments[i] != []
      ensures Valid() && Pending() == Concat(segments)
    {
      this.segments := segments;
    }

    /** `recv`: some of what has arrived, at most `n` bytes; empty only at the end. */
    method Recv(n: nat) returns (chunk: seq<byte>)
      requires Valid() && n > 0
      modifies this
      ensures Valid() && |chunk| <= n && old(Pending()) == chunk + Pending()
      ensures chunk == [] <==> old(Pending()) == []
    {
      if segments == [] {
        return [];
      }
      var first := segments[0];
      assert |first + Concat(segments[1..])| > 0;
      if |first| <= n {
        chunk, segments := first, segments[1..];
      } else {
        chunk := first[..n];
        segments := [first[n..]] + segments[1..];
        assert segments[1..] == old(segments)[1..];
        assert first == first[..n] + first[n..];
        Assoc(first[..n], first[n..], Concat(segments[1..]));
      }
    }

    /** `recv_exact`: all of `want` bytes, or what there was before the stream ended, or None
        for nothing at all; the segmentation leaves no trace. */
    method RecvExact(want: nat) returns (r: Option<seq<byte>>)
      requires Valid()
      modifies this
      ensures Valid()
      ensures var got := Min(want, |old(Pending())|);
              && r == (if got == 0 then None else Some(old(Pending())[..got]))
              && Pending() == old(Pending())[got..]
    {
      var out: seq<byte> := [];
      ghost var all := Pending();
      while |out| < want
        invariant Valid() && |out| <= want && all == out + Pending()
        decreases want - |out|
      {
        var chunk := Recv(want - |out|);
        if chunk == [] {
          break;
        }
        Assoc(out, chunk, Pending());
        out := out + chunk;
      }
      assert |out| == Min(want, |all|);
      assert all[..|out|] == out && all[|out|..] == Pending();
      if out == [] {
        return None;
      }
      r := Some(out);
    }

    /** `read_frame`: the next frame of the stream, or None if the stream ends first. */
    method ReadFrame() returns (f: Option<Frame>)
      requires Valid()
      modifies this
      ensures Valid() && f == FrameAt(old(Pending()))
      ensures f.Some? ==> Pending() == old(Pending())[FRAME_HEADER + |f.value.payload|..]
    {
      ghost var all := Pending();
      var head := RecvExact(FRAME_HEADER);
      if head.None? || |head.value| < FRAME_HEADER {
        return None;
      }
      var h := head.value;
      assert h == all[..12] && h[0..4] == all[0..4] && h[4..8] == all[4..8] && h[8..12] == all[8..12];
      var command, transport, size := BE(h[0..4]), BE(h[4..8]), BE(h[8..12]);
      var payload := [];
      if size != 0 {
        var body := RecvExact(size);
        if body.None? || |body.value| < size {
          return None;
        }
        payload := body.value;
      }
      assert payload == all[12..12 + size];
      f := Some(Frame(command, transport, payload));
    }
  }

  // ---- what the traffic teaches -------------------------------------------------------

  function U32(b: seq<byte>, off: nat): nat
    requires off + 4 <= |b|
  {
    LE(b[off..off + 4])
  }

  /** The size in bytes of the signature BaseAsymSel selects. */
  function AsymBytes(sel: nat): Option<nat> {
    if sel == 0x1 || sel == 0x2 then Some(256)
    else if sel == 0x4 || sel == 0x8 then Some(384)
    else if sel == 0x10 then Some(64)
    else if sel == 0x20 || sel == 0x40 then Some(512)
    else if sel == 0x80 then Some(96)
    else if sel == 0x100 then Some(132)
    else if sel == 0x200 || sel == 0x400 then Some(64)
    else if sel == 0x800 then Some(114)
    else None
  }

  /** The signature algorithms of DSP0274's BaseAsymSel: RSA by the bits of its modulus, the others
      by the bits of a coordinate, one more for the sign in EdDSA. */
  datatype Asym = Rsa(bits: nat) | Ecdsa(bits: nat) | EdDsa(bits: nat)

  function Selected(sel: nat): Option<Asym> {
    if sel in {0x1, 0x2} then Some(Rsa(2048))
    else if sel in {0x4, 0x8} then Some(Rsa(3072))
    else if sel in {0x20, 0x40} then Some(Rsa(4096))
    else if sel in {0x10, 0x200} then Some(Ecdsa(256))
    else if sel == 0x80 then Some(Ecdsa(384))
    else if sel == 0x100 then Some(Ecdsa(521))
    else if sel == 0x400 then Some(EdDsa(255))
    else if sel == 0x800 then Some(EdDsa(448))
    else None
  }

  /** Every size in the table is that of the algorithm it is for: a number below the modulus, two
      coordinates (r and s), or a point and a scalar (RFC 8032). */
  lemma {:induction false} SignatureSizes(sel: nat)
    ensures AsymBytes(sel) == match Selected(sel)
                              case Some(Rsa(bits)) => Some(bits / 8)
                              case Some(Ecdsa(bits)) => Some(2 * ((bits + 7) / 8))
                              case Some(EdDsa(bits)) => Some(2 * ((bits + 1 + 7) / 8))
                              case None => None
  {
  }

  const NOTHING := Learned(None, None, None, 0, None, None, 0)

  function AfterAlgorithms(l: Learned, msg: seq<byte>): Learned {
    if |msg| < 36 then l.(notes := l.notes + 1)
    else
      var seen := l.(version := Some(msg[0]));
      if U16(msg, 4) != |msg| then seen.(notes := seen.notes + 1)
      else
        var read := seen.(asymSel := Some(U32(msg, 12)),
                       pqcSel := if msg[0] >= 0x14 then U32(msg, 20) else seen.pqcSel);
        match AsymBytes(U32(msg, 12))
        case None => read.(notes := read.notes + 1)
        case Some(n) => read.(signatureBytes := Some(n))
  }

  function AfterGetMeasurements(l: Learned, msg: seq<byte>): Learned
    requires |msg| >= 3
  {
    var requested := msg[2] % 2 == 1;
    var span := |msg| - (4 + if requested then NONCE + 1 else 0);
    if span == 0 || span == 8 then l.(signatureRequested := Some(requested), contextBytes := Some(span))
    else l.(signatureRequested := Some(requested), contextBytes := None, notes := l.notes + 1)
  }

  // ---- what those messages say ------------------------------------------------------------

  /** A GET_MEASUREMENTS request: with a signature asked for it carries a nonce and a slot, and
      from SPDM 1.3 on a RequesterContext. */
  datatype Request = Request(version: byte, attributes: byte, operation: byte, nonce: seq<byte>, slot: byte,
                             context: seq<byte>)
  {
    predicate Signed() { attributes % 2 == 1 }

    ghost predicate Valid() { |nonce| == NONCE && (|context| == 0 || |context| == 8) }

    function Bytes(): seq<byte> {
      [version, 0xE0, attributes, operation] + (if Signed() then nonce + [slot] else []) + context
    }
  }

  /** An ALGORITHMS response up to PqcAsymSel, and the rest. */
  datatype Algorithms = Algorithms(version: byte, param1: byte, param2: byte, selected: seq<byte>, asymSel: nat,
                                   hashSel: seq<byte>, pqcSel: nat, rest: seq<byte>)
  {
    ghost predicate Valid() {
      && |selected| == 6 && asymSel < 0x1_0000_0000 && |hashSel| == 4 && pqcSel < 0x1_0000_0000
      && 12 <= |rest| < 0x1_0000 - 24
    }

    function Bytes(): seq<byte> {
      [version, 0x63, param1, param2] + ToLE(24 + |rest|, 2) + selected + ToLE(asymSel, 4) + hashSel
        + ToLE(pqcSel, 4) + rest
    }
  }

  /** What a request leaves known of itself. */
  lemma {:induction false} RequestIsLearned(l: Learned, q: Request)
    requires q.Valid()
    ensures AfterGetMeasurements(l, q.Bytes()) ==
            l.(signatureRequested := Some(q.Signed()), contextBytes := Some(|q.context|))
  {
  }

  /** The request a message of a length that closes is. */
  function RequestOf(msg: seq<byte>): Request
    requires |msg| >= 4 && (msg[2] % 2 == 1 ==> |msg| >= 4 + NONCE + 1)
  {
    if msg[2] % 2 == 1 then
      Request(msg[0], msg[2], msg[3], msg[4..4 + NONCE], msg[4 + NONCE], msg[4 + NONCE + 1..])
    else Request(msg[0], msg[2], msg[3], seq(NONCE, _ => 0), 0, msg[4..])
  }

  /** A context span is known after a GET_MEASUREMENTS exactly when the message is a request, and
      it is the span of its context; otherwise it is forgotten with a note. */
  lemma {:induction false} ContextKnownExactly(l: Learned, msg: seq<byte>)
    requires |msg| >= 3 && msg[1] == GET_MEASUREMENTS
    ensures var r := AfterGetMeasurements(l, msg);
            && (r.contextBytes.Some? <==> exists q: Request :: q.Valid() && q.Bytes() == msg)
            && (r.contextBytes.None? <==> r.notes == l.notes + 1)
            && r == l.(signatureRequested := Some(msg[2] % 2 == 1), contextBytes := r.contextBytes, notes := r.notes)
            && l.notes <= r.notes <= l.notes + 1
  {
    if AfterGetMeasurements(l, msg).contextBytes.Some? {
      var q := RequestOf(msg);
      assert q.Valid() && q.Bytes() == msg;
    }
    if q: Request :| q.Valid() && q.Bytes() == msg {
      RequestIsLearned(l, q);
    }
  }

  /** Where the fields of an ALGORITHMS response stand. */
  lemma {:induction false} AlgorithmsLayout(a: seq<byte>, b: seq<byte>, c: seq<byte>, d: seq<byte>, e: seq<byte>,
                                            f: seq<byte>, g: seq<byte>)
    requires |a| == 4 && |b| == 2 && |c| == 6 && |d| == 4 && |e| == 4 && |f| == 4
    ensures var m := a + b + c + d + e + f + g;
            && |m| == 24 + |g| && m[..4] == a && m[4..6] == b && m[6..12] == c && m[12..16] == d && m[16..20] == e
            && m[20..24] == f && m[24..] == g
  {
  }

  /** What a well-formed response with a known signature algorithm teaches. */
  lemma {:induction false} AlgorithmsAreLearned(l: Learned, a: Algorithms)
    requires a.Valid()
    ensures var r := AfterAlgorithms(l, a.Bytes());
            && |a.Bytes()| == 24 + |a.rest|
            && r.version == Some(a.version) && r.asymSel == Some(a.asymSel)
            && r.pqcSel == (if a.version >= 0x14 then a.pqcSel else l.pqcSel)
            && r.signatureBytes == (if AsymBytes(a.asymSel).Some? then AsymBytes(a.asymSel) else l.signatureBytes)
            && r.contextBytes == l.contextBytes && r.signatureRequested == l.signatureRequested
            && r.notes == l.notes + if AsymBytes(a.asymSel).Some? then 0 else 1
  {
    hide LE, ToLE, Pow256;
    Widths();
    LERoundTrip(24 + |a.rest|, 2);
    LERoundTrip(a.asymSel, 4);
    LERoundTrip(a.pqcSel, 4);
    var head: seq<byte> := [a.version, ALGORITHMS, a.param1, a.param2];
    AlgorithmsLayout(head, ToLE(24 + |a.rest|, 2), a.selected, ToLE(a.asymSel, 4), a.hashSel,
                     ToLE(a.pqcSel, 4), a.rest);
    var m := a.Bytes();
    assert m[0] == m[..4][0] == a.version;
    PairIsLE(m, 4);
  }

  lemma {:induction false} PairIsLE(b: seq<byte>, off: nat)
    requires off + 2 <= |b|
    ensures U16(b, off) == LE(b[off..off + 2])
  {
    var s := b[off..off + 2];
    assert LE(s) == s[0] + 256 * LE(s[1..]) && LE(s[1..]) == s[1] + 256 * LE(s[1..][1..]);
  }

  /** A response is taken without a note exactly when it is well-formed and names a signature
      algorithm the proxy knows; otherwise there is one note and the signature size known before
      stays. */
  lemma {:induction false} AlgorithmsKnownExactly(l: Learned, msg: seq<byte>)
    requires |msg| >= 2 && msg[1] == ALGORITHMS
    ensures var r := AfterAlgorithms(l, msg);
            && (r.notes == l.notes <==>
                exists a: Algorithms :: a.Valid() && a.Bytes() == msg && AsymBytes(a.asymSel).Some?)
            && (r.notes != l.notes ==> r.notes == l.notes + 1 && r.signatureBytes == l.signatureBytes)
  {
    hide LE, ToLE, Pow256, AsymBytes;
    if AfterAlgorithms(l, msg).notes == l.notes {
      var a := AlgorithmsOf(msg);
    }
    if a: Algorithms :| a.Valid() && a.Bytes() == msg && AsymBytes(a.asymSel).Some? {
      AlgorithmsAreLearned(l, a);
    }
  }

  lemma {:induction false} AlgorithmsOf(msg: seq<byte>) returns (a: Algorithms)
    requires |msg| >= 36 && msg[1] == ALGORITHMS && U16(msg, 4) == |msg|
    ensures a.Valid() && a.Bytes() == msg && a.asymSel == U32(msg, 12)
  {
    hide LE, ToLE, Pow256;
    a := Algorithms(msg[0], msg[2], msg[3], msg[6..12], U32(msg, 12), msg[16..20], U32(msg, 20), msg[24..]);
    Widths();
    ToLERoundTrip(msg[4..6]);
    ToLERoundTrip(msg[12..16]);
    ToLERoundTrip(msg[20..24]);
    PairIsLE(msg, 4);
    var parts := [msg[0], ALGORITHMS, msg[2], msg[3]];
    assert msg == parts + msg[4..6] + msg[6..12] + msg[12..16] + msg[16..20] + msg[20..24] + msg[24..];
  }

  /** The same of any message, as the methods that observe it promise it. */
  lemma {:induction false} RequestMeans(l: Learned, msg: seq<byte>)
    requires |msg| >= 3
    ensures forall q: Request :: q.Valid() && q.Bytes() == msg ==>
              && AfterGetMeasurements(l, msg).signatureRequested == Some(q.Signed())
              && AfterGetMeasurements(l, msg).contextBytes == Some(|q.context|)
    ensures msg[1] == GET_MEASUREMENTS ==>
              (AfterGetMeasurements(l, msg).contextBytes.Some? <==> exists q: Request :: q.Valid() && q.Bytes() == msg)
  {
    hide AfterGetMeasurements;
    forall q: Request | q.Valid() && q.Bytes() == msg
      ensures AfterGetMeasurements(l, msg) ==
              l.(signatureRequested := Some(q.Signed()), contextBytes := Some(|q.context|))
    {
      RequestIsLearned(l, q);
    }
    if msg[1] == GET_MEASUREMENTS {
      ContextKnownExactly(l, msg);
    }
  }

  lemma {:induction false} AlgorithmsMean(l: Learned, msg: seq<byte>)
    ensures forall a: Algorithms :: a.Valid() && a.Bytes() == msg ==>
              var r := AfterAlgorithms(l, msg);
              && r.version == Some(a.version) && r.asymSel == Some(a.asymSel)
              && (AsymBytes(a.asymSel).Some? ==> r.signatureBytes == AsymBytes(a.asymSel))
              && r.pqcSel == if a.version >= 0x14 then a.pqcSel else l.pqcSel
    ensures |msg| >= 2 && msg[1] == ALGORITHMS ==>
              (AfterAlgorithms(l, msg).notes == l.notes <==>
               exists a: Algorithms :: a.Valid() && a.Bytes() == msg && AsymBytes(a.asymSel).Some?)
  {
    hide AfterAlgorithms, AsymBytes;
    forall a: Algorithms | a.Valid() && a.Bytes() == msg
      ensures var r := AfterAlgorithms(l, msg);
              && r.version == Some(a.version) && r.asymSel == Some(a.asymSel)
              && (AsymBytes(a.asymSel).Some? ==> r.signatureBytes == AsymBytes(a.asymSel))
              && r.pqcSel == if a.version >= 0x14 then a.pqcSel else l.pqcSel
    {
      AlgorithmsAreLearned(l, a);
    }
    if |msg| >= 2 && msg[1] == ALGORITHMS {
      AlgorithmsKnownExactly(l, msg);
    }
  }

  class Conversation {
    var version: Option<byte>
    var asymSel: Option<nat>
    var signatureBytes: Option<nat>
    var pqcSel: nat
    var contextBytes: Option<nat>
    var signatureRequested: Option<bool>
    var notes: nat

    ghost function Known(): Learned
      reads this
    {
      Learned(version, asymSel, signatureBytes, pqcSel, contextBytes, signatureRequested, notes)
    }

    constructor ()
      ensures Known() == NOTHING
    {
      version, asymSel, signatureBytes, pqcSel := None, None, None, 0;
      contextBytes, signatureRequested, notes := None, None, 0;
    }

    /** `observe_algorithms` */
    method ObserveAlgorithms(msg: seq<byte>)
      modifies this
      ensures Known() == AfterAlgorithms(old(Known()), msg)
      ensures forall a: Algorithms :: a.Valid() && a.Bytes() == msg ==>
                && version == Some(a.version) && asymSel == Some(a.asymSel)
                && (AsymBytes(a.asymSel).Some? ==> signatureBytes == AsymBytes(a.asymSel))
                && pqcSel == if a.version >= 0x14 then a.pqcSel else old(pqcSel)
      ensures |msg| >= 2 && msg[1] == ALGORITHMS ==>
                (notes == old(notes) <==>
                 exists a: Algorithms :: a.Valid() && a.Bytes() == msg && AsymBytes(a.asymSel).Some?)
    {
      hide LE, ToLE, AsymBytes;
      AlgorithmsMean(Known(), msg);
      if |msg| < 36 {
        notes := notes + 1;
        return;
      }
      version := Some(msg[0]);
      var declared := U16(msg, 4);
      if declared != |msg| {
        notes := notes + 1;
        return;
      }
      asymSel := Some(U32(msg, 12));
      if msg[0] >= 0x14 {
        pqcSel := U32(msg, 20);
      }
      var named := AsymBytes(asymSel.value);
      if named.None? {
        notes := notes + 1;
        return;
      }
      signatureBytes := named;
    }

    /** `observe_get_measurements` */
    method ObserveGetMeasurements(msg: seq<byte>)
      requires |msg| >= 3
      modifies this
      ensures Known() == AfterGetMeasurements(old(Known()), msg)
      ensures forall q: Request :: q.Valid() && q.Bytes() == msg ==>
                signatureRequested == Some(q.Signed()) && contextBytes == Some(|q.context|)
      ensures msg[1] == GET_MEASUREMENTS ==>
                (contextBytes.Some? <==> exists q: Request :: q.Valid() && q.Bytes() == msg)
    {
      RequestMeans(Known(), msg);
      var requested := msg[2] % 2 == 1;
      signatureRequested := Some(requested);
      var fixed := 4 + if requested then NONCE + 1 else 0;
      var span := |msg| - fixed;
      if span == 0 || span == 8 {
        contextBytes := Some(span);
      } else {
        contextBytes := None;
        notes := notes + 1;
      }
    }
  }

  // ---- one message --------------------------------------------------------------------

  /** Everything the proxy keeps from message to message and from connection to connection. */
  datatype Watch = Watch(mode: Mode, learned: Learned, up: nat, down: nat, layout: Option<Layout>,
                         tamper: Option<Tamper>, refusals: seq<Check>)

  function RequesterStep(w: Watch, f: Frame): Watch {
    var counted := w.(up := w.up + 1);
    var msg := f.Spdm();
    if msg.Some? && msg.value[1] == GET_MEASUREMENTS
    then counted.(learned := AfterGetMeasurements(w.learned, msg.value))
    else counted
  }

  function ResponderStep(w: Watch, f: Frame): (Watch, Frame) {
    var counted := w.(down := w.down + 1);
    var msg := f.Spdm();
    if msg.None? then (counted, f)
    else if msg.value[1] == ALGORITHMS then (counted.(learned := AfterAlgorithms(w.learned, msg.value)), f)
    else if msg.value[1] != MEASUREMENTS then (counted, f)
    else
      match ParseMeasurements(msg.value, w.learned)
      case Refused(check) => (counted.(refusals := w.refusals + [check]), f)
      case Ok(layout) =>
        var parsed := counted.(layout := Some(layout));
        if w.mode.Passthrough? || w.tamper.Some? then (parsed, f)
        else
          match Target(layout, w.mode)
          case Refused(check) => (parsed.(refusals := w.refusals + [check]), f)
          case Ok(at) =>
            TargetInside(msg.value, w.learned, w.mode);
            var byte_ := msg.value[at];
            (parsed.(tamper := Some(Tamper(w.mode, at, at + 1, at + 5, byte_, FlipLow(byte_)))),
             Frame(f.command, f.transport, f.payload[..1] + Flipped(msg.value, at)))
  }

  // ---- connections --------------------------------------------------------------------

  /** One connection on `client` and `upstream`; the schedule says whose turn it is each time
      `select` returns (true for the client), and its end stands for the idle timeout. */
  function Serve(w: Watch, client: seq<byte>, upstream: seq<byte>, schedule: seq<bool>): (Watch, seq<byte>, seq<byte>)
    decreases |schedule|
  {
    if schedule == [] then (w, [], [])
    else if schedule[0] then
      match FrameAt(client)
      case None => (w, [], [])
      case Some(f) =>
        var (w', up, down) := Serve(RequesterStep(w, f), client[FRAME_HEADER + |f.payload|..], upstream, schedule[1..]);
        (w', f.Encode() + up, down)
    else
      match FrameAt(upstream)
      case None => (w, [], [])
      case Some(f) =>
        var (next, out) := ResponderStep(w, f);
        var (w', up, down) := Serve(next, client, upstream[FRAME_HEADER + |f.payload|..], schedule[1..]);
        (w', up, out.Encode() + down)
  }

  datatype Connection = Connection(client: seq<seq<byte>>, upstream: seq<seq<byte>>, schedule: seq<bool>)

  function RunAll(w: Watch, conns: seq<Connection>): (Watch, seq<(seq<byte>, seq<byte>)>)
    decreases |conns|
  {
    if conns == [] then (w, [])
    else
      var (next, up, down) := Serve(w, Concat(conns[0].client), Concat(conns[0].upstream), conns[0].schedule);
      var (w', outs) := RunAll(next, conns[1..]);
      (w', [(up, down)] + outs)
  }

  /** The report and the exit code at the end of the run: nothing to change in a passthrough, a byte
      changed, or a failure that always has a refusal to show. */
  function Finished(w: Watch): (Watch, int) {
    if w.mode.Passthrough? || w.tamper.Some? then (w, 0)
    else (w.(refusals := if w.refusals == [] then [NothingPassed] else w.refusals), 1)
  }

  class TamperProxy {
    const mode: Mode
    const conv: Conversation
    var up: nat
    var down: nat
    var layout: Option<Layout>
    var tamper: Option<Tamper>
    var refusals: seq<Check>

    ghost function State(): Watch
      reads this, conv
    {
      Watch(mode, conv.Known(), up, down, layout, tamper, refusals)
    }

    constructor (mode: Mode)
      ensures fresh(conv) && State() == Watch(mode, NOTHING, 0, 0, None, None, [])
    {
      this.mode := mode;
      conv := new Conversation();
      up, down, layout, tamper, refusals := 0, 0, None, None, [];
    }

    /** `on_requester_frame` */
    method OnRequesterFrame(frame: Frame) returns (out: Frame)
      modifies this, conv
      ensures State() == RequesterStep(old(State()), frame) && out == frame
    {
      up := up + 1;
      var msg := frame.Spdm();
      if msg.Some? && msg.value[1] == GET_MEASUREMENTS {
        conv.ObserveGetMeasurements(msg.value);
      }
      out := frame;
    }

    /** `on_responder_frame` */
    method OnResponderFrame(frame: Frame) returns (out: Frame)
      modifies this, conv
      ensures (State(), out) == ResponderStep(old(State()), frame)
    {
      hide AfterAlgorithms, ParseMeasurements, Target;
      down := down + 1;
      out := frame;
      var msg := frame.Spdm();
      if msg.None? {
        return;
      }
      if msg.value[1] == ALGORITHMS {
        conv.ObserveAlgorithms(msg.value);
        return;
      }
      if msg.value[1] != MEASUREMENTS {
        return;
      }
      var learned := Learned(conv.version, conv.asymSel, conv.signatureBytes, conv.pqcSel, conv.contextBytes,
                             conv.signatureRequested, conv.notes);
      var parsed := ParseMeasurements(msg.value, learned);
      if parsed.Refused? {
        refusals := refusals + [parsed.check];
        return;
      }
      layout := Some(parsed.value);
      if mode.Passthrough? {
        return;
      }
      if tamper.Some? {
        return;
      }
      var buf := new byte[|msg.value|](i requires 0 <= i < |msg.value| => msg.value[i]);
      assert buf[..] == msg.value;
      var done := ApplyTamper(buf, parsed.value, mode, learned);
      if done.Refused? {
        refusals := refusals + [done.check];
        return;
      }
      tamper := Some(done.value);
      out := Frame(frame.command, frame.transport, frame.payload[..1] + buf[..]);
    }

    /** `serve_one`: what reaches each side depends on the bytes of the two streams and the
        order of service, and not on how TCP segmented them. */
    method ServeOne(client: Socket, upstream: Socket, schedule: seq<bool>) returns (toUpstream: seq<byte>,
                    toClient: seq<byte>)
      requires client != upstream && client.Valid() && upstream.Valid()
      modifies this, conv, client, upstream
      ensures (State(), toUpstream, toClient)
           == Serve(old(State()), old(client.Pending()), old(upstream.Pending()), schedule)
    {
      hide RequesterStep, ResponderStep, FrameAt;
      toUpstream, toClient := [], [];
      ghost var start := State();
      ghost var all := Serve(start, client.Pending(), upstream.Pending(), schedule);
      assert schedule[0..] == schedule && [] + all.1 == all.1 && [] + all.2 == all.2;
      for i := 0 to |schedule|
        invariant client.Valid() && upstream.Valid()
        invariant var (w, up, down) := Serve(State(), client.Pending(), upstream.Pending(), schedule[i..]);
                  all == (w, toUpstream + up, toClient + down)
      {
        assert schedule[i..][0] == schedule[i] && schedule[i..][1..] == schedule[i + 1..];
        ghost var before := (toUpstream, toClient);
        if schedule[i] {
          var frame := client.ReadFrame();
          if frame.None? {
            assert toUpstream + [] == toUpstream && toClient + [] == toClient;
            return;
          }
          var out := OnRequesterFrame(frame.value);
          toUpstream := toUpstream + out.Encode();
          ghost var rest := Serve(State(), client.Pending(), upstream.Pending(), schedule[i + 1..]);
          Assoc(before.0, out.Encode(), rest.1);
        } else {
          var frame := upstream.ReadFrame();
          if frame.None? {
            assert toUpstream + [] == toUpstream && toClient + [] == toClient;
            return;
          }
          var out := OnResponderFrame(frame.value);
          toClient := toClient + out.Encode();
          ghost var rest := Serve(State(), client.Pending(), upstream.Pending(), schedule[i + 1..]);
          Assoc(before.1, out.Encode(), rest.2);
        }
      }
      assert toUpstream + [] == toUpstream && toClient + [] == toClient;
    }

    /** `run`: connections one after another; what was learned and whether the flip is spent
        outlive each of them. */
    method Run(conns: seq<Connection>) returns (outs: seq<(seq<byte>, seq<byte>)>)
      requires forall c :: c in conns ==>
        && (forall i :: 0 <= i < |c.client| ==> c.client[i] != [])
        && (forall i :: 0 <= i < |c.upstream| ==> c.upstream[i] != [])
      modifies this, conv
      ensures (State(), outs) == RunAll(old(State()), conns)
    {
      hide Serve;
      outs := [];
      ghost var all := RunAll(State(), conns);
      assert conns[0..] == conns && [] + all.1 == all.1;
      for i := 0 to |conns|
        invariant var (w, rest) := RunAll(State(), conns[i..]); all == (w, outs + rest)
      {
        assert conns[i..][0] == conns[i] && conns[i..][1..] == conns[i + 1..];
        var c := conns[i];
        assert c in conns;
        var client := new Socket(c.client);
        var upstream := new Socket(c.upstream);
        ghost var before := outs;
        var up, down := ServeOne(client, upstream, c.schedule);
        outs := outs + [(up, down)];
        Assoc(before, [(up, down)], RunAll(State(), conns[i + 1..]).1);
      }
      assert outs + [] == outs;
    }

    /** `finish`, without the file it writes. */
    method Finish() returns (code: int)
      modifies this
      ensures (State(), code) == Finished(old(State()))
    {
      if mode.Passthrough? {
        return 0;
      }
      if tamper.Some? {
        return 0;
      }
      if refusals == [] {
        refusals := refusals + [NothingPassed];
        assert refusals == [NothingPassed];
      }
      code := 1;
    }
  }
}
