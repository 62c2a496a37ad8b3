/**
 What `dechunk` guarantees on an arbitrary capture: every message it rebuilds is the
 content of one complete chunk sequence of that capture, no chunk is used twice,
 everything else is passed through, and the byte totals balance.
 */
module DechunkSound {
  import opened Bytes
  import opened Dechunk

  /** A capture straight from `messages`: numbered from 1, nothing rebuilt yet. */
  ghost predicate Captured(es: seq<Entry>) {
    forall k :: 0 <= k < |es| ==> es[k].packet == k + 1 && (es[k].Spdm? ==> es[k].from == [])
  }

  /** The packets are CHUNK_RESPONSE entries among the first `k`. */
  ghost predicate Drawn(es: seq<Entry>, k: nat, packets: seq<nat>)
    requires k <= |es|
  {
    forall i :: 0 <= i < |packets| ==> 1 <= packets[i] <= k && es[packets[i] - 1].Has(CHUNK_RESPONSE)
  }

  ghost function Pick(es: seq<Entry>, packets: seq<nat>): (chunks: seq<seq<byte>>)
    requires Drawn(es, |es|, packets)
    ensures |chunks| == |packets|
  {
    seq(|packets|, i requires 0 <= i < |packets| => es[packets[i] - 1].msg)
  }

  ghost function Lengths(chunks: seq<seq<byte>>): seq<nat> {
    seq(|chunks|, i requires 0 <= i < |chunks| => |chunks[i]|)
  }

  ghost predicate Increasing(packets: seq<nat>) {
    forall i, j :: 0 <= i < j < |packets| ==> packets[i] < packets[j]
  }

  /** The chunks a sequence holds, complete or not, are numbered from 0 under its handle,
      and its data, declared total and wire cost are theirs. */
  ghost predicate Holds(es: seq<Entry>, k: nat, o: Open)
    requires k <= |es|
  {
    && Drawn(es, k, o.packets)
    && var chunks := Pick(es, o.packets);
       && Numbered(chunks, o.handle)
       && o.data == Concat(Payloads(chunks))
       && o.declared == LargeTotal(chunks[0])
       && o.next == |chunks|
       && o.wire == Sum(Lengths(chunks))
  }

  ghost predicate Unfinished(es: seq<Entry>, o: Open)
    requires Drawn(es, |es|, o.packets)
  {
    forall i :: 0 <= i < |o.packets| ==> !LastChunk(Pick(es, o.packets)[i])
  }

  ghost predicate RecordSound(es: seq<Entry>, k: nat, r: Record)
    requires k <= |es|
  {
    && Holds(es, k, r.chunks)
    && (r.why.None? ==> Complete(Pick(es, r.chunks.packets), r.chunks.data) && |r.chunks.data| >= 2)
  }

  // ---- the views of a list of entries and of the report ---------------------------

  ghost function Other(es: seq<Entry>): seq<Entry> {
    if es == [] then [] else
      var e := es[|es| - 1];
      Other(es[..|es| - 1]) + if e.Has(CHUNK_RESPONSE) then [] else [e]
  }

  ghost predicate IsRebuilt(e: Entry) { e.Spdm? && e.from != [] }

  ghost function Passed(es: seq<Entry>): seq<Entry> {
    if es == [] then [] else
      var e := es[|es| - 1];
      Passed(es[..|es| - 1]) + if IsRebuilt(e) then [] else [e]
  }

  ghost function Rebuilt(es: seq<Entry>): seq<Entry> {
    if es == [] then [] else
      var e := es[|es| - 1];
      Rebuilt(es[..|es| - 1]) + if IsRebuilt(e) then [e] else []
  }

  ghost function Carried(rs: seq<Record>): seq<Entry> {
    if rs == [] then [] else
      var r := rs[|rs| - 1];
      Carried(rs[..|rs| - 1]) + if r.why.None? && |r.chunks.data| >= 2
        then [Spdm(r.chunks.packets[0], r.chunks.data, r.chunks.packets)] else []
  }

  ghost function AllPackets(rs: seq<Record>): seq<nat> {
    if rs == [] then [] else AllPackets(rs[..|rs| - 1]) + rs[|rs| - 1].chunks.packets
  }

  ghost function Used(st: State): seq<nat> {
    AllPackets(st.sequences) + if st.open.Some? then st.open.value.packets else []
  }

  /** `spdm_bytes_total` over a list of entries. */
  ghost function TotalBytes(es: seq<Entry>): nat {
    if es == [] then 0 else TotalBytes(es[..|es| - 1]) + es[|es| - 1].Size()
  }

  ghost function ChunkBytes(es: seq<Entry>): nat {
    if es == [] then 0 else
      var e := es[|es| - 1];
      ChunkBytes(es[..|es| - 1]) + if e.Has(CHUNK_RESPONSE) then e.Size() else 0
  }

  // ---- the invariant ------------------------------------------------------------

  /** Where the report's sequences and the open one came from. */
  ghost predicate Structure(es: seq<Entry>, k: nat, st: State)
    requires k <= |es|
  {
    && (st.open.Some? ==> Holds(es, k, st.open.value))
    && (forall i :: 0 <= i < |st.sequences| ==> RecordSound(es, k, st.sequences[i]))
    && Increasing(Used(st)) && Drawn(es, k, Used(st))
  }

  ghost predicate Good(es: seq<Entry>, k: nat, st: State)
    requires k <= |es|
  {
    Structure(es, k, st) && (st.open.Some? ==> Unfinished(es, st.open.value))
  }

  ghost predicate KeepsGood(es: seq<Entry>, k: nat, r: Option<State>)
    requires k <= |es|
  {
    r.Some? ==> Good(es, k, r.value)
  }

  /** How the logical view and the byte totals follow from them. */
  ghost predicate Views(seen: seq<Entry>, st: State) {
    && Passed(st.logical) == Other(seen)
    && Rebuilt(st.logical) == Carried(st.sequences)
    && st.recovered == |Carried(st.sequences)|
    && st.bytesRecovered == TotalBytes(Carried(st.sequences))
    && TotalBytes(st.logical) + ChunkBytes(seen) == TotalBytes(seen) + st.bytesRecovered
  }

  lemma {:induction false} FailSound(es: seq<Entry>, k: nat, st: State, why: Why)
    requires k <= |es| && st.open.Some? && Structure(es, k, st)
    ensures Structure(es, k, Fail(st, why))
  {
    assert (st.sequences + [Record(st.open.value, Some(why))])[..|st.sequences|] == st.sequences;
    assert Used(Fail(st, why)) == Used(st);
  }

  lemma {:induction false} SucceedSound(es: seq<Entry>, k: nat, st: State)
    requires k <= |es| && st.open.Some? && Structure(es, k, st) && Succeed(st).Some?
    requires Complete(Pick(es, st.open.value.packets), st.open.value.data)
    ensures Structure(es, k, Succeed(st).value)
  {
    assert (st.sequences + [Record(st.open.value, None)])[..|st.sequences|] == st.sequences;
    assert Used(Succeed(st).value) == Used(st);
  }

  lemma {:induction false} ConcatOne(chunks: seq<seq<byte>>, m: seq<byte>)
    ensures Concat(Payloads(chunks + [m])) == Concat(Payloads(chunks)) + Payload(m)
    ensures Sum(Lengths(chunks + [m])) == Sum(Lengths(chunks)) + |m|
  {
    assert Payloads(chunks + [m]) == Payloads(chunks) + [Payload(m)];
    ConcatAppend(Payloads(chunks), [Payload(m)]);
    assert Concat([Payload(m)]) == Payload(m) + Concat([]) == Payload(m);
    assert Lengths(chunks + [m]) == Lengths(chunks) + [|m|];
    SumAppend(Lengths(chunks), [|m|]);
  }

  ghost predicate Readable(e: Entry) {
    && e.Has(CHUNK_RESPONSE) && |e.msg| >= HEADER
    && |Payload(e.msg)| == ChunkSize(e.msg)
  }

  lemma {:induction false} HoldsOpened(es: seq<Entry>, k: nat)
    requires k < |es| && Readable(es[k]) && SeqNo(es[k].msg) == 0
    ensures Holds(es, k + 1, Opened(k + 1, es[k].msg))
  {
    var m := es[k].msg;
    assert Pick(es, [k + 1]) == [] + [m];
    ConcatOne([], m);
  }

  lemma {:induction false} NumberedAppend(chunks: seq<seq<byte>>, m: seq<byte>, handle: byte)
    requires Numbered(chunks, handle) && IsChunk(m, |chunks|, handle)
    ensures Numbered(chunks + [m], handle)
  {
    hide IsChunk;
  }

  lemma {:induction false} HoldsExtended(es: seq<Entry>, k: nat, o: Open)
    requires k < |es| && Holds(es, k, o) && Readable(es[k])
    requires es[k].msg[3] == o.handle && SeqNo(es[k].msg) == o.next
    ensures Holds(es, k + 1, Extended(o, k + 1, es[k].msg))
  {
    hide LE, Slice, Payload, ChunkSize, LargeTotal, Numbered;
    var m := es[k].msg;
    var chunks := Pick(es, o.packets);
    assert Pick(es, o.packets + [k + 1]) == chunks + [m];
    ConcatOne(chunks, m);
    NumberedAppend(chunks, m, o.handle);
    assert (chunks + [m])[0] == chunks[0];
  }

  lemma {:induction false} Later(es: seq<Entry>, k: nat, st: State)
    requires k < |es| && Structure(es, k, st)
    ensures Structure(es, k + 1, st)
  {
    forall i | 0 <= i < |st.sequences|
      ensures RecordSound(es, k + 1, st.sequences[i])
    {
      assert RecordSound(es, k, st.sequences[i]);
    }
  }

  lemma {:induction false} UsedExtended(es: seq<Entry>, k: nat, used: seq<nat>)
    requires k < |es| && Increasing(used) && Drawn(es, k, used) && es[k].Has(CHUNK_RESPONSE)
    ensures Increasing(used + [k + 1]) && Drawn(es, k + 1, used + [k + 1])
  {
  }

  lemma {:induction false} OpenedSound(es: seq<Entry>, k: nat, st: State)
    requires k < |es| && Structure(es, k, st) && st.open.None?
    requires Readable(es[k]) && SeqNo(es[k].msg) == 0
    ensures Structure(es, k + 1, st.(open := Some(Opened(k + 1, es[k].msg))))
  {
    Later(es, k, st);
    HoldsOpened(es, k);
    UsedExtended(es, k, Used(st));
    assert Used(st.(open := Some(Opened(k + 1, es[k].msg)))) == Used(st) + [k + 1];
  }

  lemma {:induction false} ExtendedSound(es: seq<Entry>, k: nat, st: State)
    requires k < |es| && Structure(es, k, st) && st.open.Some? && Readable(es[k])
    requires es[k].msg[3] == st.open.value.handle && SeqNo(es[k].msg) == st.open.value.next
    ensures Structure(es, k + 1, st.(open := Some(Extended(st.open.value, k + 1, es[k].msg))))
  {
    var x := Extended(st.open.value, k + 1, es[k].msg);
    Later(es, k, st);
    HoldsExtended(es, k, st.open.value);
    UsedExtended(es, k, Used(st));
    assert Used(st.(open := Some(x))) == Used(st) + [k + 1];
  }

  /** After the chunk is in: closing it keeps the structure, and a closed good sequence is
      complete because only its last chunk said so. */
  lemma {:induction false} AfterChunkSound(es: seq<Entry>, k: nat, st: State, m: Message)
    requires k <= |es| && st.open.Some? && Structure(es, k, st)
    requires var cs := Pick(es, st.open.value.packets);
             cs[|cs| - 1] == m && forall i :: 0 <= i < |cs| - 1 ==> !LastChunk(cs[i])
    ensures KeepsGood(es, k, AfterChunk(st, m))
  {
    hide LE, Slice, Payload, ChunkSize, LargeTotal, SeqNo, LastChunk;
    if LastChunk(m) {
      if |st.open.value.data| != st.open.value.declared {
        FailSound(es, k, st, WrongTotal);
      } else if Succeed(st).Some? {
        SucceedSound(es, k, st);
      }
    }
  }

  /** The structure is about the open sequence and the closed ones only. */
  lemma {:induction false} SameStructure(es: seq<Entry>, k: nat, a: State, b: State)
    requires k <= |es| && Structure(es, k, a) && a.open == b.open && a.sequences == b.sequences
    ensures Structure(es, k, b)
  {
    assert Used(a) == Used(b);
  }

  lemma {:induction false} StepRefused(es: seq<Entry>, k: nat, st: State)
    requires k < |es| && Good(es, k, st) && es[k].Spdm? && es[k].Has(CHUNK_RESPONSE) && !Readable(es[k])
    ensures KeepsGood(es, k + 1, Step(st, es[k]))
  {
    Later(es, k, st);
    var noted := st.(notes := st.notes + [ShortPayload(es[k].packet)]);
    SameStructure(es, k + 1, st, noted);
    SameStructure(es, k + 1, st, st.(notes := st.notes + [ShortHeader(es[k].packet)]));
    if st.open.Some? {
      FailSound(es, k + 1, noted, ShortChunk);
    }
    hide Structure, LE, Slice;
  }

  lemma {:induction false} PickOne(es: seq<Entry>, k: nat)
    requires k < |es| && es[k].Has(CHUNK_RESPONSE)
    ensures Drawn(es, |es|, [k + 1]) && Pick(es, [k + 1]) == [es[k].msg]
  {
  }

  lemma {:induction false} StepFirst(es: seq<Entry>, k: nat, st: State)
    requires k < |es| && Structure(es, k, st) && Readable(es[k]) && SeqNo(es[k].msg) == 0
    ensures KeepsGood(es, k + 1, ChunkStep(st, k + 1, es[k].msg))
  {
    hide LE, Slice, Numbered, RecordSound, Used, Increasing, Concat, Sum, AfterChunk;
    var m := es[k].msg;
    var begun := if st.open.Some? then Fail(st, NewSequence) else st;
    if st.open.Some? { FailSound(es, k, st, NewSequence); }
    OpenedSound(es, k, begun);
    PickOne(es, k);
    AfterChunkSound(es, k + 1, begun.(open := Some(Opened(k + 1, m))), m);
  }

  lemma {:induction false} StepNext(es: seq<Entry>, k: nat, st: State)
    requires k < |es| && Good(es, k, st)
    requires Readable(es[k]) && SeqNo(es[k].msg) != 0 && st.open.Some?
    requires es[k].msg[3] == st.open.value.handle && SeqNo(es[k].msg) == st.open.value.next
    ensures KeepsGood(es, k + 1, ChunkStep(st, k + 1, es[k].msg))
  {
    hide LE, Slice, Numbered, RecordSound, Used, Increasing, Concat, Sum, AfterChunk;
    var grown := st.(open := Some(Extended(st.open.value, k + 1, es[k].msg)));
    ExtendedSound(es, k, st);
    PickExtended(es, k, st.open.value.packets);
    AfterChunkSound(es, k + 1, grown, es[k].msg);
  }

  lemma {:induction false} PickExtended(es: seq<Entry>, k: nat, packets: seq<nat>)
    requires k < |es| && Drawn(es, |es|, packets) && es[k].Has(CHUNK_RESPONSE)
    ensures Drawn(es, |es|, packets + [k + 1])
    ensures Pick(es, packets + [k + 1]) == Pick(es, packets) + [es[k].msg]
  {
  }

  lemma {:induction false} StepReadable(es: seq<Entry>, k: nat, st: State)
    requires k < |es| && Good(es, k, st) && Readable(es[k])
    ensures KeepsGood(es, k + 1, ChunkStep(st, k + 1, es[k].msg))
  {
    var m := es[k].msg;
    Later(es, k, st);
    hide Structure, Unfinished, AfterChunk, LE, Slice;
    if SeqNo(m) == 0 {
      StepFirst(es, k, st);
    } else if st.open.None? {
      SameStructure(es, k + 1, st, ChunkStep(st, k + 1, m).value);
    } else if m[3] != st.open.value.handle {
      FailSound(es, k + 1, st, HandleChanged);
    } else if SeqNo(m) != st.open.value.next {
      FailSound(es, k + 1, st, SeqJump);
    } else {
      StepNext(es, k, st);
    }
  }

  lemma {:induction false} StepGood(es: seq<Entry>, k: nat, st: State)
    requires Captured(es) && k < |es| && Good(es, k, st)
    ensures KeepsGood(es, k + 1, Step(st, es[k]))
  {
    hide Structure, Unfinished, ChunkStep, LE, Slice;
    if !es[k].Has(CHUNK_RESPONSE) {
      Later(es, k, st);
      SameStructure(es, k + 1, st, Step(st, es[k]).value);
    } else if !Readable(es[k]) {
      StepRefused(es, k, st);
    } else {
      StepReadable(es, k, st);
    }
  }

  // ---- views --------------------------------------------------------------------

  lemma {:induction false} AppendViews(es: seq<Entry>, e: Entry)
    ensures Other(es + [e]) == Other(es) + if e.Has(CHUNK_RESPONSE) then [] else [e]
    ensures Passed(es + [e]) == Passed(es) + if IsRebuilt(e) then [] else [e]
    ensures Rebuilt(es + [e]) == Rebuilt(es) + if IsRebuilt(e) then [e] else []
    ensures TotalBytes(es + [e]) == TotalBytes(es) + e.Size()
    ensures ChunkBytes(es + [e]) == ChunkBytes(es) + if e.Has(CHUNK_RESPONSE) then e.Size() else 0
  {
    assert (es + [e])[..|es|] == es;
  }

  lemma {:induction false} FailViews(seen: seq<Entry>, st: State, why: Why)
    requires Views(seen, st) && st.open.Some?
    ensures Views(seen, Fail(st, why))
  {
    assert (st.sequences + [Record(st.open.value, Some(why))])[..|st.sequences|] == st.sequences;
  }

  lemma {:induction false} SucceedViews(seen: seq<Entry>, st: State)
    requires Views(seen, st) && st.open.Some? && Succeed(st).Some?
    ensures Views(seen, Succeed(st).value)
  {
    var o := st.open.value;
    var e := Spdm(o.packets[0], o.data, o.packets);
    CarriedOne(st.sequences, o);
    AppendViews(st.logical, e);
    AppendViews(Carried(st.sequences), e);
  }

  lemma {:induction false} CarriedOne(rs: seq<Record>, o: Open)
    requires |o.data| >= 2
    ensures Carried(rs + [Record(o, None)]) == Carried(rs) + [Spdm(o.packets[0], o.data, o.packets)]
  {
    assert (rs + [Record(o, None)])[..|rs|] == rs;
  }

  lemma {:induction false} AfterChunkViews(seen: seq<Entry>, st: State, m: Message)
    requires Views(seen, st) && st.open.Some?
    ensures AfterChunk(st, m).Some? ==> Views(seen, AfterChunk(st, m).value)
  {
    if LastChunk(m) {
      if |st.open.value.data| != st.open.value.declared {
        FailViews(seen, st, WrongTotal);
      } else if Succeed(st).Some? {
        SucceedViews(seen, st);
      }
    }
  }

  /** A CHUNK_RESPONSE seen and not yet acted on adds the same bytes on both sides. */
  lemma {:induction false} ChunkSeen(seen: seq<Entry>, st: State, e: Entry)
    requires Views(seen, st) && e.Has(CHUNK_RESPONSE)
    ensures Views(seen + [e], st)
  {
    AppendViews(seen, e);
  }

  lemma {:induction false} PassViews(seen: seq<Entry>, st: State, e: Entry)
    requires Views(seen, st) && !IsRebuilt(e) && !e.Has(CHUNK_RESPONSE)
    ensures Views(seen + [e], Pass(st, e))
  {
    AppendViews(seen, e);
    AppendViews(st.logical, e);
  }

  lemma {:induction false} StepViews(seen: seq<Entry>, st: State, e: Entry)
    requires Views(seen, st) && !IsRebuilt(e)
    ensures Step(st, e).Some? ==> Views(seen + [e], Step(st, e).value)
  {
    if !e.Has(CHUNK_RESPONSE) {
      PassViews(seen, st, e);
    } else {
      ChunkSeen(seen, st, e);
      ChunkViews(seen + [e], st, e.packet, e.msg);
    }
  }

  lemma {:induction false} ChunkViews(seen: seq<Entry>, st: State, packet: nat, m: Message)
    requires Views(seen, st)
    ensures ChunkStep(st, packet, m).Some? ==> Views(seen, ChunkStep(st, packet, m).value)
  {
    hide Passed, Other, Rebuilt, Carried, TotalBytes, ChunkBytes, AfterChunk, LE, Slice;
    if |m| < HEADER {
    } else if |Payload(m)| != ChunkSize(m) {
      if st.open.Some? { FailViews(seen, st.(notes := st.notes + [ShortPayload(packet)]), ShortChunk); }
    } else if SeqNo(m) == 0 {
      if st.open.Some? { FailViews(seen, st, NewSequence); }
      var begun := if st.open.Some? then Fail(st, NewSequence) else st;
      AfterChunkViews(seen, begun.(open := Some(Opened(packet, m))), m);
    } else if st.open.Some? {
      if m[3] != st.open.value.handle {
        FailViews(seen, st, HandleChanged);
      } else if SeqNo(m) != st.open.value.next {
        FailViews(seen, st, SeqJump);
      } else {
        AfterChunkViews(seen, st.(open := Some(Extended(st.open.value, packet, m))), m);
      }
    }
  }

  lemma {:induction false} RunSound(es: seq<Entry>, k: nat, st: State)
    requires Captured(es) && k <= |es|
    requires Good(es, k, st) && Views(es[..k], st)
    ensures var r := Run(st, es[k..]); r.Some? ==> Structure(es, |es|, r.value) && Views(es, r.value)
    decreases |es| - k
  {
    hide Structure, Views, Unfinished, Step;
    if k == |es| {
      assert es[..k] == es;
    } else {
      assert es[k..][0] == es[k] && es[k..][1..] == es[k + 1..];
      var next := Step(st, es[k]);
      if next.Some? {
        StepGood(es, k, st);
        StepViews(es[..k], st, es[k]);
        assert es[..k] + [es[k]] == es[..k + 1];
        RunSound(es, k + 1, next.value);
      }
    }
  }

  // ---- the results --------------------------------------------------------------

  lemma {:induction false} StartSound(es: seq<Entry>)
    ensures Good(es, 0, START) && Views(es[..0], START)
  {
  }

  lemma {:induction false} DechunkedSound(es: seq<Entry>)
    requires Captured(es)
    ensures var r := Reassembled(es); r.Some? ==> Structure(es, |es|, r.value) && Views(es, r.value)
  {
    StartSound(es);
    hide Structure, Views, Run, START;
    assert es[0..] == es;
    RunSound(es, 0, START);
    var r := Run(START, es);
    if r.Some? && r.value.open.Some? {
      FailSound(es, |es|, r.value, NeverFinished);
      FailViews(es, r.value, NeverFinished);
    }
  }

  /** Every message in the logical view that is not in the capture itself is the content of
      a complete chunk sequence: the named packets are CHUNK_RESPONSEs of the capture, in
      capture order, and they carry that message. */
  lemma {:induction false} EveryRebuiltMessageWasSent(es: seq<Entry>, e: Entry)
    requires Captured(es) && Reassembled(es).Some?
    requires e in Reassembled(es).value.logical && IsRebuilt(e)
    ensures Drawn(es, |es|, e.from) && Increasing(e.from) && e.packet == e.from[0]
    ensures Complete(Pick(es, e.from), e.msg)
  {
    var st := Reassembled(es).value;
    DechunkedSound(es);
    RebuiltIn(st.logical, e);
    var i := CarriedFrom(st.sequences, e);
    assert RecordSound(es, |es|, st.sequences[i]);
    PacketsIncreasing(st.sequences, i, Used(st));
  }

  lemma {:induction false} RebuiltIn(es: seq<Entry>, e: Entry)
    requires e in es && IsRebuilt(e)
    ensures e in Rebuilt(es)
  {
    if e in es[..|es| - 1] {
      RebuiltIn(es[..|es| - 1], e);
    }
  }

  lemma {:induction false} CarriedFrom(rs: seq<Record>, e: Entry) returns (i: nat)
    requires e in Carried(rs)
    ensures i < |rs| && rs[i].why.None? && |rs[i].chunks.data| >= 2
    ensures e == Spdm(rs[i].chunks.packets[0], rs[i].chunks.data, rs[i].chunks.packets)
  {
    if e in Carried(rs[..|rs| - 1]) {
      i := CarriedFrom(rs[..|rs| - 1], e);
    } else {
      i := |rs| - 1;
    }
  }

  lemma {:induction false} PacketsIncreasing(rs: seq<Record>, i: nat, used: seq<nat>)
    requires i < |rs| && AllPackets(rs) <= used && Increasing(used)
    ensures Increasing(rs[i].chunks.packets)
  {
    var before := AllPackets(rs[..|rs| - 1]);
    if i < |rs| - 1 {
      PacketsIncreasing(rs[..|rs| - 1], i, used);
    } else {
      var ps := rs[i].chunks.packets;
      forall a, b | 0 <= a < b < |ps|
        ensures ps[a] < ps[b]
      {
        assert used[|before| + a] == AllPackets(rs)[|before| + a] == ps[a];
        assert used[|before| + b] == AllPackets(rs)[|before| + b] == ps[b];
      }
    }
  }

  /** No packet is in two sequences of the report, complete or not. */
  lemma {:induction false} NoChunkUsedTwice(es: seq<Entry>, i: nat, j: nat)
    requires Captured(es) && Reassembled(es).Some?
    requires i < j < |Reassembled(es).value.sequences|
    ensures var rs := Reassembled(es).value.sequences;
            forall p :: !(p in rs[i].chunks.packets && p in rs[j].chunks.packets)
  {
    DechunkedSound(es);
    var st := Reassembled(es).value;
    Apart(st.sequences, i, j, Used(st));
  }

  lemma {:induction false} Apart(rs: seq<Record>, i: nat, j: nat, used: seq<nat>)
    requires i < j < |rs| && AllPackets(rs) <= used && Increasing(used)
    ensures forall p :: !(p in rs[i].chunks.packets && p in rs[j].chunks.packets)
  {
    var front := rs[..|rs| - 1];
    if j < |rs| - 1 {
      Apart(front, i, j, used);
    } else {
      var before := AllPackets(front);
      var last := rs[j].chunks.packets;
      forall a, b | 0 <= a < |before| && 0 <= b < |last|
        ensures before[a] < last[b]
      {
        assert used[a] == before[a] && used[|before| + b] == AllPackets(rs)[|before| + b] == last[b];
      }
      forall p | p in rs[i].chunks.packets
        ensures p in before
      {
        PacketsIn(front, i, p);
      }
    }
  }

  lemma {:induction false} PacketsIn(rs: seq<Record>, i: nat, p: nat)
    requires i < |rs| && p in rs[i].chunks.packets
    ensures p in AllPackets(rs)
  {
    if i < |rs| - 1 {
      PacketsIn(rs[..|rs| - 1], i, p);
    }
  }

  /** Bytes and messages balance: what is not a CHUNK_RESPONSE is passed through unchanged
      and in order, and the logical bytes are the wire bytes with every CHUNK_RESPONSE
      replaced by the messages recovered. */
  lemma {:induction false} BytesBalance(es: seq<Entry>)
    requires Captured(es) && Reassembled(es).Some?
    ensures var r := Reassembled(es).value;
            && Passed(r.logical) == Other(es)
            && TotalBytes(r.logical) == TotalBytes(es) - ChunkBytes(es) + r.bytesRecovered
            && r.bytesRecovered == TotalBytes(Rebuilt(r.logical)) && r.recovered == |Rebuilt(r.logical)|
  {
    DechunkedSound(es);
  }
}
