/**
 `dechunk` exactly, read from the capture alone: which messages it rebuilds, and when it
 does not come back at all. Reading the code of a rebuilt message raises IndexError below
 two bytes, and the walk over the result raises it again on a CERTIFICATE of two.
 */
module DechunkFails {
  import opened Bytes
  import opened Capture
  import C = Certificates
  import opened Dechunk
  import opened DechunkComplete
  import opened DechunkSound

  /** The CHUNK_RESPONSEs long enough to be looked at. */
  function Chunks(es: seq<Entry>): seq<seq<byte>> {
    if es == [] then [] else ChunkIn(es[0]) + Chunks(es[1..])
  }

  function ChunkIn(e: Entry): (cs: seq<seq<byte>>)
    ensures |cs| <= 1
  {
    if IsLong(e) then [e.msg] else []
  }

  predicate IsLong(e: Entry) { e.Has(CHUNK_RESPONSE) && |e.msg| >= HEADER }

  /** What the chunks carry, if the last of them completes a sequence of the chunks just
      before it; its own number says how many those are. */
  ghost function CompletedLast(cs: seq<seq<byte>>): Option<seq<byte>>
    requires cs != []
  {
    var n := SeqNo(cs[|cs| - 1]) + 1;
    if n <= |cs| && Complete(cs[|cs| - n..], Concat(Payloads(cs[|cs| - n..])))
    then Some(Concat(Payloads(cs[|cs| - n..]))) else None
  }

  /** The contents of the complete sequences that stand together, in order of their ends. */
  ghost function Completed(cs: seq<seq<byte>>): seq<seq<byte>> {
    if cs == [] then []
    else Completed(cs[..|cs| - 1]) + if CompletedLast(cs).Some? then [CompletedLast(cs).value] else []
  }

  /** The messages in a list of entries that are not from the wire. */
  ghost function RebuiltMessages(es: seq<Entry>): seq<seq<byte>> {
    if es == [] then []
    else RebuiltMessages(es[..|es| - 1]) + if IsRebuilt(es[|es| - 1]) then [es[|es| - 1].msg] else []
  }

  // ---- which messages -------------------------------------------------------------

  lemma {:induction false} SuffixComplete(cs: seq<seq<byte>>, n: nat, msg: seq<byte>)
    requires 0 < n <= |cs| && Complete(cs[|cs| - n..], msg)
    ensures CompletedLast(cs) == Some(msg)
  {
    var run := cs[|cs| - n..];
    assert IsChunk(run[n - 1], n - 1, Handle(run));
    assert run[n - 1] == cs[|cs| - 1];
  }

  /** Some neighbouring chunks are a complete sequence carrying `msg`. */
  ghost predicate CarriedTogether(cs: seq<seq<byte>>, msg: seq<byte>) {
    exists a, b :: 0 <= a < b <= |cs| && Complete(cs[a..b], msg)
  }

  lemma {:induction false} SliceOfFront(cs: seq<seq<byte>>, msg: seq<byte>)
    requires cs != [] && CarriedTogether(cs, msg)
    ensures CarriedTogether(cs[..|cs| - 1], msg) || CompletedLast(cs) == Some(msg)
  {
    hide Complete, CompletedLast;
    var front := cs[..|cs| - 1];
    var a, b :| 0 <= a < b <= |cs| && Complete(cs[a..b], msg);
    if b < |cs| {
      assert front[a..b] == cs[a..b];
    } else {
      assert cs[|cs| - (b - a)..] == cs[a..b];
      SuffixComplete(cs, b - a, msg);
    }
  }

  lemma {:induction false} SliceOfMore(cs: seq<seq<byte>>, msg: seq<byte>)
    requires cs != [] && (CarriedTogether(cs[..|cs| - 1], msg) || CompletedLast(cs) == Some(msg))
    ensures CarriedTogether(cs, msg)
  {
    hide Complete, SeqNo;
    if CompletedLast(cs) == Some(msg) {
      var n := SeqNo(cs[|cs| - 1]) + 1;
      var run := cs[|cs| - n..];
      assert Complete(run, Concat(Payloads(run))) && Concat(Payloads(run)) == msg;
      assert cs[..|cs|] == cs && cs[|cs| - n..|cs|] == run;
    } else {
      var front := cs[..|cs| - 1];
      var a, b :| 0 <= a < b <= |front| && Complete(front[a..b], msg);
      assert cs[a..b] == front[a..b];
    }
  }

  /** They are the contents of the complete sequences of neighbouring chunks. */
  lemma {:induction false} CompletedAreTheSlices(cs: seq<seq<byte>>, msg: seq<byte>)
    ensures msg in Completed(cs) <==> CarriedTogether(cs, msg)
  {
    if cs != [] {
      hide CompletedLast, CarriedTogether;
      CompletedAreTheSlices(cs[..|cs| - 1], msg);
      if CarriedTogether(cs, msg) {
        SliceOfFront(cs, msg);
      } else if msg in Completed(cs) {
        SliceOfMore(cs, msg);
      }
    }
  }

  // ---- what the loop remembers --------------------------------------------------------

  /** The chunks are the beginning of a sequence whose last chunk is still to come. */
  ghost predicate Live(chunks: seq<seq<byte>>) {
    && chunks != [] && Numbered(chunks, Handle(chunks))
    && forall i :: 0 <= i < |chunks| ==> !LastChunk(chunks[i])
  }

  /** Some of the last chunks are live; the very last one's number says how many. */
  ghost predicate LiveEnd(cs: seq<seq<byte>>) {
    cs != [] && var n := SeqNo(cs[|cs| - 1]) + 1; n <= |cs| && Live(cs[|cs| - n..])
  }

  ghost predicate Describes(o: Open, chunks: seq<seq<byte>>) {
    && chunks != [] && o.handle == Handle(chunks) && o.declared == LargeTotal(chunks[0]) && o.next == |chunks|
    && o.data == Concat(Payloads(chunks))
  }

  /** A sequence is open exactly when the last chunks are live, and it is those. */
  ghost predicate Tracks(open: Option<Open>, cs: seq<seq<byte>>) {
    && (open.Some? <==> LiveEnd(cs))
    && (open.Some? ==> Describes(open.value, cs[|cs| - SeqNo(cs[|cs| - 1]) - 1..]))
  }

  /** The chunk goes with the ones before it: it opens a sequence, or is the next of the open one. */
  ghost predicate Continues(open: Option<Open>, m: seq<byte>) {
    && |m| >= HEADER && |Payload(m)| == ChunkSize(m)
    && (SeqNo(m) == 0 || (open.Some? && m[3] == open.value.handle && SeqNo(m) == open.value.next))
  }

  /** The last chunks are a numbered run with no LastChunk before the very last. */
  ghost predicate NumberedEnd(all: seq<seq<byte>>) {
    && all != []
    && var n := SeqNo(all[|all| - 1]) + 1;
       && n <= |all| && Numbered(all[|all| - n..], Handle(all[|all| - n..]))
       && forall i :: |all| - n <= i < |all| - 1 ==> !LastChunk(all[i])
  }

  /** Then the last chunks are such a run, and otherwise they are not. */
  lemma {:induction false} RunContinues(open: Option<Open>, cs: seq<seq<byte>>, m: seq<byte>)
    requires Tracks(open, cs) && |m| >= HEADER && m[1] == CHUNK_RESPONSE
    ensures Continues(open, m) <==> NumberedEnd(cs + [m])
  {
    hide LE, Slice, Payload, ChunkSize, LargeTotal, LastChunk;
    var all, n := cs + [m], SeqNo(m) + 1;
    if n <= |all| {
      var run := all[|all| - n..];
      assert run[n - 1] == m;
      if n == 1 {
        assert run == [m];
      } else {
        var before := cs[|cs| - (n - 1)..];
        assert run == before + [m] && run[0] == before[0];
        assert Handle(run) == Handle(before);
        if Continues(open, m) {
          assert open.value.next == n - 1;
          assert Live(before);
          forall i | 0 <= i < n
            ensures IsChunk(run[i], i, Handle(run))
          {
            assert i < n - 1 ==> IsChunk(before[i], i, Handle(before));
          }
          forall i | |all| - n <= i < |all| - 1
            ensures !LastChunk(all[i])
          {
            assert all[i] == before[i - (|all| - n)];
          }
        }
        if Numbered(run, Handle(run)) && forall i :: |all| - n <= i < |all| - 1 ==> !LastChunk(all[i]) {
          forall i | 0 <= i < n - 1
            ensures IsChunk(before[i], i, Handle(before)) && !LastChunk(before[i])
          {
            assert IsChunk(run[i], i, Handle(run)) && before[i] == all[|all| - n + i];
          }
          assert before[n - 2] == cs[|cs| - 1];
          assert IsChunk(before[n - 2], n - 2, Handle(before));
          assert Live(before) && LiveEnd(cs);
          assert IsChunk(run[n - 1], n - 1, Handle(run));
        }
      }
    }
  }

  /** What a chunk that goes with them is added to. */
  function Taken(st: State, packet: nat, m: Message): State
    requires |m| >= HEADER && (SeqNo(m) == 0 || st.open.Some?)
  {
    if SeqNo(m) != 0 then st.(open := Some(Extended(st.open.value, packet, m)))
    else (if st.open.Some? then Fail(st, NewSequence) else st).(open := Some(Opened(packet, m)))
  }

  lemma {:induction false} TakenDescribes(st: State, cs: seq<seq<byte>>, packet: nat, m: Message)
    requires Tracks(st.open, cs) && m[1] == CHUNK_RESPONSE && Continues(st.open, m)
    requires SeqNo(m) <= |cs|
    ensures var t := Taken(st, packet, m);
            && t.logical == st.logical && t.open.Some?
            && Describes(t.open.value, (cs + [m])[|cs| - SeqNo(m)..])
  {
    hide LE, Slice, Live;
    var n := SeqNo(m);
    var run := (cs + [m])[|cs| - n..];
    if n == 0 {
      assert run == [] + [m];
      ConcatOne([], m);
    } else {
      var before := cs[|cs| - n..];
      assert run == before + [m] && run[0] == before[0];
      ConcatOne(before, m);
    }
  }

  lemma {:induction false} TakenTracks(t: State, all: seq<seq<byte>>, m: Message)
    requires NumberedEnd(all) && all[|all| - 1] == m && t.open.Some?
    requires Describes(t.open.value, all[|all| - SeqNo(m) - 1..])
    ensures Follows(t, AfterChunk(t, m), all)
  {
    hide LE, Slice, Payload, ChunkSize, LargeTotal, SeqNo, Numbered, RebuiltMessages;
    var run := all[|all| - SeqNo(m) - 1..];
    assert run[|run| - 1] == m;
    forall i | 0 <= i < |run| - 1
      ensures !LastChunk(run[i])
    {
      assert run[i] == all[|all| - |run| + i];
    }
    if LastChunk(m) && |t.open.value.data| == t.open.value.declared && |t.open.value.data| >= 2 {
      var e := Spdm(t.open.value.packets[0], t.open.value.data, t.open.value.packets);
      RebuiltAppend(t.logical, e);
    }
  }

  lemma {:induction false} RebuiltAppend(es: seq<Entry>, e: Entry)
    ensures RebuiltMessages(es + [e]) == RebuiltMessages(es) + if IsRebuilt(e) then [e.msg] else []
  {
    assert (es + [e])[..|es|] == es;
  }

  lemma {:induction false} NoRunNoMessage(all: seq<seq<byte>>)
    requires all != [] && !NumberedEnd(all)
    ensures !LiveEnd(all) && CompletedLast(all).None?
  {
    hide LE, Slice, Payload, ChunkSize, LargeTotal, SeqNo, Numbered;
    var n := SeqNo(all[|all| - 1]) + 1;
    if n <= |all| && Numbered(all[|all| - n..], Handle(all[|all| - n..])) {
      var run := all[|all| - n..];
      var i :| |all| - n <= i < |all| - 1 && LastChunk(all[i]);
      assert run[i - (|all| - n)] == all[i];
    }
  }

  lemma {:induction false} NotContinued(st: State, cs: seq<seq<byte>>, packet: nat, m: Message)
    requires |m| >= HEADER && !Continues(st.open, m) && !NumberedEnd(cs + [m])
    ensures Follows(st, ChunkStep(st, packet, m), cs + [m])
  {
    hide LE, Slice, Payload, ChunkSize, LargeTotal, SeqNo, NumberedEnd, LiveEnd, CompletedLast, RebuiltMessages;
    NoRunNoMessage(cs + [m]);
    assert RebuiltMessages(st.logical) + [] == RebuiltMessages(st.logical);
  }

  /** From `st` the loop reached `r` with `all` seen: it failed on what was just completed, or
      it remembers what it should and has added exactly that. */
  ghost predicate Follows(st: State, r: Option<State>, all: seq<seq<byte>>)
    requires all != []
  {
    var c := CompletedLast(all);
    && (r.None? <==> c.Some? && |c.value| < 2)
    && (r.Some? ==>
          && Tracks(r.value.open, all)
          && RebuiltMessages(r.value.logical) == RebuiltMessages(st.logical) + if c.Some? then [c.value] else [])
  }

  /** What one readable chunk does: it fails, or adds exactly the message now completed. */
  lemma {:induction false} ChunkTracks(st: State, cs: seq<seq<byte>>, packet: nat, m: Message)
    requires Tracks(st.open, cs) && |m| >= HEADER && m[1] == CHUNK_RESPONSE
    ensures Follows(st, ChunkStep(st, packet, m), cs + [m])
  {
    hide LE, Slice, Payload, ChunkSize, LargeTotal, Tracks, Describes, NumberedEnd, RebuiltMessages, CompletedLast;
    RunContinues(st.open, cs, m);
    if Continues(st.open, m) {
      NumberFits(cs, m);
      TakenDescribes(st, cs, packet, m);
      TakenTracks(Taken(st, packet, m), cs + [m], m);
    } else {
      NotContinued(st, cs, packet, m);
    }
  }

  lemma {:induction false} NumberFits(cs: seq<seq<byte>>, m: seq<byte>)
    requires NumberedEnd(cs + [m])
    ensures SeqNo(m) <= |cs|
  {
  }

  // ---- the whole run --------------------------------------------------------------------

  /** Nothing in the list has been rebuilt. */
  ghost predicate Unbuilt(es: seq<Entry>) {
    forall i :: 0 <= i < |es| ==> !IsRebuilt(es[i])
  }

  /** One of the messages is too short to carry its code. */
  ghost predicate AnyTiny(msgs: seq<seq<byte>>) {
    exists i :: 0 <= i < |msgs| && |msgs[i]| < 2
  }

  lemma {:induction false} ChunksAppend(a: seq<Entry>, b: seq<Entry>)
    ensures Chunks(a + b) == Chunks(a) + Chunks(b)
  {
    hide ChunkIn;
    if a == [] {
      assert a + b == b;
    } else {
      ChunksAppend(a[1..], b);
      assert (a + b)[0] == a[0] && (a + b)[1..] == a[1..] + b;
      Assoc(ChunkIn(a[0]), Chunks(a[1..]), Chunks(b));
    }
  }

  lemma {:induction false} CompletedGrows(cs: seq<seq<byte>>, more: seq<seq<byte>>)
    ensures Completed(cs) <= Completed(cs + more)
    decreases |more|
  {
    hide CompletedLast;
    if more == [] {
      assert cs + more == cs;
    } else {
      CompletedGrows(cs, more[..|more| - 1]);
      assert (cs + more)[..|cs + more| - 1] == cs + more[..|more| - 1];
    }
  }

  /** What is true before entry `k`: nothing too short was completed, the open sequence is the
      live end, and what was rebuilt is what was completed. */
  ghost predicate Before(es: seq<Entry>, k: nat, st: State)
    requires k <= |es|
  {
    && Tracks(st.open, Chunks(es[..k])) && !AnyTiny(Completed(Chunks(es[..k])))
    && (Unbuilt(es) ==> RebuiltMessages(st.logical) == Completed(Chunks(es[..k])))
  }

  lemma {:induction false} EntryTracks(es: seq<Entry>, k: nat, st: State)
    requires k < |es| && Before(es, k, st)
    ensures var r := Step(st, es[k]);
            && (r.None? <==> AnyTiny(Completed(Chunks(es[..k + 1]))))
            && (r.Some? ==> Before(es, k + 1, r.value))
  {
    hide Step, Tracks, Completed, AnyTiny, RebuiltMessages, Chunks;
    var e, cs := es[k], Chunks(es[..k]);
    assert es[..k + 1] == es[..k] + [e];
    ChunksAppend(es[..k], [e]);
    OneEntry(e);
    if IsLong(e) {
      LongTracks(st, cs, e);
    } else {
      assert cs + [] == cs;
      OtherPasses(st, e);
    }
  }

  lemma {:induction false} OneEntry(e: Entry)
    ensures Chunks([e]) == if IsLong(e) then [e.msg] else []
  {
    assert Chunks([e]) == ChunkIn(e) + Chunks([]) == ChunkIn(e);
  }

  lemma {:induction false} LongTracks(st: State, cs: seq<seq<byte>>, e: Entry)
    requires IsLong(e) && Tracks(st.open, cs) && !AnyTiny(Completed(cs))
    ensures var r, all := Step(st, e), cs + [e.msg];
            && (r.None? <==> AnyTiny(Completed(all)))
            && (r.Some? ==>
                  && Tracks(r.value.open, all)
                  && (RebuiltMessages(st.logical) == Completed(cs) ==>
                        RebuiltMessages(r.value.logical) == Completed(all)))
  {
    hide ChunkStep, Tracks, CompletedLast, AnyTiny, RebuiltMessages;
    ChunkTracks(st, cs, e.packet, e.msg);
    assert (cs + [e.msg])[..|cs|] == cs;
    OneMore(Completed(cs), CompletedLast(cs + [e.msg]));
  }

  /** Any other entry leaves the open sequence and the rebuilt messages alone. */
  lemma {:induction false} OtherPasses(st: State, e: Entry)
    requires !IsLong(e)
    ensures var r := Step(st, e);
            && r.Some? && r.value.open == st.open
            && (!IsRebuilt(e) ==> RebuiltMessages(r.value.logical) == RebuiltMessages(st.logical))
  {
    hide RebuiltMessages;
    RebuiltAppend(st.logical, e);
    assert RebuiltMessages(st.logical) + [] == RebuiltMessages(st.logical);
  }

  lemma {:induction false} OneMore(before: seq<seq<byte>>, c: Option<seq<byte>>)
    requires !AnyTiny(before)
    ensures AnyTiny(before + if c.Some? then [c.value] else []) <==> c.Some? && |c.value| < 2
  {
    if c.Some? {
      assert (before + [c.value])[|before|] == c.value;
    } else {
      assert before + [] == before;
    }
  }

  lemma {:induction false} RunTracks(es: seq<Entry>, k: nat, st: State)
    requires k <= |es| && Before(es, k, st)
    ensures var r := Run(st, es[k..]);
            && (r.None? <==> AnyTiny(Completed(Chunks(es))))
            && (r.Some? && Unbuilt(es) ==> RebuiltMessages(r.value.logical) == Completed(Chunks(es)))
    decreases |es| - k
  {
    hide Step, Chunks, Completed, Tracks, RebuiltMessages;
    if k == |es| {
      assert es[..k] == es;
    } else {
      assert es[k..][0] == es[k] && es[k..][1..] == es[k + 1..];
      EntryTracks(es, k, st);
      var next := Step(st, es[k]);
      if next.Some? {
        RunTracks(es, k + 1, next.value);
      } else {
        assert es == es[..k + 1] + es[k + 1..];
        ChunksAppend(es[..k + 1], es[k + 1..]);
        CompletedGrows(Chunks(es[..k + 1]), Chunks(es[k + 1..]));
        var i :| 0 <= i < |Completed(Chunks(es[..k + 1]))| && |Completed(Chunks(es[..k + 1]))[i]| < 2;
        assert Completed(Chunks(es))[i] == Completed(Chunks(es[..k + 1]))[i];
      }
    }
  }

  /** `dechunk` on any list of entries. It fails exactly when neighbouring CHUNK_RESPONSEs, no
      other of 12 bytes or more between them, are a complete sequence carrying fewer than two
      bytes. Otherwise the messages it rebuilds are what the complete sequences of neighbouring
      chunks carry, in the order in which they end. */
  lemma {:induction false} DechunkExactly(es: seq<Entry>)
    ensures Reassembled(es).None? <==> exists msg :: CarriedTogether(Chunks(es), msg) && |msg| < 2
    ensures Reassembled(es).Some? && Unbuilt(es) ==>
              RebuiltMessages(Reassembled(es).value.logical) == Completed(Chunks(es))
  {
    hide CarriedTogether, Chunks, Completed, Run;
    assert Before(es, 0, START) by {
      Nothing(es);
    }
    assert es[0..] == es;
    RunTracks(es, 0, START);
    var all := Completed(Chunks(es));
    if i :| 0 <= i < |all| && |all[i]| < 2 {
      CompletedAreTheSlices(Chunks(es), all[i]);
    }
    if msg :| CarriedTogether(Chunks(es), msg) && |msg| < 2 {
      CompletedAreTheSlices(Chunks(es), msg);
    }
  }

  lemma {:induction false} Nothing(es: seq<Entry>)
    ensures Before(es, 0, START)
  {
    assert es[..0] == [];
  }

  /** What can be checked beforehand: no readable first chunk declares fewer than two bytes. */
  lemma {:induction false} DeclaredTotalsSuffice(es: seq<Entry>)
    requires forall i :: 0 <= i < |es| && Readable(es[i]) && SeqNo(es[i].msg) == 0 ==> LargeTotal(es[i].msg) >= 2
    ensures Reassembled(es).Some?
  {
    DechunkExactly(es);
    hide LE, Slice, Payload, Reassembled;
    if msg :| CarriedTogether(Chunks(es), msg) && |msg| < 2 {
      var cs := Chunks(es);
      var a, b :| 0 <= a < b <= |cs| && Complete(cs[a..b], msg);
      var run := cs[a..b];
      assert IsChunk(run[0], 0, Handle(run)) && run[0] == cs[a];
      var i := ChunksComeFrom(es, a);
    }
  }

  lemma {:induction false} ChunksComeFrom(es: seq<Entry>, a: nat) returns (i: nat)
    requires a < |Chunks(es)|
    ensures i < |es| && IsLong(es[i]) && es[i].msg == Chunks(es)[a]
  {
    if IsLong(es[0]) && a == 0 {
      i := 0;
    } else {
      i := ChunksComeFrom(es[1..], a - |ChunkIn(es[0])|);
      i := i + 1;
    }
  }

  // ---- with the walk on top ---------------------------------------------------------------

  lemma {:induction false} RebuiltAt(es: seq<Entry>, i: nat)
    requires i < |es| && IsRebuilt(es[i])
    ensures es[i].msg in RebuiltMessages(es)
  {
    if i < |es| - 1 {
      RebuiltAt(es[..|es| - 1], i);
    }
  }

  lemma {:induction false} RebuiltFrom(es: seq<Entry>, msg: seq<byte>) returns (i: nat)
    requires msg in RebuiltMessages(es)
    ensures i < |es| && IsRebuilt(es[i]) && es[i].msg == msg
  {
    if msg in RebuiltMessages(es[..|es| - 1]) {
      i := RebuiltFrom(es[..|es| - 1], msg);
    } else {
      i := |es| - 1;
    }
  }

  lemma {:induction false} PassedAt(es: seq<Entry>, i: nat)
    requires i < |es| && !IsRebuilt(es[i])
    ensures es[i] in Passed(es)
  {
    if i < |es| - 1 {
      PassedAt(es[..|es| - 1], i);
    }
  }

  lemma {:induction false} OthersAreEntries(es: seq<Entry>, e: Entry)
    requires e in Other(es)
    ensures e in es
  {
    if e in Other(es[..|es| - 1]) {
      OthersAreEntries(es[..|es| - 1], e);
    }
  }

  /** A message the walk cannot read. */
  predicate StopsWalk(msg: seq<byte>) { |msg| == 2 && msg[1] == CERTIFICATE }

  lemma {:induction false} MessagesAreLong(l: Link, ps: seq<seq<byte>>, e: Entry)
    requires e in Entries(l, ps) && e.Spdm?
    ensures |e.msg| >= 4
  {
    var k :| 0 <= k < |ps| && Entries(l, ps)[k] == e;
    assert e == EntryOf(l, k, ps[k]);
  }

  /** A packet holds no such message, so one in the logical view was rebuilt. */
  lemma {:induction false} StoppersAreRebuilt(l: Link, ps: seq<seq<byte>>, i: nat)
    requires Reassembled(Entries(l, ps)).Some?
    requires var logical := Reassembled(Entries(l, ps)).value.logical;
             i < |logical| && logical[i].Spdm? && StopsWalk(logical[i].msg)
    ensures IsRebuilt(Reassembled(Entries(l, ps)).value.logical[i])
  {
    var es := Entries(l, ps);
    var logical := Reassembled(es).value.logical;
    if !IsRebuilt(logical[i]) {
      CapturesAreFresh(l, ps);
      BytesBalance(es);
      PassedAt(logical, i);
      OthersAreEntries(es, logical[i]);
      MessagesAreLong(l, ps, logical[i]);
    }
  }

  /** The two reassemblers on a whole capture: one of them fails exactly when neighbouring
      CHUNK_RESPONSEs carry, as a complete sequence, fewer than two bytes or a CERTIFICATE of
      two. No packet is itself such a message: whatever stops the walk was rebuilt from chunks. */
  lemma {:induction false} ReportFailsExactly(l: Link, ps: seq<seq<byte>>, hashBytes: Option<nat>)
    ensures var es := Entries(l, ps);
            (Reassembled(es).None? || C.Walked(Reassembled(es).value.logical, hashBytes).None?)
              <==> exists msg :: CarriedTogether(Chunks(es), msg) && (|msg| < 2 || StopsWalk(msg))
    ensures forall e :: e in Entries(l, ps) && e.Spdm? ==> |e.msg| >= 4
    ensures Reassembled(Entries(l, ps)).Some? ==>
              forall e :: e in Reassembled(Entries(l, ps)).value.logical && e.Spdm? && StopsWalk(e.msg) ==> IsRebuilt(e)
  {
    hide Entries, Reassembled, CarriedTogether, Chunks, Completed, RebuiltMessages, C.Run;
    var es := Entries(l, ps);
    DechunkExactly(es);
    CapturesAreFresh(l, ps);
    forall e | e in es && e.Spdm?
      ensures |e.msg| >= 4
    {
      MessagesAreLong(l, ps, e);
    }
    if Reassembled(es).Some? {
      var logical := Reassembled(es).value.logical;
      C.WalkFailsExactly(C.START, logical, hashBytes);
      forall i | 0 <= i < |logical| && logical[i].Spdm? && StopsWalk(logical[i].msg)
        ensures IsRebuilt(logical[i])
      {
        StoppersAreRebuilt(l, ps, i);
      }
      if i :| 0 <= i < |logical| && logical[i].Has(CERTIFICATE) && |logical[i].msg| == 2 {
        RebuiltAt(logical, i);
        CompletedAreTheSlices(Chunks(es), logical[i].msg);
      }
      if msg :| CarriedTogether(Chunks(es), msg) && StopsWalk(msg) {
        CompletedAreTheSlices(Chunks(es), msg);
        var i := RebuiltFrom(logical, msg);
        assert logical[i].Has(CERTIFICATE) && |logical[i].msg| == 2;
      }
    }
  }

  /** A capture of one MCTP packet that is a whole chunk sequence carrying `piece`. */
  function OneChunkCapture(piece: seq<byte>): (ps: seq<seq<byte>>) {
    [[0, 0, 0, 0, TYPE_SPDM] + ChunkMessage(0, |piece|, piece, true)]
  }

  lemma {:induction false} OneChunkCarries(piece: seq<byte>)
    requires |piece| <= 2
    ensures Entries(Mctp, OneChunkCapture(piece)) == [Spdm(1, ChunkMessage(0, |piece|, piece, true), [])]
    ensures CarriedTogether(Chunks(Entries(Mctp, OneChunkCapture(piece))), piece)
  {
    var m := ChunkMessage(0, |piece|, piece, true);
    ChunkMessageFields(0, |piece|, piece, true);
    hide LE, ToLE, Slice, ChunkMessage, Payload, LargeTotal, LastChunk;
    var p := [0, 0, 0, 0, TYPE_SPDM] + m;
    assert p[MCTP_FRAMING..] == m;
    var es := Entries(Mctp, [p]);
    assert es[0] == EntryOf(Mctp, 0, p) == Spdm(1, m, []);
    assert Chunks(es) == [m] + Chunks(es[1..]) == [m];
    ConcatOne([], m);
    assert [m][0..1] == [] + [m] == [m];
    assert Complete([m][0..1], piece);
  }

  lemma {:induction false} SmallLE(n: byte)
    ensures ToLE(n, 2) == [n, 0] && ToLE(n, 4) == [n, 0, 0, 0]
  {
    assert ToLE(0, 2) == [0, 0];
    assert ToLE(0, 3) == [0] + ToLE(0, 2);
  }

  lemma {:induction false} OneChunkBytes(piece: seq<byte>)
    requires 1 <= |piece| <= 2
    ensures ChunkMessage(0, |piece|, piece, true)
         == [0x14, 6, 1, 1, 0, 0, 0, 0, |piece|, 0, 0, 0, |piece|, 0, 0, 0] + piece
  {
    hide ToLE;
    SmallLE(0);
    SmallLE(|piece|);
  }

  /** A CHUNK_RESPONSE carrying one byte, and one carrying a CERTIFICATE of two: `dechunk` does
      not come back from the first, nor the walk from the second. */
  lemma {:induction false} TwoCapturesThatFail(hashBytes: Option<nat>)
    ensures var es := [Spdm(1, [0x14, 6, 1, 1, 0, 0, 0, 0, 1, 0, 0, 0, 1, 0, 0, 0, 0x7F], [])];
            es == Entries(Mctp, OneChunkCapture([0x7F])) && Reassembled(es).None?
    ensures var es := [Spdm(1, [0x14, 6, 1, 1, 0, 0, 0, 0, 2, 0, 0, 0, 2, 0, 0, 0, 0x14, 2], [])];
            && es == Entries(Mctp, OneChunkCapture([0x14, 2]))
            && Reassembled(es).Some? && C.Walked(Reassembled(es).value.logical, hashBytes).None?
  {
    hide CarriedTogether, Chunks, Reassembled, Entries, C.Walked, ChunkMessage, OneChunkCapture, LargeTotal, Readable,
         SeqNo;
    OneChunkBytes([0x7F]);
    OneChunkBytes([0x14, 2]);
    var one: Message := [0x14, 6, 1, 1, 0, 0, 0, 0, 1, 0, 0, 0, 1, 0, 0, 0, 0x7F];
    var two: Message := [0x14, 6, 1, 1, 0, 0, 0, 0, 2, 0, 0, 0, 2, 0, 0, 0, 0x14, 2];
    assert one == ChunkMessage(0, 1, [0x7F], true) && two == ChunkMessage(0, 2, [0x14, 2], true);
    OneChunkCarries([0x7F]);
    OneChunkCarries([0x14, 2]);
    DechunkExactly(Entries(Mctp, OneChunkCapture([0x7F])));
    assert LargeTotal(two) == 2 by { ChunkMessageFields(0, 2, [0x14, 2], true); }
    DeclaredTotalsSuffice(Entries(Mctp, OneChunkCapture([0x14, 2])));
    ReportFailsExactly(Mctp, OneChunkCapture([0x14, 2]), hashBytes);
  }
}
