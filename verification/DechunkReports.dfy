/**
 The report of `dechunk` on any capture: which sequences it lists, where each ends and for what
 reason, and which notes it makes. A capture is free of notes exactly when every CHUNK_RESPONSE
 of it is in a complete sequence.
 */
module DechunkReports {
  import opened Bytes
  import opened Dechunk
  import opened DechunkComplete
  import opened DechunkFails
  import opened DechunkSound

  // ---- the runs of a capture --------------------------------------------------------------

  /** Where the next CHUNK_RESPONSE long enough to be looked at stands, from entry `k` on. */
  ghost function NextLong(es: seq<Entry>, k: nat): (n: nat)
    requires k <= |es|
    ensures k <= n <= |es|
    decreases |es| - k
  {
    if k == |es| || IsLong(es[k]) then k else NextLong(es, k + 1)
  }

  ghost predicate Begins(e: Entry) { Readable(e) && SeqNo(e.msg) == 0 }

  /** The packets of the entries before `k` that begin a sequence. */
  ghost function Beginnings(es: seq<Entry>, k: nat): seq<nat>
    requires k <= |es|
  {
    if k == 0 then [] else Beginnings(es, k - 1) + if Begins(es[k - 1]) then [k] else []
  }

  /** The packets of a run are neighbours among the CHUNK_RESPONSEs looked at. */
  ghost predicate Neighbours(es: seq<Entry>, packets: seq<nat>) {
    && (forall i :: 0 <= i < |packets| ==> 1 <= packets[i] <= |es|)
    && forall i :: 0 < i < |packets| ==> packets[i] == NextLong(es, packets[i - 1]) + 1
  }

  /** Why a sequence of these packets, with this data, ends where it does; the chunk after its last
      one says, or the last itself. */
  ghost predicate EndsFor(es: seq<Entry>, o: Open, why: Option<Why>)
    requires Neighbours(es, o.packets) && es[o.packets[|o.packets| - 1] - 1].Spdm?
  {
    var last := es[o.packets[|o.packets| - 1] - 1].msg;
    var n := NextLong(es, o.packets[|o.packets| - 1]);
    match why
    case None => LastChunk(last) && |o.data| == o.declared
    case Some(WrongTotal) => LastChunk(last) && |o.data| != o.declared
    case Some(NeverFinished) => !LastChunk(last) && n == |es|
    case Some(ShortChunk) => !LastChunk(last) && n < |es| && !Readable(es[n])
    case Some(NewSequence) => !LastChunk(last) && n < |es| && Begins(es[n])
    case Some(HandleChanged) =>
      !LastChunk(last) && n < |es| && Readable(es[n]) && !Begins(es[n]) && es[n].msg[3] != o.handle
    case Some(SeqJump) =>
      && !LastChunk(last) && n < |es| && Readable(es[n]) && !Begins(es[n]) && es[n].msg[3] == o.handle
      && SeqNo(es[n].msg) != |o.packets|
  }

  ghost predicate Ended(es: seq<Entry>, r: Record) {
    && Neighbours(es, r.chunks.packets) && es[r.chunks.packets[|r.chunks.packets| - 1] - 1].Spdm?
    && EndsFor(es, r.chunks, r.why)
  }

  // ---- what the report lists ----------------------------------------------------------------

  ghost function Firsts(rs: seq<Record>): seq<nat> {
    if rs == [] then [] else Firsts(rs[..|rs| - 1]) + [rs[|rs| - 1].chunks.packets[0]]
  }

  ghost function AllFirsts(st: State): seq<nat> {
    Firsts(st.sequences) + if st.open.Some? then [st.open.value.packets[0]] else []
  }

  /** A note for every sequence that did not complete. */
  ghost function Failures(rs: seq<Record>): seq<Note> {
    if rs == [] then []
    else
      var (ps, why) := (rs[|rs| - 1].chunks.packets, rs[|rs| - 1].why);
      Failures(rs[..|rs| - 1]) + if why.Some? then [Closed(ps[0], ps[|ps| - 1], why.value)] else []
  }

  ghost function ClosedNotes(notes: seq<Note>): seq<Note> {
    if notes == [] then []
    else ClosedNotes(notes[..|notes| - 1]) + if notes[|notes| - 1].Closed? then [notes[|notes| - 1]] else []
  }

  ghost function OtherNotes(notes: seq<Note>): seq<Note> {
    if notes == [] then []
    else OtherNotes(notes[..|notes| - 1]) + if notes[|notes| - 1].Closed? then [] else [notes[|notes| - 1]]
  }

  /** What is noted of a CHUNK_RESPONSE itself: too short for its header, shorter than it says, or
      no beginning and nothing it could go on. */
  ghost function NoteOf(es: seq<Entry>, k: nat): Option<Note>
    requires k < |es|
  {
    if !es[k].Has(CHUNK_RESPONSE) then None
    else if !IsLong(es[k]) then Some(ShortHeader(k + 1))
    else if !Readable(es[k]) then Some(ShortPayload(k + 1))
    else if !Begins(es[k]) && !LiveEnd(Chunks(es[..k])) then Some(NoSequence(k + 1))
    else None
  }

  ghost function EntryNotes(es: seq<Entry>, k: nat): seq<Note>
    requires k <= |es|
  {
    if k == 0 then []
    else EntryNotes(es, k - 1) + if NoteOf(es, k - 1).Some? then [NoteOf(es, k - 1).value] else []
  }

  ghost function CountOf(es: seq<Entry>, code: byte): nat {
    if es == [] then 0 else CountOf(es[..|es| - 1], code) + if es[|es| - 1].Has(code) then 1 else 0
  }

  // ---- the invariant --------------------------------------------------------------------------

  /** The open sequence is still open after entry `k`: nothing looked at since its last chunk. */
  ghost predicate StillOpen(es: seq<Entry>, k: nat, o: Open)
    requires k <= |es|
  {
    && Neighbours(es, o.packets) && o.next == |o.packets|
    && var p := o.packets[|o.packets| - 1];
       && p <= k && es[p - 1].Spdm? && !LastChunk(es[p - 1].msg)
       && forall j :: p <= j < k ==> !IsLong(es[j])
  }

  /** What is listed by entry `k`, whatever is open. */
  ghost predicate Listing(es: seq<Entry>, k: nat, st: State)
    requires k <= |es|
  {
    && (forall i :: 0 <= i < |st.sequences| ==> Ended(es, st.sequences[i]))
    && AllFirsts(st) == Beginnings(es, k)
    && ClosedNotes(st.notes) == Failures(st.sequences)
  }

  ghost predicate Listed(es: seq<Entry>, k: nat, st: State)
    requires k <= |es|
  {
    Listing(es, k, st) && (st.open.Some? ==> StillOpen(es, k, st.open.value))
  }

  lemma {:induction false} NextIs(es: seq<Entry>, p: nat, k: nat)
    requires p <= k <= |es| && (k == |es| || IsLong(es[k])) && forall j :: p <= j < k ==> !IsLong(es[j])
    ensures NextLong(es, p) == k
    decreases k - p
  {
    if p < k {
      NextIs(es, p + 1, k);
    }
  }

  lemma {:induction false} NotesAppend(notes: seq<Note>, n: Note)
    ensures ClosedNotes(notes + [n]) == ClosedNotes(notes) + if n.Closed? then [n] else []
    ensures OtherNotes(notes + [n]) == OtherNotes(notes) + if n.Closed? then [] else [n]
  {
    assert (notes + [n])[..|notes|] == notes;
  }

  lemma {:induction false} RecordsAppend(rs: seq<Record>, r: Record)
    ensures Firsts(rs + [r]) == Firsts(rs) + [r.chunks.packets[0]]
    ensures var ps := r.chunks.packets;
            Failures(rs + [r]) ==
            Failures(rs) + if r.why.Some? then [Closed(ps[0], ps[|ps| - 1], r.why.value)] else []
  {
    assert (rs + [r])[..|rs|] == rs;
  }

  /** Closing the open sequence for a reason that is its reason. */
  lemma {:induction false} FailListed(es: seq<Entry>, k: nat, st: State, why: Why)
    requires k <= |es| && Listing(es, k, st) && st.open.Some? && Ended(es, Record(st.open.value, Some(why)))
    ensures Listed(es, k, Fail(st, why)) && OtherNotes(Fail(st, why).notes) == OtherNotes(st.notes)
  {
    hide Ended, StillOpen, Beginnings, Firsts, Failures, ClosedNotes, OtherNotes;
    var o := st.open.value;
    RecordsAppend(st.sequences, Record(o, Some(why)));
    NotesAppend(st.notes, Closed(o.packets[0], o.packets[|o.packets| - 1], why));
    assert Firsts(st.sequences + [Record(o, Some(why))]) + [] == Firsts(st.sequences) + [o.packets[0]];
    assert OtherNotes(st.notes) + [] == OtherNotes(st.notes);
  }

  lemma {:induction false} SucceedListed(es: seq<Entry>, k: nat, st: State)
    requires k <= |es| && Listing(es, k, st) && st.open.Some? && Ended(es, Record(st.open.value, None))
    requires Succeed(st).Some?
    ensures Listed(es, k, Succeed(st).value)
  {
    hide Ended, StillOpen, Beginnings, Firsts, Failures, ClosedNotes;
    var o := st.open.value;
    RecordsAppend(st.sequences, Record(o, None));
    assert Firsts(st.sequences + [Record(o, None)]) + [] == Firsts(st.sequences) + [o.packets[0]];
    assert Failures(st.sequences) + [] == Failures(st.sequences);
  }

  /** The reason for which the next chunk looked at, or the end of the capture, ends what is open. */
  ghost predicate Stops(es: seq<Entry>, k: nat, o: Open, why: Why)
    requires k <= |es|
  {
    match why
    case NeverFinished => k == |es|
    case ShortChunk => k < |es| && IsLong(es[k]) && !Readable(es[k])
    case NewSequence => k < |es| && Begins(es[k])
    case HandleChanged => k < |es| && Readable(es[k]) && !Begins(es[k]) && es[k].msg[3] != o.handle
    case SeqJump =>
      k < |es| && Readable(es[k]) && !Begins(es[k]) && es[k].msg[3] == o.handle && SeqNo(es[k].msg) != |o.packets|
    case WrongTotal => false
  }

  lemma {:induction false} StopEnds(es: seq<Entry>, k: nat, o: Open, why: Why)
    requires k <= |es| && StillOpen(es, k, o) && Stops(es, k, o, why)
    ensures Ended(es, Record(o, Some(why)))
  {
    hide LE, Slice, LastChunk, SeqNo, Payload, ChunkSize;
    NextIs(es, o.packets[|o.packets| - 1], k);
  }

  /** Chunk `k` was just taken into the open sequence. */
  ghost predicate JustTaken(es: seq<Entry>, k: nat, o: Open)
    requires k < |es|
  {
    && Neighbours(es, o.packets) && o.next == |o.packets|
    && o.packets[|o.packets| - 1] == k + 1 && es[k].Spdm?
  }

  lemma {:induction false} AfterChunkListed(es: seq<Entry>, k: nat, st: State)
    requires k < |es| && Listing(es, k + 1, st) && st.open.Some? && JustTaken(es, k, st.open.value)
    requires AfterChunk(st, es[k].msg).Some?
    ensures Listed(es, k + 1, AfterChunk(st, es[k].msg).value)
    ensures OtherNotes(AfterChunk(st, es[k].msg).value.notes) == OtherNotes(st.notes)
  {
    hide LE, Slice, LastChunk, Listing, OtherNotes, Fail;
    var o := st.open.value;
    if LastChunk(es[k].msg) {
      if |o.data| != o.declared {
        assert Ended(es, Record(o, Some(WrongTotal)));
        FailListed(es, k + 1, st, WrongTotal);
      } else {
        assert Ended(es, Record(o, None));
        SucceedListed(es, k + 1, st);
      }
    } else {
      assert StillOpen(es, k + 1, o);
    }
  }

  lemma {:induction false} BeginningsNext(es: seq<Entry>, k: nat)
    requires k < |es|
    ensures Beginnings(es, k + 1) == Beginnings(es, k) + if Begins(es[k]) then [k + 1] else []
    ensures EntryNotes(es, k + 1) == EntryNotes(es, k) + if NoteOf(es, k).Some? then [NoteOf(es, k).value] else []
  {
  }

  /** Something else than a beginning, closing nothing. */
  lemma {:induction false} KeepsListed(es: seq<Entry>, k: nat, st: State, next: State)
    requires k < |es| && Listed(es, k, st) && !Begins(es[k])
    requires next.sequences == st.sequences && next.open == st.open && ClosedNotes(next.notes) == ClosedNotes(st.notes)
    requires st.open.None? || !IsLong(es[k])
    ensures Listed(es, k + 1, next)
  {
    hide Ended, Begins, Beginnings, IsLong, LastChunk, Neighbours;
    BeginningsNext(es, k);
    assert Beginnings(es, k) + [] == Beginnings(es, k);
  }

  /** The open sequence closed by entry `k`, which begins none. */
  lemma {:induction false} StopListed(es: seq<Entry>, k: nat, st: State, why: Why)
    requires k < |es| && Listed(es, k, st) && st.open.Some? && Stops(es, k, st.open.value, why) && !Begins(es[k])
    ensures Listed(es, k + 1, Fail(st, why)) && OtherNotes(Fail(st, why).notes) == OtherNotes(st.notes)
  {
    hide Ended, Begins, Beginnings, IsLong, StillOpen, Stops, Listing, OtherNotes, Fail;
    StopEnds(es, k, st.open.value, why);
    FailListed(es, k, st, why);
    ClosesOpen(st, why);
    KeepsListed(es, k, Fail(st, why), Fail(st, why));
  }

  lemma {:induction false} ClosesOpen(st: State, why: Why)
    requires st.open.Some?
    ensures Fail(st, why).open.None?
  {
  }

  lemma {:induction false} BeginListed(es: seq<Entry>, k: nat, st: State)
    requires k < |es| && Listed(es, k, st) && st.open.None? && Begins(es[k])
    requires ChunkStep(st, k + 1, es[k].msg).Some?
    ensures Listed(es, k + 1, ChunkStep(st, k + 1, es[k].msg).value)
    ensures OtherNotes(ChunkStep(st, k + 1, es[k].msg).value.notes) == OtherNotes(st.notes)
  {
    hide LE, Slice, LastChunk, Ended, Beginnings, AfterChunk, OtherNotes, ClosedNotes, Failures;
    var o := Opened(k + 1, es[k].msg);
    BeginningsNext(es, k);
    assert Firsts(st.sequences) + [] == Firsts(st.sequences);
    assert JustTaken(es, k, o);
    AfterChunkListed(es, k, st.(open := Some(o)));
  }

  lemma {:induction false} ExtendListed(es: seq<Entry>, k: nat, st: State)
    requires k < |es| && Listed(es, k, st) && st.open.Some? && Readable(es[k]) && !Begins(es[k])
    requires es[k].msg[3] == st.open.value.handle && SeqNo(es[k].msg) == st.open.value.next
    requires ChunkStep(st, k + 1, es[k].msg).Some?
    ensures Listed(es, k + 1, ChunkStep(st, k + 1, es[k].msg).value)
    ensures OtherNotes(ChunkStep(st, k + 1, es[k].msg).value.notes) == OtherNotes(st.notes)
  {
    hide LE, Slice, LastChunk, Ended, Beginnings, AfterChunk, OtherNotes, ClosedNotes, Failures, Firsts;
    var o := Extended(st.open.value, k + 1, es[k].msg);
    BeginningsNext(es, k);
    assert Beginnings(es, k) + [] == Beginnings(es, k);
    NextIs(es, st.open.value.packets[|st.open.value.packets| - 1], k);
    assert JustTaken(es, k, o);
    AfterChunkListed(es, k, st.(open := Some(o)));
  }

  /** The notes of entry `k` itself are the ones it should have. */
  ghost predicate NotesTrack(es: seq<Entry>, k: nat, st: State)
    requires k <= |es|
  {
    OtherNotes(st.notes) == EntryNotes(es, k)
  }

  lemma {:induction false} RefusedListed(es: seq<Entry>, k: nat, st: State)
    requires k < |es| && Listed(es, k, st) && NotesTrack(es, k, st) && es[k].packet == k + 1
    requires es[k].Has(CHUNK_RESPONSE) && !Readable(es[k])
    ensures Step(st, es[k]).Some?
    ensures var r := Step(st, es[k]).value; Listed(es, k + 1, r) && NotesTrack(es, k + 1, r)
  {
    hide LE, Slice, Payload, ChunkSize, SeqNo, Listing, StillOpen, EntryNotes, OtherNotes, ClosedNotes, Fail;
    BeginningsNext(es, k);
    var note := if IsLong(es[k]) then ShortPayload(k + 1) else ShortHeader(k + 1);
    var noted := st.(notes := st.notes + [note]);
    NotesAppend(st.notes, note);
    assert ClosedNotes(st.notes) + [] == ClosedNotes(st.notes);
    if st.open.Some? && IsLong(es[k]) {
      NotedListed(es, k, st, noted);
      StopListed(es, k, noted, ShortChunk);
    } else {
      KeepsListed(es, k, st, noted);
    }
  }

  lemma {:induction false} NotedListed(es: seq<Entry>, k: nat, st: State, next: State)
    requires k <= |es| && Listed(es, k, st) && next.sequences == st.sequences && next.open == st.open
    requires ClosedNotes(next.notes) == ClosedNotes(st.notes)
    ensures Listed(es, k, next)
  {
  }

  lemma {:induction false} ReadableListed(es: seq<Entry>, k: nat, st: State)
    requires k < |es| && Listed(es, k, st) && NotesTrack(es, k, st) && Readable(es[k])
    requires st.open.Some? <==> LiveEnd(Chunks(es[..k]))
    requires ChunkStep(st, k + 1, es[k].msg).Some?
    ensures var r := ChunkStep(st, k + 1, es[k].msg).value; Listed(es, k + 1, r) && NotesTrack(es, k + 1, r)
  {
    hide LE, Slice, Payload, ChunkSize, LiveEnd, Listing, EntryNotes, OtherNotes, ClosedNotes, Fail, AfterChunk;
    var m := es[k].msg;
    BeginningsNext(es, k);
    assert EntryNotes(es, k) + [] == EntryNotes(es, k);
    if Begins(es[k]) {
      if st.open.Some? {
        StopEnds(es, k, st.open.value, NewSequence);
        FailListed(es, k, st, NewSequence);
        ClosesOpen(st, NewSequence);
        BeginListed(es, k, Fail(st, NewSequence));
      } else {
        BeginListed(es, k, st);
      }
    } else if st.open.None? {
      var noted := st.(notes := st.notes + [NoSequence(k + 1)]);
      NotesAppend(st.notes, NoSequence(k + 1));
      assert ClosedNotes(st.notes) + [] == ClosedNotes(st.notes);
      KeepsListed(es, k, st, noted);
    } else if m[3] != st.open.value.handle {
      StopListed(es, k, st, HandleChanged);
    } else if SeqNo(m) != st.open.value.next {
      StopListed(es, k, st, SeqJump);
    } else {
      ExtendListed(es, k, st);
    }
  }

  lemma {:induction false} StepListed(es: seq<Entry>, k: nat, st: State)
    requires k < |es| && Listed(es, k, st) && NotesTrack(es, k, st) && es[k].packet == k + 1
    requires Tracks(st.open, Chunks(es[..k])) && Step(st, es[k]).Some?
    ensures var r := Step(st, es[k]).value; Listed(es, k + 1, r) && NotesTrack(es, k + 1, r)
  {
    hide LE, Slice, Listing, StillOpen, EntryNotes, OtherNotes, ClosedNotes, ChunkStep, LiveEnd, Describes, Chunks;
    if !es[k].Has(CHUNK_RESPONSE) {
      BeginningsNext(es, k);
      assert EntryNotes(es, k) + [] == EntryNotes(es, k);
      KeepsListed(es, k, st, Step(st, es[k]).value);
    } else if !Readable(es[k]) {
      RefusedListed(es, k, st);
    } else {
      ReadableListed(es, k, st);
    }
  }

  // ---- chunks that are in a sequence, and those noted that are not --------------------------------

  ghost predicate Noted(es: seq<Entry>, k: nat, st: State)
    requires k <= |es|
  {
    && (st.notes == [] ==> forall j :: 0 <= j < k && es[j].Has(CHUNK_RESPONSE) ==> j + 1 in Used(st))
    && forall n :: n in st.notes && !n.Closed? ==> n.packet !in Used(st)
  }

  /** What a step does to the notes and to the packets in sequences: it adds no note and takes the
      chunk, if it is one, or it takes the chunk or none and adds notes not about it, or it notes it
      and does not take it. */
  ghost predicate Moves(es: seq<Entry>, k: nat, st: State, r: State)
    requires k < |es|
  {
    && (Used(r) == Used(st) || Used(r) == Used(st) + [k + 1])
    && st.notes <= r.notes
    && (r.notes == st.notes && es[k].Has(CHUNK_RESPONSE) ==> Used(r) == Used(st) + [k + 1])
    && forall n :: n in r.notes && n !in st.notes && !n.Closed? ==> n.packet == k + 1 && Used(r) == Used(st)
  }

  lemma {:induction false} FailUsed(st: State, why: Why)
    requires st.open.Some?
    ensures Used(Fail(st, why)) == Used(st)
  {
    assert (st.sequences + [Record(st.open.value, Some(why))])[..|st.sequences|] == st.sequences;
  }

  lemma {:induction false} AfterChunkUsed(st: State, m: Message)
    requires st.open.Some? && AfterChunk(st, m).Some?
    ensures var r := AfterChunk(st, m).value;
            && Used(r) == Used(st) && st.notes <= r.notes
            && forall n :: n in r.notes && n !in st.notes ==> n.Closed?
  {
    hide LE, Slice, LastChunk, Used;
    if LastChunk(m) {
      if |st.open.value.data| != st.open.value.declared {
        FailUsed(st, WrongTotal);
      } else {
        SucceedUsed(st);
      }
    }
  }

  lemma {:induction false} SucceedUsed(st: State)
    requires st.open.Some? && Succeed(st).Some?
    ensures Used(Succeed(st).value) == Used(st)
  {
    assert (st.sequences + [Record(st.open.value, None)])[..|st.sequences|] == st.sequences;
  }

  lemma {:induction false} OpenUsed(st: State, x: Open, packet: nat)
    requires if st.open.None? then x.packets == [packet] else x.packets == st.open.value.packets + [packet]
    ensures Used(st.(open := Some(x))) == Used(st) + [packet]
  {
  }

  lemma {:induction false} ChunkMoves(es: seq<Entry>, k: nat, st: State)
    requires k < |es| && es[k].Has(CHUNK_RESPONSE) && ChunkStep(st, k + 1, es[k].msg).Some?
    ensures Moves(es, k, st, ChunkStep(st, k + 1, es[k].msg).value)
  {
    hide LE, Slice, Payload, ChunkSize, SeqNo, Used, AfterChunk, LargeTotal;
    var m := es[k].msg;
    var noted := st.(notes := st.notes + [ShortPayload(k + 1)]);
    NotesUse(st, noted);
    NotesUse(st, st.(notes := st.notes + [ShortHeader(k + 1)]));
    NotesUse(st, st.(notes := st.notes + [NoSequence(k + 1)]));
    if st.open.Some? {
      FailUsed(noted, ShortChunk);
      FailUsed(st, HandleChanged);
      FailUsed(st, SeqJump);
      FailUsed(st, NewSequence);
    }
    if Readable(es[k]) && SeqNo(m) == 0 {
      var begun := if st.open.Some? then Fail(st, NewSequence) else st;
      OpenUsed(begun, Opened(k + 1, m), k + 1);
      AfterChunkUsed(begun.(open := Some(Opened(k + 1, m))), m);
    } else if Readable(es[k]) && st.open.Some? {
      OpenUsed(st, Extended(st.open.value, k + 1, m), k + 1);
      if m[3] == st.open.value.handle && SeqNo(m) == st.open.value.next {
        AfterChunkUsed(st.(open := Some(Extended(st.open.value, k + 1, m))), m);
      }
    }
  }

  lemma {:induction false} NotesUse(st: State, next: State)
    requires next.open == st.open && next.sequences == st.sequences
    ensures Used(next) == Used(st)
  {
  }

  lemma {:induction false} StepMoves(es: seq<Entry>, k: nat, st: State)
    requires k < |es| && es[k].packet == k + 1 && Step(st, es[k]).Some?
    ensures Moves(es, k, st, Step(st, es[k]).value)
  {
    hide ChunkStep, Used;
    if es[k].Has(CHUNK_RESPONSE) {
      ChunkMoves(es, k, st);
    } else {
      NotesUse(st, Step(st, es[k]).value);
    }
  }

  lemma {:induction false} StepNoted(es: seq<Entry>, k: nat, st: State, r: State)
    requires k < |es| && Noted(es, k, st) && Moves(es, k, st, r) && Drawn(es, k, Used(st))
    requires forall n :: n in st.notes && !n.Closed? ==> n.packet <= k
    ensures Noted(es, k + 1, r)
    ensures forall n :: n in r.notes && !n.Closed? ==> n.packet <= k + 1
  {
    hide Used;
    forall i | 0 <= i < |Used(st)|
      ensures Used(st)[i] <= k
    {
    }
    if r.notes == [] {
      assert st.notes == [];
    }
  }

  // ---- the whole run --------------------------------------------------------------------------------

  ghost predicate Tallied(es: seq<Entry>, k: nat, st: State)
    requires k <= |es|
  {
    && Listed(es, k, st) && NotesTrack(es, k, st) && Noted(es, k, st)
    && (forall n :: n in st.notes && !n.Closed? ==> n.packet <= k)
    && st.chunkSends == CountOf(es[..k], CHUNK_SEND) && st.chunkSendAcks == CountOf(es[..k], CHUNK_SEND_ACK)
  }

  lemma {:induction false} StepCounts(es: seq<Entry>, k: nat, st: State)
    requires k < |es| && Step(st, es[k]).Some?
    ensures var r := Step(st, es[k]).value;
            && r.chunkSends - st.chunkSends == CountOf(es[..k + 1], CHUNK_SEND) - CountOf(es[..k], CHUNK_SEND)
            && r.chunkSendAcks - st.chunkSendAcks
               == CountOf(es[..k + 1], CHUNK_SEND_ACK) - CountOf(es[..k], CHUNK_SEND_ACK)
  {
    hide LE, Slice, Payload, ChunkSize, SeqNo, LargeTotal, LastChunk;
    assert es[..k + 1][..k] == es[..k];
  }

  lemma {:induction false} StepTallied(es: seq<Entry>, k: nat, st: State)
    requires Captured(es) && k < |es| && Tallied(es, k, st) && Good(es, k, st) && Before(es, k, st)
    requires Step(st, es[k]).Some?
    ensures var r := Step(st, es[k]).value; Tallied(es, k + 1, r) && Good(es, k + 1, r) && Before(es, k + 1, r)
  {
    hide Listed, NotesTrack, Noted, Moves, Tracks, Step, Used, CountOf, AnyTiny;
    StepListed(es, k, st);
    StepMoves(es, k, st);
    StepNoted(es, k, st, Step(st, es[k]).value);
    StepCounts(es, k, st);
    StepGood(es, k, st);
    EntryTracks(es, k, st);
  }

  lemma {:induction false} RunTallied(es: seq<Entry>, k: nat, st: State)
    requires Captured(es) && k <= |es| && Tallied(es, k, st) && Good(es, k, st) && Before(es, k, st)
    ensures var r := Run(st, es[k..]); r.Some? ==> Tallied(es, |es|, r.value)
    decreases |es| - k
  {
    hide Tallied, Good, Before, Step;
    if k < |es| {
      assert es[k..][0] == es[k] && es[k..][1..] == es[k + 1..];
      if Step(st, es[k]).Some? {
        StepTallied(es, k, st);
        RunTallied(es, k + 1, Step(st, es[k]).value);
      }
    }
  }

  lemma {:induction false} StartTallied(es: seq<Entry>)
    ensures Tallied(es, 0, START)
  {
    assert es[..0] == [];
  }

  lemma {:induction false} FinishTallied(es: seq<Entry>, st: State)
    requires Tallied(es, |es|, st) && st.open.Some?
    ensures var r := Fail(st, NeverFinished);
            && Listing(es, |es|, r) && r.open.None? && NotesTrack(es, |es|, r)
            && r.chunkSends == st.chunkSends && r.chunkSendAcks == st.chunkSendAcks
            && Noted(es, |es|, r)
  {
    hide Listing, StillOpen, OtherNotes, EntryNotes, Used, CountOf;
    StopEnds(es, |es|, st.open.value, NeverFinished);
    FailListed(es, |es|, st, NeverFinished);
    FailUsed(st, NeverFinished);
  }

  /** The report of any capture that `dechunk` finishes: exactly the sequences that begin in it, each
      with the chunks that go on from it and the reason for which they stop, a note for each that
      did not complete, a note for every other CHUNK_RESPONSE that came to nothing, and the number
      of the messages it does not reassemble. */
  lemma {:induction false} ReportIsExact(es: seq<Entry>)
    requires Captured(es) && Reassembled(es).Some?
    ensures var r := Reassembled(es).value;
            && (forall i :: 0 <= i < |r.sequences| ==> Ended(es, r.sequences[i]))
            && Firsts(r.sequences) == Beginnings(es, |es|)
            && ClosedNotes(r.notes) == Failures(r.sequences) && OtherNotes(r.notes) == EntryNotes(es, |es|)
            && r.chunkSends == CountOf(es, 0x85) && r.chunkSendAcks == CountOf(es, 0x05)
            && Noted(es, |es|, r) && r.open.None?
  {
    hide Ended, Beginnings, Failures, ClosedNotes, OtherNotes, EntryNotes, CountOf, Noted, Firsts, Run, Fail, Tallied;
    AllTallied(es);
    TalliedIsExact(es, Run(START, es).value);
  }

  lemma {:induction false} AllTallied(es: seq<Entry>)
    requires Captured(es) && Run(START, es).Some?
    ensures Tallied(es, |es|, Run(START, es).value)
  {
    hide Tallied, Captured, Good, Before, Run, Views, Structure;
    StartTallied(es);
    StartSound(es);
    NothingYet(es);
    assert es[0..] == es;
    RunTallied(es, 0, START);
  }

  lemma {:induction false} TalliedIsExact(es: seq<Entry>, st: State)
    requires Tallied(es, |es|, st)
    ensures var r := if st.open.Some? then Fail(st, NeverFinished) else st;
            && (forall i :: 0 <= i < |r.sequences| ==> Ended(es, r.sequences[i]))
            && Firsts(r.sequences) == Beginnings(es, |es|)
            && ClosedNotes(r.notes) == Failures(r.sequences) && OtherNotes(r.notes) == EntryNotes(es, |es|)
            && r.chunkSends == CountOf(es, CHUNK_SEND) && r.chunkSendAcks == CountOf(es, CHUNK_SEND_ACK)
            && Noted(es, |es|, r) && r.open.None?
  {
    hide Ended, Beginnings, Failures, ClosedNotes, OtherNotes, EntryNotes, CountOf, Noted, StillOpen, Firsts, Fail;
    assert es[..|es|] == es;
    if st.open.Some? {
      FinishTallied(es, st);
    }
    var r := if st.open.Some? then Fail(st, NeverFinished) else st;
    assert Firsts(r.sequences) + [] == Firsts(r.sequences);
  }

  lemma {:induction false} NothingYet(es: seq<Entry>)
    ensures Before(es, 0, START)
  {
    assert es[..0] == [];
  }

  // ---- what follows -----------------------------------------------------------------------------------

  lemma {:induction false} FirstsAt(rs: seq<Record>, i: nat)
    requires i < |rs|
    ensures |Firsts(rs)| == |rs| && Firsts(rs)[i] == rs[i].chunks.packets[0]
  {
    if i < |rs| - 1 {
      FirstsAt(rs[..|rs| - 1], i);
    } else {
      FirstsCount(rs[..|rs| - 1]);
    }
  }

  lemma {:induction false} FirstsCount(rs: seq<Record>)
    ensures |Firsts(rs)| == |rs|
  {
    if rs != [] {
      FirstsCount(rs[..|rs| - 1]);
    }
  }

  lemma {:induction false} BeginningsIncrease(es: seq<Entry>, k: nat)
    requires k <= |es|
    ensures Increasing(Beginnings(es, k))
    ensures forall p :: p in Beginnings(es, k) <==> 1 <= p <= k && Begins(es[p - 1])
  {
    hide Begins;
    if k > 0 {
      BeginningsIncrease(es, k - 1);
      var front := Beginnings(es, k - 1);
      forall i | 0 <= i < |front|
        ensures front[i] < k
      {
        assert front[i] in front;
      }
    }
  }

  /** Every chunk that begins a sequence is the first of exactly one in the report. */
  lemma {:induction false} EveryBeginningIsReported(es: seq<Entry>, k: nat)
    requires Captured(es) && Reassembled(es).Some? && k < |es| && Begins(es[k])
    ensures var rs := Reassembled(es).value.sequences;
            exists i :: 0 <= i < |rs| && rs[i].chunks.packets[0] == k + 1
                        && forall j :: 0 <= j < |rs| && j != i ==> rs[j].chunks.packets[0] != k + 1
  {
    hide Ended, Begins, Firsts, Beginnings, Noted, Reassembled;
    var rs := Reassembled(es).value.sequences;
    ReportIsExact(es);
    BeginningsIncrease(es, |es|);
    FirstsCount(rs);
    forall j | 0 <= j < |rs|
      ensures Firsts(rs)[j] == rs[j].chunks.packets[0]
    {
      FirstsAt(rs, j);
    }
    assert k + 1 in Beginnings(es, |es|);
    var i :| 0 <= i < |Firsts(rs)| && Firsts(rs)[i] == k + 1;
    forall j | 0 <= j < |rs| && j != i
      ensures rs[j].chunks.packets[0] != k + 1
    {
      assert Firsts(rs)[j] != Firsts(rs)[i];
    }
    assert rs[i].chunks.packets[0] == k + 1;
  }

  lemma {:induction false} NoFailures(rs: seq<Record>)
    ensures Failures(rs) == [] <==> forall i :: 0 <= i < |rs| ==> rs[i].why.None?
  {
    if rs != [] {
      NoFailures(rs[..|rs| - 1]);
      assert rs == rs[..|rs| - 1] + [rs[|rs| - 1]];
    }
  }

  lemma {:induction false} NotesAreBoth(notes: seq<Note>)
    ensures notes == [] <==> ClosedNotes(notes) == [] && OtherNotes(notes) == []
  {
  }

  lemma {:induction false} FirstOther(notes: seq<Note>) returns (n: Note)
    requires OtherNotes(notes) != []
    ensures n in notes && !n.Closed? && n in OtherNotes(notes)
  {
    var last := notes[|notes| - 1];
    if !last.Closed? {
      n := last;
    } else {
      n := FirstOther(notes[..|notes| - 1]);
    }
  }

  lemma {:induction false} EntryNotesAbout(es: seq<Entry>, k: nat, n: Note)
    requires k <= |es| && n in EntryNotes(es, k)
    ensures !n.Closed? && 1 <= n.packet <= k
    ensures NoteOf(es, n.packet - 1) == Some(n) && es[n.packet - 1].Has(CHUNK_RESPONSE)
  {
    hide LiveEnd, Begins, IsLong;
    if n in EntryNotes(es, k - 1) {
      EntryNotesAbout(es, k - 1, n);
    }
  }

  lemma {:induction false} InSome(rs: seq<Record>, p: nat) returns (i: nat)
    requires p in AllPackets(rs)
    ensures i < |rs| && p in rs[i].chunks.packets
  {
    if p in AllPackets(rs[..|rs| - 1]) {
      i := InSome(rs[..|rs| - 1], p);
    } else {
      i := |rs| - 1;
    }
  }

  /** Every CHUNK_RESPONSE of the capture is in a complete sequence of the report. */
  ghost predicate AllComplete(es: seq<Entry>, rs: seq<Record>) {
    forall k :: 0 <= k < |es| && es[k].Has(CHUNK_RESPONSE) ==>
      exists i :: 0 <= i < |rs| && rs[i].why.None? && k + 1 in rs[i].chunks.packets
  }

  /** A capture draws no note exactly when every CHUNK_RESPONSE of it is in a complete sequence. */
  lemma {:induction false} QuietExactlyWhenComplete(es: seq<Entry>)
    requires Captured(es) && Reassembled(es).Some?
    ensures Reassembled(es).value.notes == [] <==> AllComplete(es, Reassembled(es).value.sequences)
  {
    hide Ended, Firsts, Beginnings, Reassembled, Failures, ClosedNotes, OtherNotes, EntryNotes, NoteOf, AllPackets;
    var r := Reassembled(es).value;
    ReportIsExact(es);
    NoFailures(r.sequences);
    NotesAreBoth(r.notes);
    if r.notes == [] {
      forall k | 0 <= k < |es| && es[k].Has(CHUNK_RESPONSE)
        ensures exists i :: 0 <= i < |r.sequences| && r.sequences[i].why.None? && k + 1 in r.sequences[i].chunks.packets
      {
        assert k + 1 in Used(r);
        var i := InSome(r.sequences, k + 1);
      }
    }
    if AllComplete(es, r.sequences) {
      AllCompleteAreQuiet(es);
    }
  }

  lemma {:induction false} AllCompleteAreQuiet(es: seq<Entry>)
    requires Captured(es) && Reassembled(es).Some? && AllComplete(es, Reassembled(es).value.sequences)
    ensures Reassembled(es).value.notes == []
  {
    hide Ended, Firsts, Beginnings, Reassembled, Failures, ClosedNotes, OtherNotes, EntryNotes, NoteOf, AllPackets,
         Holds;
    var r := Reassembled(es).value;
    var rs := r.sequences;
    ReportIsExact(es);
    NoFailures(rs);
    NotesAreBoth(r.notes);
    if i :| 0 <= i < |rs| && rs[i].why.Some? {
      SequenceIsDrawn(es, i);
      var p := rs[i].chunks.packets[0];
      var j :| 0 <= j < |rs| && rs[j].why.None? && p in rs[j].chunks.packets;
      if i < j { NoChunkUsedTwice(es, i, j); } else { NoChunkUsedTwice(es, j, i); }
    } else if OtherNotes(r.notes) != [] {
      var n := FirstOther(r.notes);
      EntryNotesAbout(es, |es|, n);
      var j :| 0 <= j < |rs| && rs[j].why.None? && n.packet in rs[j].chunks.packets;
      PacketsIn(rs, j, n.packet);
    }
  }

  lemma {:induction false} SequenceIsDrawn(es: seq<Entry>, i: nat)
    requires Captured(es) && Reassembled(es).Some? && i < |Reassembled(es).value.sequences|
    ensures var p := Reassembled(es).value.sequences[i].chunks.packets[0];
            1 <= p <= |es| && es[p - 1].Has(CHUNK_RESPONSE)
  {
    hide Reassembled;
    DechunkedSound(es);
    assert RecordSound(es, |es|, Reassembled(es).value.sequences[i]);
  }

  /** The first chunk of a message of five bytes, and nothing more. */
  lemma {:induction false} ALostTailIsReported()
    ensures var m := [0x14, 6, 0, 1, 0, 0, 0, 0, 2, 0, 0, 0, 5, 0, 0, 0, 0xAA, 0xBB];
            var r := Reassembled([Spdm(1, m, [])]);
            && r.Some? && r.value.notes == [Closed(1, 1, NeverFinished)] && r.value.logical == []
            && r.value.sequences == [Record(Open(1, [1], 5, 1, 18, [0xAA, 0xBB]), Some(NeverFinished))]
  {
    hide LE, Slice, Payload, ChunkSize, SeqNo, LargeTotal, Run;
    var m: Message := [0x14, 6, 0, 1, 0, 0, 0, 0, 2, 0, 0, 0, 5, 0, 0, 0, 0xAA, 0xBB];
    FiveBytesBegun(m);
    var e := Spdm(1, m, []);
    var st := START.(open := Some(Open(1, [1], 5, 1, 18, [0xAA, 0xBB])));
    assert Opened(1, m) == Open(1, [1], 5, 1, 18, [0xAA, 0xBB]) && !LastChunk(m);
    assert ChunkStep(START, 1, m) == AfterChunk(START.(open := Some(Opened(1, m))), m) == Some(st);
    assert e.Has(CHUNK_RESPONSE) && Step(START, e) == ChunkStep(START, 1, m);
    OneStep(START, e, st);
    assert [] + [Record(st.open.value, Some(NeverFinished))] == [Record(st.open.value, Some(NeverFinished))];
  }

  lemma {:induction false} OneStep(st: State, e: Entry, next: State)
    requires Step(st, e) == Some(next)
    ensures Run(st, [e]) == Some(next)
  {
    hide Step;
    assert [e][1..] == [] && Run(next, []) == Some(next);
  }

  lemma {:induction false} FiveBytesBegun(m: Message)
    requires m == [0x14, 6, 0, 1, 0, 0, 0, 0, 2, 0, 0, 0, 5, 0, 0, 0, 0xAA, 0xBB]
    ensures SeqNo(m) == 0 && ChunkSize(m) == 2 && Payload(m) == [0xAA, 0xBB] && LargeTotal(m) == 5
  {
    hide LE, ToLE;
    SmallLE(0);
    SmallLE(2);
    SmallLE(5);
    assert m == ChunkMessage(0, 5, [0xAA, 0xBB], false);
    ChunkMessageFields(0, 5, [0xAA, 0xBB], false);
  }
}
