/**
 harness/tamper_proxy.py: which byte a tamper names and what it does to what a reader of the
 message sees. The record is read with the other reader, of harness/fields.py.
 */
module TamperNames {
  import opened Bytes
  import opened Measurements
  import opened Proxy
  import opened RecordReaders

  /** The entry as a reader would see it with the low bit of this byte of its value changed. */
  function FlippedEntry(e: Entry, k: nat): Entry
    requires k < |e.value|
  {
    e.(value := e.value[k := FlipLow(e.value[k])])
  }

  ghost predicate FirstWith(walked: seq<Entry>, index: int, i: nat) {
    i < |walked| && walked[i].index == index && forall j :: 0 <= j < i ==> walked[j].index != index
  }

  lemma {:induction false} FindsFirst(record: seq<byte>, blocks: seq<Block>, walked: seq<Entry>, index: int, i: nat)
    requires AllDescribe(record, blocks, walked) && FirstWith(walked, index, i)
    ensures FindBlock(blocks, index) == Some(blocks[i])
  {
    hide U16;
    assert forall j :: 0 <= j < |blocks| ==> Describes(record, blocks[j], walked[j]);
    FindBlockFirst(blocks, index, i);
  }

  lemma {:induction false} FindBlockFirst(blocks: seq<Block>, index: int, i: nat)
    requires i < |blocks| && blocks[i].index == index && forall j :: 0 <= j < i ==> blocks[j].index != index
    ensures FindBlock(blocks, index) == Some(blocks[i])
  {
    if i > 0 {
      FindBlockFirst(blocks[1..], index, i - 1);
    }
  }

  lemma {:induction false} FindsNone(blocks: seq<Block>, index: int)
    requires forall j :: 0 <= j < |blocks| ==> blocks[j].index != index
    ensures FindBlock(blocks, index).None?
  {
    if blocks != [] {
      FindsNone(blocks[1..], index);
    }
  }

  /** The record of a message the parser accepts. */
  function RecordOf(msg: seq<byte>, layout: Layout): seq<byte>
    requires 8 + layout.recordBytes <= |msg|
  {
    msg[8..8 + layout.recordBytes]
  }

  /** What the other reader sees in it. */
  function Fields(record: seq<byte>, n: nat): Walk {
    FieldsSpec(record, 0, |record|, Some(n))
  }

  lemma {:induction false} RecordIsDescribed(msg: seq<byte>, conv: Learned)
    requires ParseMeasurements(msg, conv).Ok?
    requires var l := ParseMeasurements(msg, conv).value; Fields(RecordOf(msg, l), l.numberOfBlocks).Closes()
    ensures var l := ParseMeasurements(msg, conv).value;
            && WalkSpec(RecordOf(msg, l), l.numberOfBlocks) == Ok(l.blocks) && l.recordOffset == 8
            && AllDescribe(RecordOf(msg, l), l.blocks, Fields(RecordOf(msg, l), l.numberOfBlocks).walked)
  {
    hide WalkSpec, FieldsSpec, AllDescribe;
    var l := ParseMeasurements(msg, conv).value;
    var record := RecordOf(msg, l);
    assert record[0..|record|] == record;
    ClosingRecordIsWalked(record, 0, |record|, Some(l.numberOfBlocks));
  }

  /** Byte `t` of the record is byte `k` of the value in block `b`. */
  ghost predicate IsValueByte(b: Block, k: nat, t: nat) {
    t == b.offset + 7 + k && t < b.End()
  }

  lemma {:induction false} DescribedAfter(record: seq<byte>, b: Block, e: Entry, f: Entry, t: nat, x: byte)
    requires t < |record| && Describes(record, b, e) && Describes(record[t := x], b, f)
    requires t < b.offset || b.End() <= t
    ensures e == f
  {
    hide U16;
    assert record[t := x][b.offset + 7..b.End()] == record[b.offset + 7..b.End()];
  }

  lemma {:induction false} FlippedDescribed(record: seq<byte>, b: Block, e: Entry, f: Entry, k: nat, t: nat)
    requires Describes(record, b, e) && IsValueByte(b, k, t)
    requires Describes(record[t := FlipLow(record[t])], b, f)
    ensures k < |e.value| && record[t] == e.value[k] && f == FlippedEntry(e, k)
  {
    hide U16;
    var after := record[t := FlipLow(record[t])];
    assert after[b.offset + 7..b.End()] == record[b.offset + 7..b.End()][k := FlipLow(record[t])];
  }

  lemma {:induction false} StillWellSized(record: seq<byte>, n: nat, i: nat, t: nat, x: byte)
    requires t < |record| && WalkSpec(record, n).Ok? && i < |WalkSpec(record, n).value|
    requires WellSized(record, WalkSpec(record, n).value)
    requires var b := WalkSpec(record, n).value[i]; b.offset + 7 <= t < b.End()
    ensures WellSized(record[t := x], WalkSpec(record, n).value)
    ensures forall j :: 0 <= j < |WalkSpec(record, n).value| && j != i ==>
              var b := WalkSpec(record, n).value[j]; t < b.offset || b.End() <= t
  {
    hide WalkSpec;
    var blocks := WalkSpec(record, n).value;
    RecordTiles(record, n);
    forall j | 0 <= j < |blocks| && j != i
      ensures t < blocks[j].offset || blocks[j].End() <= t
    {
      if j < i { TiledApart(blocks, 0, |record|, j, i); } else { TiledApart(blocks, 0, |record|, i, j); }
    }
  }

  /** One byte of one value changed: the record is read with that entry changed and no other. */
  lemma {:induction false} FlippedRecordReads(record: seq<byte>, n: nat, i: nat, k: nat, t: nat)
    requires Fields(record, n).Closes() && i < |Fields(record, n).walked|
    requires WalkSpec(record, n).Ok? && AllDescribe(record, WalkSpec(record, n).value, Fields(record, n).walked)
    requires t < |record| && IsValueByte(WalkSpec(record, n).value[i], k, t) && WalkSpec(record, n).value[i].value.Some?
    ensures var (w, after) := (Fields(record, n).walked, record[t := FlipLow(record[t])]);
            && k < |w[i].value| && record[t] == w[i].value[k]
            && Fields(after, n).Closes() && Fields(after, n).walked == w[i := FlippedEntry(w[i], k)]
  {
    hide WalkSpec, FieldsSpec, U16, Describes, WellSized, BlockAt, FlippedEntry, FlipLow;
    var after := record[t := FlipLow(record[t])];
    var blocks := WalkSpec(record, n).value;
    WalkedRecordCloses(record, n);
    ValueOfBlock(record, n, i);
    StillWellSized(record, n, i, t, FlipLow(record[t]));
    RecordFlipKeepsWalk(record, n, i, t, FlipLow(record[t]));
    WalkedRecordCloses(after, n);
    assert after[0..|after|] == after;
    ClosingRecordIsWalked(after, 0, |after|, Some(n));
    EntriesAfter(record, blocks, Fields(record, n).walked, Fields(after, n).walked, i, k, t);
  }

  lemma {:induction false} EntriesAfter(record: seq<byte>, blocks: seq<Block>, w: seq<Entry>, v: seq<Entry>, i: nat,
                                        k: nat, t: nat)
    requires t < |record| && AllDescribe(record, blocks, w)
    requires AllDescribe(record[t := FlipLow(record[t])], blocks, v)
    requires i < |blocks| && IsValueByte(blocks[i], k, t)
    requires forall j :: 0 <= j < |blocks| && j != i ==> t < blocks[j].offset || blocks[j].End() <= t
    ensures k < |w[i].value| && record[t] == w[i].value[k] && v == w[i := FlippedEntry(w[i], k)]
  {
    hide U16, Describes;
    var after := record[t := FlipLow(record[t])];
    assert Describes(record, blocks[i], w[i]) && Describes(after, blocks[i], v[i]);
    FlippedDescribed(record, blocks[i], w[i], v[i], k, t);
    forall j | 0 <= j < |w| && j != i
      ensures v[j] == w[j]
    {
      assert Describes(record, blocks[j], w[j]) && Describes(after, blocks[j], v[j]);
      DescribedAfter(record, blocks[j], w[j], v[j], t, FlipLow(record[t]));
    }
    assert v == w[i := FlippedEntry(w[i], k)];
  }

  lemma {:induction false} ValueOfBlock(record: seq<byte>, n: nat, i: nat)
    requires WalkSpec(record, n).Ok? && i < |WalkSpec(record, n).value|
    ensures var b := WalkSpec(record, n).value[i]; b.value.Some? ==> b.value.value.offset == b.offset + 7
  {
    hide WalkSpec, U16;
    RecordTiles(record, n);
    BlockValueAt(record, WalkSpec(record, n).value[i]);
  }

  lemma {:induction false} BlockValueAt(record: seq<byte>, b: Block)
    requires b.offset + 4 <= |record| && b.offset + 4 + U16(record, b.offset + 2) <= |record|
    requires b == BlockAt(record, b.offset)
    ensures b.value.Some? ==> b.value.value.offset == b.offset + 7
  {
  }

  lemma {:induction false} TargetAt(record: seq<byte>, l: Layout, index: int, offset: int, i: nat, e: Entry)
    requires l.recordOffset == 8 && i < |l.blocks| && FindBlock(l.blocks, index) == Some(l.blocks[i])
    requires Describes(record, l.blocks[i], e)
    ensures var target := Target(l, Record(index, offset));
            if e.spec % 2 == 0 then target == Refused(NotDmtfFormat)
            else if !(0 <= offset < |e.value|) then target == Refused(OutsideField)
            else
              && target.Ok? && 8 <= target.value < 8 + |record| && l.blocks[i].value.Some?
              && IsValueByte(l.blocks[i], offset, target.value - 8)
  {
    hide U16, FindBlock;
  }

  /** `--flip-record`: if the other reader closes the record, the byte named is that byte of the
      value of the first entry with the index, and after the flip the record reads as it did but
      for the low bit of that byte. Refused are an index that is not there, an entry not in the
      DMTF format, and an offset outside the value, in this order and nothing else. */
  lemma {:induction false} RecordTamperIsRead(msg: seq<byte>, conv: Learned, index: int, offset: int)
    requires ParseMeasurements(msg, conv).Ok?
    requires var l := ParseMeasurements(msg, conv).value; Fields(RecordOf(msg, l), l.numberOfBlocks).Closes()
    ensures var l := ParseMeasurements(msg, conv).value;
            var n, walked := l.numberOfBlocks, Fields(RecordOf(msg, l), l.numberOfBlocks).walked;
            var target := Target(l, Record(index, offset));
            && ((forall e :: e in walked ==> e.index != index) ==> target == Refused(NoSuchBlock))
            && forall i: nat :: FirstWith(walked, index, i) ==>
                 if walked[i].spec % 2 == 0 then target == Refused(NotDmtfFormat)
                 else if !(0 <= offset < |walked[i].value|) then target == Refused(OutsideField)
                 else
                   && target.Ok? && target.value < |msg| && msg[target.value] == walked[i].value[offset]
                   && var after := RecordOf(Flipped(msg, target.value), l);
                      && Fields(after, n).Closes()
                      && Fields(after, n).walked == walked[i := FlippedEntry(walked[i], offset)]
  {
    hide WalkSpec, FieldsSpec, U16, Fields, ParseMeasurements, FindBlock, Describes, Target;
    var l := ParseMeasurements(msg, conv).value;
    var record := RecordOf(msg, l);
    var n, walked := l.numberOfBlocks, Fields(record, l.numberOfBlocks).walked;
    RecordIsDescribed(msg, conv);
    if forall e :: e in walked ==> e.index != index {
      NoEntryNoBlock(record, l.blocks, walked, index);
      NotFound(l, index, offset);
    }
    forall i: nat | FirstWith(walked, index, i)
      ensures var target := Target(l, Record(index, offset));
              if walked[i].spec % 2 == 0 then target == Refused(NotDmtfFormat)
              else if !(0 <= offset < |walked[i].value|) then target == Refused(OutsideField)
              else
                && target.Ok? && target.value < |msg| && msg[target.value] == walked[i].value[offset]
                && var after := RecordOf(Flipped(msg, target.value), l);
                   Fields(after, n).Closes() && Fields(after, n).walked == walked[i := FlippedEntry(walked[i], offset)]
    {
      FindsFirst(record, l.blocks, walked, index, i);
      assert Describes(record, l.blocks[i], walked[i]);
      TargetAt(record, l, index, offset, i, walked[i]);
      if walked[i].spec % 2 == 1 && 0 <= offset < |walked[i].value| {
        var at := Target(l, Record(index, offset)).value;
        FlippedRecordReads(record, n, i, offset, at - 8);
        assert RecordOf(Flipped(msg, at), l) == record[at - 8 := FlipLow(record[at - 8])];
      }
    }
  }

  lemma {:induction false} NoEntryNoBlock(record: seq<byte>, blocks: seq<Block>, walked: seq<Entry>, index: int)
    requires AllDescribe(record, blocks, walked) && forall e :: e in walked ==> e.index != index
    ensures FindBlock(blocks, index).None?
  {
    hide U16;
    assert forall j :: 0 <= j < |walked| ==> Describes(record, blocks[j], walked[j]) && walked[j] in walked;
    FindsNone(blocks, index);
  }

  lemma {:induction false} NotFound(l: Layout, index: int, offset: int)
    requires FindBlock(l.blocks, index).None?
    ensures Target(l, Record(index, offset)) == Refused(NoSuchBlock)
  {
  }

  /** `--flip-signature`: with the signature the last bytes of the message, exactly the byte at the
      offset changes, counted from its end if negative; an offset outside it is refused. */
  lemma {:induction false} SignatureTamperIsRead(msg: seq<byte>, conv: Learned, offset: int)
    requires ParseMeasurements(msg, conv).Ok?
    ensures var l := ParseMeasurements(msg, conv).value;
            var target, front := Target(l, Signature(offset)), |msg| - l.signatureBytes;
            && l.signatureBytes <= |msg|
            && (target.Ok? <==> 0 <= l.signatureBytes + offset && offset < l.signatureBytes)
            && (target.Refused? ==> target.check == OutsideField)
            && (target.Ok? ==>
                  && target.value < |msg|
                  && var (sig, after) := (msg[front..], Flipped(msg, target.value));
                     && after[..front] == msg[..front]
                     && (offset >= 0 ==> after[front..] == sig[offset := FlipLow(sig[offset])])
                     && (offset < 0 ==> after[front..] == sig[|sig| + offset := FlipLow(sig[|sig| + offset])]))
  {
    hide WalkSpec;
  }

  /** In any record the parser accepts, whether the other reader closes it or not, the byte named
      is that byte of the value of the first block with the index. */
  lemma {:induction false} AnyRecordTamper(msg: seq<byte>, conv: Learned, index: int, offset: nat)
    requires ParseMeasurements(msg, conv).Ok?
    requires Target(ParseMeasurements(msg, conv).value, Record(index, offset)).Ok?
    ensures var l := ParseMeasurements(msg, conv).value;
            var at, b := Target(l, Record(index, offset)).value, FindBlock(l.blocks, index).value;
            var start := 8 + b.offset + 7;
            && at < |msg| && b.value.Some? && offset < b.value.value.bytes && start + b.value.value.bytes <= |msg|
            && var value := msg[start..start + b.value.value.bytes];
               Flipped(msg, at)[start..start + b.value.value.bytes] == value[offset := FlipLow(value[offset])]
  {
    hide WalkSpec, FindBlock, U16, BlockAt;
    var l := ParseMeasurements(msg, conv).value;
    var record := RecordOf(msg, l);
    assert record == msg[8..l.nonceOffset];
    var i := FindBlockAt(l.blocks, index);
    TargetInside(msg, conv, Record(index, offset));
    RecordTiles(record, l.numberOfBlocks);
    ValueOfBlock(record, l.numberOfBlocks, i);
    BlockEnds(record, l.blocks[i]);
  }

  lemma {:induction false} BlockEnds(record: seq<byte>, b: Block)
    requires b.offset + 4 <= |record| && b.offset + 4 + U16(record, b.offset + 2) <= |record|
    requires b == BlockAt(record, b.offset)
    ensures b.value.Some? ==> b.offset + 7 + b.value.value.bytes <= b.End() <= |record|
  {
  }

  /** What the report says of the byte, in its three coordinates: the message, the payload with its
      type byte, and a captured packet with four more bytes in front. */
  lemma {:induction false} ReportIsTrue(w: Watch, f: Frame, header: seq<byte>)
    requires |header| == 4 && w.tamper.None? && ResponderStep(w, f).0.tamper.Some?
    ensures var (t, out) := (ResponderStep(w, f).0.tamper.value, ResponderStep(w, f).1);
            && f.Spdm().Some? && t.inMessage < |f.Spdm().value| && f.Spdm().value[t.inMessage] == t.before
            && t.inPayload < |f.payload| && f.payload[t.inPayload] == t.before && t.after == FlipLow(t.before)
            && out.payload == f.payload[t.inPayload := t.after]
            && header + out.payload == (header + f.payload)[t.inPcapRecord := t.after]
            && out.command == f.command && out.transport == f.transport && t.mode == w.mode
  {
    hide ParseMeasurements, Target;
    var msg := f.Spdm().value;
    TargetInside(msg, w.learned, w.mode);
    var t := ResponderStep(w, f).0.tamper.value;
    assert f.payload[..1] + Flipped(msg, t.inMessage) == f.payload[t.inPayload := t.after];
  }
}
