/**
 harness/fields.py: the second reader of a measurement record and of a MEASUREMENTS message.
 It works on a decode rather than in flight, takes its trip count from the record's length
 rather than from NumberOfBlocks, and has to agree with harness/tamper_proxy.py.
 */
module RecordReaders {
  import opened Bytes
  import opened Measurements
  import Proxy

  const SVN_TYPE := 0x07

  /** One block as `_measurement_record` reports it. */
  datatype Entry = Entry(index: byte, spec: byte, size: nat, kind: byte, value: seq<byte>)
  {
    predicate RawBitStream() { kind >= 0x80 }

    predicate IsSvn() { kind % 0x80 == SVN_TYPE && |value| == 8 }
  }

  datatype Why = OutsideMessage | HeaderPastEnd | BlockPastEnd | BlockTooSmall | SizeDisagrees | CountMismatch

  /** The walk: the blocks in order, the last secure version number, and why it did not close. */
  datatype Walk = Walk(walked: seq<Entry>, svn: Option<nat>, why: Option<Why>)
  {
    predicate Closes() { why.None? }
  }

  /** The record from `off` to `end`, after the blocks in `w`. */
  function FieldsFrom(raw: seq<byte>, off: nat, end: nat, declared: Option<nat>, w: Walk): Walk
    requires off <= end <= |raw|
    decreases end - off
  {
    if off == end then
      if declared.Some? && declared.value != |w.walked| then w.(why := Some(CountMismatch)) else w
    else if off + 4 > end then w.(why := Some(HeaderPastEnd))
    else
      var size := U16(raw, off + 2);
      if off + 4 + size > end then w.(why := Some(BlockPastEnd))
      else if size < 3 then w.(why := Some(BlockTooSmall))
      else
        var valueSize := U16(raw, off + 5);
        if size != 3 + valueSize then w.(why := Some(SizeDisagrees))
        else
          var e := Entry(raw[off], raw[off + 1], size, raw[off + 4], raw[off + 7..off + 7 + valueSize]);
          FieldsFrom(raw, off + 4 + size, end, declared,
                     Walk(w.walked + [e], if e.IsSvn() then Some(LE(e.value)) else w.svn, None))
  }

  function FieldsSpec(raw: seq<byte>, offset: nat, length: nat, declared: Option<nat>): Walk {
    if length <= 0 || offset + length > |raw| then Walk([], None, Some(OutsideMessage))
    else FieldsFrom(raw, offset, offset + length, declared, Walk([], None, None))
  }

  /** `_measurement_record`. Its last test, for a walk that stops short, cannot fail. */
  method MeasurementRecord(raw: seq<byte>, offset: nat, length: nat, declared: Option<nat>) returns (w: Walk)
    ensures w == FieldsSpec(raw, offset, length, declared)
  {
    hide U16, LE;
    w := Walk([], None, None);
    if length <= 0 || offset + length > |raw| {
      return w.(why := Some(OutsideMessage));
    }
    var end := offset + length;
    var off := offset;
    while off < end
      invariant offset <= off <= end && w.why.None?
      invariant FieldsSpec(raw, offset, length, declared) == FieldsFrom(raw, off, end, declared, w)
    {
      if off + 4 > end {
        return w.(why := Some(HeaderPastEnd));
      }
      var index, spec, size := raw[off], raw[off + 1], U16(raw, off + 2);
      if off + 4 + size > end {
        return w.(why := Some(BlockPastEnd));
      }
      if size < 3 {
        return w.(why := Some(BlockTooSmall));
      }
      var kind, valueSize := raw[off + 4], U16(raw, off + 5);
      if size != 3 + valueSize {
        return w.(why := Some(SizeDisagrees));
      }
      var value := raw[off + 7..off + 7 + valueSize];
      var svn := w.svn;
      if kind % 0x80 == SVN_TYPE && valueSize == 8 {
        svn := Some(LE(value));
      }
      w := Walk(w.walked + [Entry(index, spec, size, kind, value)], svn, None);
      off := off + 4 + size;
    }
    if declared.Some? && declared.value != |w.walked| {
      w := w.(why := Some(CountMismatch));
    }
  }

  // ---- the two record readers ---------------------------------------------------------

  /** The two descriptions are of the same block of the record. */
  ghost predicate Describes(record: seq<byte>, b: Block, e: Entry) {
    && b.index == e.index && b.spec == e.spec && b.size == e.size && b.size == 3 + |e.value|
    && b.End() <= |record| && e.value == record[b.offset + 7..b.End()] && |e.value| == U16(record, b.offset + 5)
    && e.kind == record[b.offset + 4]
    && b.value == if b.spec % 2 == 1 then Some(Value(e.kind, |e.value|, b.offset + 7)) else None
  }

  ghost predicate AllDescribe(record: seq<byte>, blocks: seq<Block>, walked: seq<Entry>) {
    |blocks| == |walked| && forall i :: 0 <= i < |blocks| ==> Describes(record, blocks[i], walked[i])
  }

  lemma {:induction false} StepAgrees(raw: seq<byte>, offset: nat, end: nat, p: nat)
    requires offset + p + 4 <= end <= |raw| && offset + p + 4 + U16(raw, offset + p + 2) <= end
    ensures var record := raw[offset..end];
            && p + 4 <= |record| && U16(record, p + 2) == U16(raw, offset + p + 2)
            && (U16(record, p + 2) >= 3 ==> U16(record, p + 5) == U16(raw, offset + p + 5))
            && (U16(record, p + 2) >= 3 && U16(record, p + 2) == 3 + U16(record, p + 5) ==>
                  Describes(record, BlockAt(record, p),
                            Entry(raw[offset + p], raw[offset + p + 1], U16(raw, offset + p + 2), raw[offset + p + 4],
                                  raw[offset + p + 7..offset + p + 7 + U16(raw, offset + p + 5)])))
  {
    var record := raw[offset..end];
    assert record[p] == raw[offset + p] && record[p + 1] == raw[offset + p + 1];
    assert record[p + 2] == raw[offset + p + 2] && record[p + 3] == raw[offset + p + 3];
    var size := U16(record, p + 2);
    if size >= 3 {
      assert record[p + 4] == raw[offset + p + 4];
      assert record[p + 5] == raw[offset + p + 5] && record[p + 6] == raw[offset + p + 6];
      if size == 3 + U16(record, p + 5) {
        SliceOfSlice(raw, offset, end, p + 7, p + 4 + size);
      }
    }
  }

  /** A walk that closes and is not at its end takes a block. */
  lemma {:induction false} ClosingStep(raw: seq<byte>, off: nat, end: nat, declared: Option<nat>, w: Walk)
    requires off < end <= |raw| && FieldsFrom(raw, off, end, declared, w).Closes()
    ensures off + 7 <= end && 3 <= U16(raw, off + 2) == 3 + U16(raw, off + 5)
    ensures off + 4 + U16(raw, off + 2) <= end
    ensures var e := Entry(raw[off], raw[off + 1], U16(raw, off + 2), raw[off + 4],
                           raw[off + 7..off + 7 + U16(raw, off + 5)]);
            FieldsFrom(raw, off, end, declared, w) ==
            FieldsFrom(raw, off + 4 + U16(raw, off + 2), end, declared,
                       Walk(w.walked + [e], if e.IsSvn() then Some(LE(e.value)) else w.svn, None))
  {
    hide U16, LE;
  }

  lemma {:induction false} FieldsThenWalk(raw: seq<byte>, offset: nat, end: nat, p: nat, declared: Option<nat>, w: Walk,
                                          blocks: seq<Block>)
    requires offset + p <= end <= |raw|
    requires FieldsFrom(raw, offset + p, end, declared, w).Closes()
    requires AllDescribe(raw[offset..end], blocks, w.walked)
    ensures var all := FieldsFrom(raw, offset + p, end, declared, w).walked;
            && |all| >= |blocks|
            && WalkFrom(raw[offset..end], p, |all| - |blocks|, blocks).Ok?
            && AllDescribe(raw[offset..end], WalkFrom(raw[offset..end], p, |all| - |blocks|, blocks).value, all)
    decreases end - offset - p
  {
    hide BlockAt, U16, Describes, LE, FieldsFrom;
    if offset + p < end {
      ClosingStep(raw, offset + p, end, declared, w);
      StepAgrees(raw, offset, end, p);
      var record := raw[offset..end];
      var b := BlockAt(record, p);
      var size := U16(raw, offset + p + 2);
      var e := Entry(raw[offset + p], raw[offset + p + 1], size, raw[offset + p + 4],
                     raw[offset + p + 7..offset + p + 7 + U16(raw, offset + p + 5)]);
      var next := Walk(w.walked + [e], if e.IsSvn() then Some(LE(e.value)) else w.svn, None);
      assert offset + (p + 4 + size) == offset + p + 4 + size;
      FieldsThenWalk(raw, offset, end, p + 4 + size, declared, next, blocks + [b]);
    } else {
      NothingLeft(raw, end, declared, w);
    }
  }

  lemma {:induction false} NothingLeft(raw: seq<byte>, end: nat, declared: Option<nat>, w: Walk)
    requires end <= |raw|
    ensures FieldsFrom(raw, end, end, declared, w).walked == w.walked
  {
  }

  /** Whatever the second reader closes, the first accepts with the same blocks: same tiling,
      same index, specification and size, same value span for every DMTF-format block. */
  lemma {:induction false} ClosingRecordIsWalked(raw: seq<byte>, offset: nat, length: nat, declared: Option<nat>)
    requires FieldsSpec(raw, offset, length, declared).Closes()
    ensures var walked := FieldsSpec(raw, offset, length, declared).walked;
            var record := raw[offset..offset + length];
            && WalkSpec(record, |walked|).Ok? && AllDescribe(record, WalkSpec(record, |walked|).value, walked)
            && Tiled(WalkSpec(record, |walked|).value, 0, |record|)
            && (declared.Some? ==> declared.value == |walked|)
  {
    hide BlockAt, U16, Describes, LE;
    FieldsThenWalk(raw, offset, offset + length, 0, declared, Walk([], None, None), []);
    RecordTiles(raw[offset..offset + length], |FieldsSpec(raw, offset, length, declared).walked|);
    ClosingCounts(raw, offset, offset + length, declared, Walk([], None, None));
  }

  lemma {:induction false} ClosingCounts(raw: seq<byte>, off: nat, end: nat, declared: Option<nat>, w: Walk)
    requires off <= end <= |raw| && FieldsFrom(raw, off, end, declared, w).Closes()
    ensures declared.Some? ==> declared.value == |FieldsFrom(raw, off, end, declared, w).walked|
    decreases end - off
  {
    hide U16, LE;
    if off < end {
      var size := U16(raw, off + 2);
      var e := Entry(raw[off], raw[off + 1], size, raw[off + 4], raw[off + 7..off + 7 + U16(raw, off + 5)]);
      ClosingCounts(raw, off + 4 + size, end, declared,
                    Walk(w.walked + [e], if e.IsSvn() then Some(LE(e.value)) else w.svn, None));
    }
  }

  /** Every block carries a DMTF measurement header that fills it. */
  ghost predicate WellSized(record: seq<byte>, blocks: seq<Block>) {
    forall i :: 0 <= i < |blocks| ==>
      && blocks[i].End() <= |record| && blocks[i].size >= 3 && blocks[i].size == 3 + U16(record, blocks[i].offset + 5)
  }

  /** The walk after one more block, and the step that takes it there. */
  function Taken(record: seq<byte>, p: nat, w: Walk): Walk
    requires p + 4 <= |record| && 3 <= U16(record, p + 2) <= |record| - p - 4
    requires U16(record, p + 2) == 3 + U16(record, p + 5)
  {
    var e := Entry(record[p], record[p + 1], U16(record, p + 2), record[p + 4],
                   record[p + 7..p + 7 + U16(record, p + 5)]);
    Walk(w.walked + [e], if e.IsSvn() then Some(LE(e.value)) else w.svn, None)
  }

  lemma {:induction false} FieldsTake(record: seq<byte>, p: nat, declared: Option<nat>, w: Walk)
    requires p + 4 <= |record| && 3 <= U16(record, p + 2) <= |record| - p - 4
    requires U16(record, p + 2) == 3 + U16(record, p + 5)
    ensures FieldsFrom(record, p, |record|, declared, w)
         == FieldsFrom(record, p + 4 + U16(record, p + 2), |record|, declared, Taken(record, p, w))
  {
    hide LE, U16;
  }

  lemma {:induction false} WalkThenFields(record: seq<byte>, p: nat, n: nat, blocks: seq<Block>, w: Walk, total: nat)
    requires p <= |record| && Tiled(blocks, 0, p) && WalkFrom(record, p, n, blocks).Ok?
    requires WellSized(record, WalkFrom(record, p, n, blocks).value)
    requires w.why.None? && |w.walked| == |blocks| && total == |blocks| + n
    ensures FieldsFrom(record, p, |record|, Some(total), w).Closes()
    decreases n
  {
    hide U16, LE, Tiled, BlockAt;
    if n > 0 {
      var b := BlockAt(record, p);
      TiledAppend(blocks, 0, b);
      WalkTiles(record, b.End(), n - 1, blocks + [b]);
      var all := WalkFrom(record, p, n, blocks).value;
      assert all[|blocks|] == all[..|blocks| + 1][|blocks|] == b;
      FieldsTake(record, p, Some(total), w);
      WalkThenFields(record, b.End(), n - 1, blocks + [b], Taken(record, p, w), total);
    } else {
      WalkEmptyEnds(record, p, blocks);
    }
  }

  lemma {:induction false} WalkEmptyEnds(record: seq<byte>, p: nat, blocks: seq<Block>)
    requires WalkFrom(record, p, 0, blocks).Ok?
    ensures p == |record|
  {
  }

  /** The converse, and so exactly when the two readers agree: a record the first accepts is
      closed by the second if and only if it is not empty and every block is filled by its
      DMTF header. */
  lemma {:induction false} WalkedRecordCloses(record: seq<byte>, n: nat)
    requires WalkSpec(record, n).Ok?
    ensures FieldsSpec(record, 0, |record|, Some(n)).Closes()
        <==> record != [] && WellSized(record, WalkSpec(record, n).value)
  {
    hide BlockAt, LE, U16;
    if record != [] && WellSized(record, WalkSpec(record, n).value) {
      WalkThenFields(record, 0, n, [], Walk([], None, None), n);
    }
    if FieldsSpec(record, 0, |record|, Some(n)).Closes() {
      assert record[0..|record|] == record;
      ClosingRecordIsWalked(record, 0, |record|, Some(n));
    }
  }

  // ---- the two message readers --------------------------------------------------------

  /** What `_place_measurements` places. */
  datatype Placed = Placed(blocks: nat, recordBytes: nat, nonceOffset: nat, opaqueLengthOffset: nat, opaqueLength: nat,
                           contextOffset: Option<nat>, signatureOffset: Option<nat>, signatureBytes: nat,
                           signatureRequested: bool)

  datatype Refusal = IndexError | RequestLength | RecordPastMessage | OpaquePastMessage | DoesNotClose | NotAnEcho

  datatype Placement = Settled(placed: Placed) | Declined(why: Refusal)

  function RequestContext(req: seq<byte>): Option<nat>
    requires |req| >= 3
  {
    var fixed := 4 + if req[2] % 2 == 1 then NONCE + 1 else 0;
    var span := |req| - fixed;
    if span == 0 || span == 8 then Some(span) else None
  }

  /** `_place_measurements` with `_settle`; `sig` is the negotiated signature size. */
  function Place(rsp: seq<byte>, req: seq<byte>, sig: Option<nat>): Placement {
    if |req| < 3 then Declined(IndexError)
    else if RequestContext(req).None? then Declined(RequestLength)
    else if |rsp| < 8 then Declined(IndexError)
    else
      var signed := req[2] % 2 == 1;
      var context := RequestContext(req).value;
      var nonce := 8 + U24(rsp, 5);
      if nonce + 32 + 2 > |rsp| then Declined(RecordPastMessage)
      else
        var opaqueLength := U16(rsp, nonce + 32);
        var after := nonce + 34 + opaqueLength;
        if after + context > |rsp| then Declined(OpaquePastMessage)
        else
          var rest := |rsp| - after - context;
          if (if signed then sig else Some(0)) != Some(rest) then Declined(DoesNotClose)
          else if !Echoes(rsp, after, req, context) then Declined(NotAnEcho)
          else Settled(Placed(rsp[4], U24(rsp, 5), nonce, nonce + 32, opaqueLength,
                         if context != 0 then Some(after) else None,
                         if signed then Some(after + context) else None, rest, signed))
  }

  /** The response's RequesterContext at `at` is the request's. */
  predicate Echoes(rsp: seq<byte>, at: nat, req: seq<byte>, context: nat)
    requires |req| >= 3
  {
    var sent := 4 + if req[2] % 2 == 1 then NONCE + 1 else 0;
    Slice(rsp, at, at + context) == Slice(req, sent, sent + context)
  }

  /** Every field both readers name is at the same place. */
  ghost predicate SamePlaces(p: Placed, l: Layout) {
    && p.blocks == l.numberOfBlocks && p.recordBytes == l.recordBytes && p.nonceOffset == l.nonceOffset
    && p.opaqueLengthOffset == l.opaqueLengthOffset && p.opaqueLength == l.opaqueLength
    && p.contextOffset == l.contextOffset && p.signatureBytes == l.signatureBytes
    && (p.signatureRequested ==> p.signatureOffset == Some(l.signatureOffset))
    && (!p.signatureRequested ==> p.signatureOffset.None?)
  }

  /** The two message readers, on the same request and response and the same signature size,
      the in-flight one with what it learned from that request going past: it accepts and the
      context is echoed exactly when the offline one accepts and the record tiles; and then
      every field is at the same offset. */
  lemma {:induction false} MessageReadersAgree(rsp: seq<byte>, req: seq<byte>, sig: nat, l: Learned)
    requires |req| >= 3 && l.signatureBytes == Some(sig) && l.pqcSel == 0
    ensures var place, parse := Place(rsp, req, Some(sig)), ParseMeasurements(rsp, Proxy.AfterGetMeasurements(l, req));
            && ((place.Settled? && WalkSpec(rsp[8..8 + place.placed.recordBytes], place.placed.blocks).Ok?)
                <==> (parse.Ok? && Echoes(rsp, parse.value.opaqueOffset + parse.value.opaqueLength, req,
                                          parse.value.contextBytes)))
            && (place.Settled? && parse.Ok? ==> SamePlaces(place.placed, parse.value))
  {
    hide WalkSpec, Echoes;
  }
}
