/**
 harness/tamper_proxy.py: locating every field of a MEASUREMENTS response from what the
 conversation has shown, and changing one bit of one named byte of it.
 */
module Measurements {
  import opened Bytes

  /** The checks by which the parser and the tamper refuse; Unreadable is an IndexError, and
      NothingPassed what a run reports that met no MEASUREMENTS response. */
  datatype Check =
    | NoAlgorithms | PqcUnsized | NoContext | RecordOverruns | NoRoomAfterRecord | OpaqueOverruns
    | BlockHeaderOverruns | BlockSizeOverruns | DoesNotTile | SignatureLength
    | NoSuchBlock | NotDmtfFormat | OutsideField | Unreadable | NothingPassed

  datatype Result<+T> = Ok(value: T) | Refused(check: Check)

  const NONCE := 32

  function U16(b: seq<byte>, off: nat): nat
    requires off + 2 <= |b|
  {
    b[off] as int + 0x100 * (b[off + 1] as int)
  }

  function U24(b: seq<byte>, off: nat): nat
    requires off + 3 <= |b|
  {
    b[off] as int + 0x100 * (b[off + 1] as int) + 0x1_0000 * (b[off + 2] as int)
  }

  // ---- the measurement record -------------------------------------------------------

  /** The value a verifier would compare, in a block of the DMTF specification format. */
  datatype Value = Value(kind: byte, bytes: nat, offset: nat)

  datatype Block = Block(index: byte, spec: byte, size: nat, offset: nat, value: Option<Value>)
  {
    function End(): nat { offset + 4 + size }
  }

  /** The block at `p`, whose header and body lie inside the record. */
  function BlockAt(record: seq<byte>, p: nat): (b: Block)
    requires p + 4 <= |record| && p + 4 + U16(record, p + 2) <= |record|
    ensures b.offset == p && b.size == U16(record, p + 2)
    ensures b.value.Some? ==> b.value.value.offset == p + 7 && p + 7 + b.value.value.bytes <= b.End()
  {
    var size := U16(record, p + 2);
    var value :=
      if record[p + 1] % 2 == 1 && size >= 3 && 3 + U16(record, p + 5) <= size
      then Some(Value(record[p + 4], U16(record, p + 5), p + 7))
      else None;
    Block(record[p], record[p + 1], size, p, value)
  }

  /** `n` more blocks from `p` on, after those in `blocks`. */
  function WalkFrom(record: seq<byte>, p: nat, n: nat, blocks: seq<Block>): Result<seq<Block>>
    decreases n
  {
    if n == 0 then (if p != |record| then Refused(DoesNotTile) else Ok(blocks))
    else if p + 4 > |record| then Refused(BlockHeaderOverruns)
    else if p + 4 + U16(record, p + 2) > |record| then Refused(BlockSizeOverruns)
    else
      var b := BlockAt(record, p);
      WalkFrom(record, b.End(), n - 1, blocks + [b])
  }

  function WalkSpec(record: seq<byte>, n: nat): Result<seq<Block>> {
    WalkFrom(record, 0, n, [])
  }

  /** `walk_record` */
  method WalkRecord(record: seq<byte>, numberOfBlocks: nat) returns (r: Result<seq<Block>>)
    ensures r == WalkSpec(record, numberOfBlocks)
  {
    var blocks: seq<Block> := [];
    var p: nat := 0;
    for i := 0 to numberOfBlocks
      invariant WalkSpec(record, numberOfBlocks) == WalkFrom(record, p, numberOfBlocks - i, blocks)
    {
      if p + 4 > |record| {
        return Refused(BlockHeaderOverruns);
      }
      var index, spec, size := record[p], record[p + 1], U16(record, p + 2);
      if p + 4 + size > |record| {
        return Refused(BlockSizeOverruns);
      }
      var body := record[p + 4..p + 4 + size];
      var value: Option<Value> := None;
      if spec % 2 == 1 && size >= 3 {
        var valueSize := U16(body, 1);
        if 3 + valueSize <= size {
          value := Some(Value(body[0], valueSize, p + 4 + 3));
        }
      }
      blocks := blocks + [Block(index, spec, size, p, value)];
      p := p + 4 + size;
    }
    if p != |record| {
      return Refused(DoesNotTile);
    }
    r := Ok(blocks);
  }

  // ---- the message ------------------------------------------------------------------

  /** What the proxy has learned by watching. */
  datatype Learned = Learned(version: Option<byte>, asymSel: Option<nat>, signatureBytes: Option<nat>, pqcSel: nat,
                             contextBytes: Option<nat>, signatureRequested: Option<bool>, notes: nat)

  datatype Layout = Layout(spdmBytes: nat, numberOfBlocks: nat, recordBytes: nat, recordOffset: nat, nonceOffset: nat,
                           opaqueLengthOffset: nat, opaqueLength: nat, opaqueOffset: nat,
                           contextOffset: Option<nat>, contextBytes: nat, signatureOffset: nat, signatureBytes: nat,
                           blocks: seq<Block>)

  /** `parse_measurements`, without the digest of the record. */
  function ParseMeasurements(msg: seq<byte>, conv: Learned): (r: Result<Layout>)
    ensures r.Ok? ==>
              && r.value.spdmBytes == |msg| && r.value.recordOffset == 8 &&
                 8 + r.value.recordBytes <= r.value.nonceOffset
              && r.value.nonceOffset + NONCE <= r.value.signatureOffset
              && r.value.signatureOffset + r.value.signatureBytes == |msg|
  {
    if conv.signatureBytes.None? then Refused(NoAlgorithms)
    else if conv.pqcSel != 0 then Refused(PqcUnsized)
    else if conv.contextBytes.None? then Refused(NoContext)
    else if |msg| < 8 then Refused(Unreadable)
    else
      var want := if conv.signatureRequested == Some(true) then conv.signatureBytes.value else 0;
      var context := conv.contextBytes.value;
      var n, recordBytes := msg[4], U24(msg, 5);
      var nonce := 8 + recordBytes;
      if nonce > |msg| then Refused(RecordOverruns)
      else if nonce + NONCE + 2 > |msg| then Refused(NoRoomAfterRecord)
      else
        var opaqueLength := U16(msg, nonce + NONCE);
        var opaque_ := nonce + NONCE + 2;
        var after := opaque_ + opaqueLength;
        if after + context > |msg| then Refused(OpaqueOverruns)
        else
          match WalkSpec(msg[8..nonce], n)
          case Refused(check) => Refused(check)
          case Ok(blocks) =>
            var signature := after + context;
            if |msg| - signature != want then Refused(SignatureLength)
            else
              Ok(Layout(|msg|, n, recordBytes, 8, nonce, nonce + NONCE, opaqueLength, opaque_,
                        if context != 0 then Some(after) else None, context, signature, want, blocks))
  }

  // ---- the tamper -------------------------------------------------------------------

  datatype Mode = Passthrough | Record(block: int, offset: int) | Signature(offset: int)

  datatype Tamper = Tamper(mode: Mode, inMessage: nat, inPayload: nat, inPcapRecord: nat, before: byte, after: byte)

  /** The first block with this index. */
  function FindBlock(blocks: seq<Block>, index: int): Option<Block> {
    if blocks == [] then None
    else if blocks[0].index == index then Some(blocks[0])
    else FindBlock(blocks[1..], index)
  }

  /** The byte a mode names, by its offset in the message. */
  function Target(layout: Layout, mode: Mode): Result<nat>
    requires !mode.Passthrough?
  {
    match mode
    case Record(index, offset) =>
      var found := FindBlock(layout.blocks, index);
      if found.None? then Refused(NoSuchBlock)
      else if found.value.value.None? then Refused(NotDmtfFormat)
      else if !(0 <= offset < found.value.value.value.bytes) then Refused(OutsideField)
      else Ok(layout.recordOffset + found.value.value.value.offset + offset)
    case Signature(offset) =>
      var at := if offset >= 0 then offset else layout.signatureBytes + offset;
      if !(0 <= at < layout.signatureBytes) then Refused(OutsideField)
      else Ok(layout.signatureOffset + at)
  }

  function Flipped(msg: seq<byte>, at: nat): seq<byte>
    requires at < |msg|
  {
    msg[at := FlipLow(msg[at])]
  }

  /** `apply_tamper`, in place. The layout is one the parser gave for this message. */
  method ApplyTamper(msg: array<byte>, layout: Layout, mode: Mode, ghost conv: Learned) returns (r: Result<Tamper>)
    requires !mode.Passthrough? && ParseMeasurements(msg[..], conv) == Ok(layout)
    modifies msg
    ensures match Target(layout, mode)
            case Refused(check) => r == Refused(check) && msg[..] == old(msg[..])
            case Ok(at) =>
              && at < msg.Length && msg[..] == Flipped(old(msg[..]), at)
              && r == Ok(Tamper(mode, at, at + 1, at + 5, old(msg[at]), FlipLow(old(msg[at]))))
  {
    TargetInside(msg[..], conv, mode);
    var target;
    match mode {
      case Record(index, offset) =>
        var found := FindBlock(layout.blocks, index);
        if found.None? {
          return Refused(NoSuchBlock);
        }
        var value := found.value.value;
        if value.None? {
          return Refused(NotDmtfFormat);
        }
        if !(0 <= offset < value.value.bytes) {
          return Refused(OutsideField);
        }
        target := layout.recordOffset + value.value.offset + offset;
      case Signature(offset) =>
        var n := layout.signatureBytes;
        var idx := if offset >= 0 then offset else n + offset;
        if !(0 <= idx < n) {
          return Refused(OutsideField);
        }
        target := layout.signatureOffset + idx;
    }
    var before := msg[target];
    msg[target] := FlipLow(before);
    r := Ok(Tamper(mode, target, target + 1, target + 5, before, msg[target]));
  }

  // ---- tiling -----------------------------------------------------------------------

  /** The blocks stand one after another from `p` to `end`. */
  ghost predicate Tiled(blocks: seq<Block>, p: nat, end: nat)
    decreases |blocks|
  {
    if blocks == [] then p == end
    else blocks[0].offset == p && Tiled(blocks[1..], blocks[0].End(), end)
  }

  lemma {:induction false} TiledAppend(blocks: seq<Block>, p: nat, b: Block)
    requires Tiled(blocks, p, b.offset)
    ensures Tiled(blocks + [b], p, b.End())
    decreases |blocks|
  {
    if blocks != [] {
      TiledAppend(blocks[1..], blocks[0].End(), b);
      assert (blocks + [b])[1..] == blocks[1..] + [b];
    }
  }

  lemma {:induction false} WalkTiles(record: seq<byte>, p: nat, n: nat, blocks: seq<Block>)
    requires p <= |record| && Tiled(blocks, 0, p) && WalkFrom(record, p, n, blocks).Ok?
    ensures var all := WalkFrom(record, p, n, blocks).value;
            && Tiled(all, 0, |record|) && |all| == |blocks| + n && all[..|blocks|] == blocks
            && forall i :: |blocks| <= i < |all| ==>
                 && all[i].End() <= |record|
                 && all[i].size == U16(record, all[i].offset + 2) && all[i] == BlockAt(record, all[i].offset)
    decreases n
  {
    hide BlockAt;
    if n > 0 {
      var b := BlockAt(record, p);
      TiledAppend(blocks, 0, b);
      WalkTiles(record, b.End(), n - 1, blocks + [b]);
      var all := WalkFrom(record, p, n, blocks).value;
      assert all[..|blocks|] == all[..|blocks| + 1][..|blocks|];
      assert all[|blocks|] == all[..|blocks| + 1][|blocks|] == b;
    } else {
      assert blocks[..|blocks|] == blocks;
    }
  }

  /** Blocks of a tiling do not overlap. */
  lemma {:induction false} TiledApart(blocks: seq<Block>, p: nat, end: nat, i: nat, j: nat)
    requires Tiled(blocks, p, end) && i < j < |blocks|
    ensures p <= blocks[i].offset && blocks[i].End() <= blocks[j].offset && blocks[j].End() <= end
    decreases |blocks|
  {
    if i > 0 {
      TiledApart(blocks[1..], blocks[0].End(), end, i - 1, j - 1);
    } else {
      TiledFrom(blocks[1..], blocks[0].End(), end, j - 1);
    }
  }

  lemma {:induction false} TiledFrom(blocks: seq<Block>, p: nat, end: nat, j: nat)
    requires Tiled(blocks, p, end) && j < |blocks|
    ensures p <= blocks[j].offset && blocks[j].End() <= end
    decreases |blocks|
  {
    if j > 0 {
      TiledFrom(blocks[1..], blocks[0].End(), end, j - 1);
    } else {
      TiledEnds(blocks[1..], blocks[0].End(), end);
    }
  }

  lemma {:induction false} TiledEnds(blocks: seq<Block>, p: nat, end: nat)
    requires Tiled(blocks, p, end)
    ensures p <= end
    decreases |blocks|
  {
    if blocks != [] {
      TiledEnds(blocks[1..], blocks[0].End(), end);
    }
  }

  lemma {:induction false} FindBlockAt(blocks: seq<Block>, index: int) returns (i: nat)
    requires FindBlock(blocks, index).Some?
    ensures i < |blocks| && FindBlock(blocks, index) == Some(blocks[i]) && blocks[i].index == index
    ensures forall j :: 0 <= j < i ==> blocks[j].index != index
  {
    if blocks[0].index == index {
      i := 0;
    } else {
      i := FindBlockAt(blocks[1..], index);
      i := i + 1;
    }
  }

  // ---- what a tamper leaves alone -----------------------------------------------------

  /** Changing byte `t` cannot change how `b` reads: it is outside the block or in its value. */
  ghost predicate Safe(b: Block, t: nat) {
    t < b.offset || t >= b.End() || (b.value.Some? && t >= b.value.value.offset)
  }

  lemma {:induction false} SameBlock(record: seq<byte>, p: nat, t: nat, x: byte)
    requires t < |record| && p + 4 <= |record| && p + 4 + U16(record, p + 2) <= |record|
    requires Safe(BlockAt(record, p), t)
    ensures U16(record[t := x], p + 2) == U16(record, p + 2)
    ensures BlockAt(record[t := x], p) == BlockAt(record, p)
  {
  }

  lemma {:induction false} SameWalk(record: seq<byte>, p: nat, n: nat, blocks: seq<Block>, t: nat, x: byte)
    requires t < |record| && p <= |record| && Tiled(blocks, 0, p) && WalkFrom(record, p, n, blocks).Ok?
    requires forall i :: |blocks| <= i < |WalkFrom(record, p, n, blocks).value| ==>
               Safe(WalkFrom(record, p, n, blocks).value[i], t)
    ensures WalkFrom(record[t := x], p, n, blocks) == WalkFrom(record, p, n, blocks)
    decreases n
  {
    hide BlockAt, Safe;
    if n > 0 {
      var b := BlockAt(record, p);
      TiledAppend(blocks, 0, b);
      WalkTiles(record, b.End(), n - 1, blocks + [b]);
      var all := WalkFrom(record, p, n, blocks).value;
      assert all[|blocks|] == all[..|blocks| + 1][|blocks|] == b;
      SameBlock(record, p, t, x);
      SameWalk(record, b.End(), n - 1, blocks + [b], t, x);
    }
  }

  /** Where the named byte is: in the value of the first block with the index, or in the
      signature. */
  lemma {:induction false} TargetInside(msg: seq<byte>, conv: Learned, mode: Mode)
    requires !mode.Passthrough? && ParseMeasurements(msg, conv).Ok?
    ensures var layout := ParseMeasurements(msg, conv).value;
            Target(layout, mode).Ok? ==>
              && Target(layout, mode).value < |msg|
              && (mode.Signature? ==> layout.signatureOffset <= Target(layout, mode).value)
              && (mode.Record? ==>
                    exists i :: 0 <= i < |layout.blocks| && InValue(layout, i, mode.block, Target(layout, mode).value))
  {
    hide WalkSpec, FindBlock;
    var layout := ParseMeasurements(msg, conv).value;
    if mode.Record? && Target(layout, mode).Ok? {
      var record := msg[8..layout.nonceOffset];
      var i := FindBlockAt(layout.blocks, mode.block);
      RecordTiles(record, layout.numberOfBlocks);
      TiledFrom(layout.blocks, 0, |record|, i);
      assert InValue(layout, i, mode.block, Target(layout, mode).value);
    }
  }

  lemma {:induction false} RecordTiles(record: seq<byte>, n: nat)
    requires WalkSpec(record, n).Ok?
    ensures var blocks := WalkSpec(record, n).value;
            && Tiled(blocks, 0, |record|) && |blocks| == n
            && forall i :: 0 <= i < |blocks| ==>
                 && blocks[i].End() <= |record|
                 && blocks[i].size == U16(record, blocks[i].offset + 2) &&
                    blocks[i] == BlockAt(record, blocks[i].offset)
  {
    WalkTiles(record, 0, n, []);
  }

  /** Message byte `at` is in the value of block `i`, the first with this index. */
  ghost predicate InValue(layout: Layout, i: nat, index: int, at: nat)
    requires i < |layout.blocks|
  {
    var b := layout.blocks[i];
    && b.index == index && (forall j :: 0 <= j < i ==> layout.blocks[j].index != index)
    && b.value.Some?
    && 8 + b.value.value.offset <= at < 8 + b.value.value.offset + b.value.value.bytes
    && at < 8 + b.End() <= layout.nonceOffset
  }

  lemma {:induction false} RecordFlipKeepsWalk(record: seq<byte>, n: nat, i: nat, t: nat, x: byte)
    requires t < |record| && WalkSpec(record, n).Ok? && i < |WalkSpec(record, n).value|
    requires var b := WalkSpec(record, n).value[i];
             b.value.Some? && b.value.value.offset <= t < b.End()
    ensures WalkSpec(record[t := x], n) == WalkSpec(record, n)
  {
    hide BlockAt;
    var blocks := WalkSpec(record, n).value;
    RecordTiles(record, n);
    forall j | 0 <= j < |blocks|
      ensures Safe(blocks[j], t)
    {
      if j < i { TiledApart(blocks, 0, |record|, j, i); }
      if i < j { TiledApart(blocks, 0, |record|, i, j); }
    }
    SameWalk(record, 0, n, [], t, x);
  }

  /** A tamper never changes how the message reads: it closes again with the same layout,
      names the same byte, and applying it twice restores the message. */
  lemma {:induction false} TamperKeepsReading(msg: seq<byte>, conv: Learned, mode: Mode)
    requires !mode.Passthrough? && ParseMeasurements(msg, conv).Ok?
    requires Target(ParseMeasurements(msg, conv).value, mode).Ok?
    ensures var layout := ParseMeasurements(msg, conv).value;
            var at := Target(layout, mode).value;
            && at < |msg| && Flipped(msg, at) != msg
            && ParseMeasurements(Flipped(msg, at), conv) == Ok(layout)
            && Flipped(Flipped(msg, at), at) == msg
  {
    hide WalkSpec, FindBlock;
    var layout := ParseMeasurements(msg, conv).value;
    var at := Target(layout, mode).value;
    TargetInside(msg, conv, mode);
    var after := Flipped(msg, at);
    var record := msg[8..layout.nonceOffset];
    if mode.Record? {
      var i :| 0 <= i < |layout.blocks| && InValue(layout, i, mode.block, at);
      assert after[8..layout.nonceOffset] == record[at - 8 := FlipLow(msg[at])];
      RecordFlipKeepsWalk(record, layout.numberOfBlocks, i, at - 8, FlipLow(msg[at]));
    } else {
      assert after[8..layout.nonceOffset] == record;
    }
  }

  /** What else stays: the other region and every other block, byte for byte. */
  lemma {:induction false} TamperLeavesTheRest(msg: seq<byte>, conv: Learned, mode: Mode, j: nat)
    requires !mode.Passthrough? && ParseMeasurements(msg, conv).Ok?
    requires Target(ParseMeasurements(msg, conv).value, mode).Ok?
    requires j < |ParseMeasurements(msg, conv).value.blocks|
    requires var blocks := ParseMeasurements(msg, conv).value.blocks;
             mode.Record? ==> FindBlock(blocks, mode.block) != Some(blocks[j])
    ensures var layout := ParseMeasurements(msg, conv).value;
            var at := Target(layout, mode).value;
            var b := layout.blocks[j];
            && at < |msg| && b.End() <= layout.recordBytes
            && Flipped(msg, at)[8 + b.offset..8 + b.End()] == msg[8 + b.offset..8 + b.End()]
            && (mode.Record? ==> Flipped(msg, at)[layout.nonceOffset..] == msg[layout.nonceOffset..])
            && (mode.Signature? ==> Flipped(msg, at)[..layout.signatureOffset] == msg[..layout.signatureOffset])
  {
    hide WalkSpec;
    var layout := ParseMeasurements(msg, conv).value;
    var at := Target(layout, mode).value;
    TargetInside(msg, conv, mode);
    var record := msg[8..layout.nonceOffset];
    RecordTiles(record, layout.numberOfBlocks);
    TiledFrom(layout.blocks, 0, |record|, j);
    if mode.Record? {
      var i := FindBlockAt(layout.blocks, mode.block);
      TiledFrom(layout.blocks, 0, |record|, i);
      if i < j { TiledApart(layout.blocks, 0, |record|, i, j); }
      if j < i { TiledApart(layout.blocks, 0, |record|, j, i); }
    }
  }
}
