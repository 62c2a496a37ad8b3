/**
 device/gen_measurements.py: the writer of the measurement fixture, its own reader, and
 what it says a byte of the file is.
 */
module Fixture {
  import opened Bytes

  const MAGIC: seq<byte> := [0x4D, 0x53, 0x52, 0x31]
  const FORMAT_VERSION := 1
  const HEADER := 16
  const DESCRIPTOR := 8

  // ---- writing ----------------------------------------------------------------------

  type Item = (int, seq<byte>)

  /** A dict, as its items in insertion order. */
  ghost predicate IsDict(items: seq<Item>) {
    forall i, j :: 0 <= i < j < |items| ==> items[i].0 != items[j].0
  }

  ghost predicate Ascending(items: seq<Item>) {
    forall i, j :: 0 <= i < j < |items| ==> items[i].0 < items[j].0
  }

  function Insert(item: Item, items: seq<Item>): seq<Item> {
    if items == [] || item.0 < items[0].0 then [item] + items else [items[0]] + Insert(item, items[1..])
  }

  /** `sorted(blocks.items())`: the keys of a dict differ, so values are never compared. */
  function Sorted(items: seq<Item>): seq<Item> {
    if items == [] then [] else Insert(items[0], Sorted(items[1..]))
  }

  /** Unpackable is `struct.error`. */
  datatype Image = Built(raw: seq<byte>) | BadIndex(index: int) | TooLong(index: int) | Unpackable

  function Header(svn: nat, count: nat): (h: seq<byte>)
    ensures |h| == HEADER
  {
    MAGIC + ToLE(FORMAT_VERSION, 2) + ToLE(count, 2) + ToLE(svn, 8)
  }

  function Descriptor(index: byte, length: nat, offset: nat): (d: seq<byte>)
    ensures |d| == DESCRIPTOR
  {
    [index, 0] + ToLE(length, 2) + ToLE(offset, 4)
  }

  /** The rest of the items, after `out` and `payload` have been written. */
  function Emit(items: seq<Item>, tableEnd: nat, out: seq<byte>, payload: seq<byte>): Image {
    if items == [] then Built(out + payload)
    else
      var (index, value) := items[0];
      if !(1 <= index <= 0xFE) then BadIndex(index)
      else if |value| > 0xFFFF then TooLong(index)
      else if tableEnd + |payload| >= 0x1_0000_0000 then Unpackable
      else Emit(items[1..], tableEnd, out + Descriptor(index, |value|, tableEnd + |payload|), payload + value)
  }

  function BuildSpec(svn: int, blocks: seq<Item>): Image {
    var ordered := Sorted(blocks);
    if |ordered| > 0xFFFF || !(0 <= svn < 0x1_0000_0000_0000_0000) then Unpackable
    else Emit(ordered, HEADER + DESCRIPTOR * |ordered|, Header(svn, |ordered|), [])
  }

  /** `build` */
  method Build(svn: int, blocks: seq<Item>) returns (r: Image)
    ensures r == BuildSpec(svn, blocks)
  {
    var ordered := Sorted(blocks);
    var tableEnd := HEADER + DESCRIPTOR * |ordered|;
    var out := MAGIC;
    if |ordered| > 0xFFFF {
      return Unpackable;
    }
    out := out + ToLE(FORMAT_VERSION, 2) + ToLE(|ordered|, 2);
    if !(0 <= svn < 0x1_0000_0000_0000_0000) {
      return Unpackable;
    }
    out := out + ToLE(svn, 8);
    var payload: seq<byte> := [];
    for i := 0 to |ordered|
      invariant BuildSpec(svn, blocks) == Emit(ordered[i..], tableEnd, out, payload)
    {
      var (index, value) := ordered[i];
      assert ordered[i..][1..] == ordered[i + 1..];
      if !(1 <= index <= 0xFE) {
        return BadIndex(index);
      }
      if |value| > 0xFFFF {
        return TooLong(index);
      }
      if tableEnd + |payload| >= 0x1_0000_0000 {
        return Unpackable;
      }
      out := out + Descriptor(index, |value|, tableEnd + |payload|);
      payload := payload + value;
    }
    r := Built(out + payload);
  }

  // ---- reading ----------------------------------------------------------------------

  datatype Block = Block(index: byte, length: nat, offset: nat, value: seq<byte>, descriptorOffset: nat)

  datatype Info = Info(svn: nat, count: nat, tableEnd: nat, blocks: seq<Block>)

  datatype Reason = HeaderShort | BadMagic | BadVersion | TableShort | ReservedSet | OutOfRange

  datatype Parsed = Read(info: Info) | Refused(reason: Reason)

  function Count(raw: seq<byte>): nat
    requires |raw| >= HEADER
  {
    LE(raw[6..8])
  }

  function Svn(raw: seq<byte>): nat
    requires |raw| >= HEADER
  {
    LE(raw[8..16])
  }

  function TableEnd(raw: seq<byte>): (end: nat)
    requires |raw| >= HEADER
    ensures end >= HEADER
  {
    HEADER + DESCRIPTOR * Count(raw)
  }

  predicate HasDescriptor(raw: seq<byte>, i: nat) {
    HEADER + DESCRIPTOR * i + DESCRIPTOR <= |raw|
  }

  function Index(raw: seq<byte>, i: nat): byte
    requires HasDescriptor(raw, i)
  {
    raw[HEADER + DESCRIPTOR * i]
  }

  function Reserved(raw: seq<byte>, i: nat): byte
    requires HasDescriptor(raw, i)
  {
    raw[HEADER + DESCRIPTOR * i + 1]
  }

  function Length(raw: seq<byte>, i: nat): nat
    requires HasDescriptor(raw, i)
  {
    var d := HEADER + DESCRIPTOR * i;
    LE(raw[d + 2..d + 4])
  }

  function Offset(raw: seq<byte>, i: nat): nat
    requires HasDescriptor(raw, i)
  {
    var d := HEADER + DESCRIPTOR * i;
    LE(raw[d + 4..d + 8])
  }

  /** The block descriptor `i` claims; slicing clips, but the parser has refused by then. */
  function BlockAt(raw: seq<byte>, i: nat): Block
    requires HasDescriptor(raw, i)
  {
    var offset, length := Offset(raw, i), Length(raw, i);
    Block(Index(raw, i), length, offset, Slice(raw, offset, offset + length), HEADER + DESCRIPTOR * i)
  }

  function ParseFrom(raw: seq<byte>, i: nat, blocks: seq<Block>): Parsed
    requires |raw| >= HEADER && i <= Count(raw) && TableEnd(raw) <= |raw|
    decreases Count(raw) - i
  {
    if i == Count(raw) then Read(Info(Svn(raw), Count(raw), TableEnd(raw), blocks))
    else if Reserved(raw, i) != 0 then Refused(ReservedSet)
    else if Offset(raw, i) > |raw| || Length(raw, i) > |raw| - Offset(raw, i) then Refused(OutOfRange)
    else ParseFrom(raw, i + 1, blocks + [BlockAt(raw, i)])
  }

  function ParseSpec(raw: seq<byte>): Parsed {
    if |raw| < HEADER then Refused(HeaderShort)
    else if raw[..4] != MAGIC then Refused(BadMagic)
    else if LE(raw[4..6]) != FORMAT_VERSION then Refused(BadVersion)
    else if TableEnd(raw) > |raw| then Refused(TableShort)
    else ParseFrom(raw, 0, [])
  }

  lemma {:induction false} SliceInside<T>(s: seq<T>, lo: nat, hi: nat)
    requires lo <= hi <= |s|
    ensures Slice(s, lo, hi) == s[lo..hi]
  {
  }

  /** `parse` */
  method Parse(raw: seq<byte>) returns (r: Parsed)
    ensures r == ParseSpec(raw)
  {
    hide LE, Slice;
    if |raw| < HEADER {
      return Refused(HeaderShort);
    }
    if raw[..4] != MAGIC {
      return Refused(BadMagic);
    }
    var version, count, svn := LE(raw[4..6]), LE(raw[6..8]), LE(raw[8..16]);
    if version != FORMAT_VERSION {
      return Refused(BadVersion);
    }
    var tableEnd := HEADER + DESCRIPTOR * count;
    if tableEnd > |raw| {
      return Refused(TableShort);
    }
    var blocks: seq<Block> := [];
    for i := 0 to count
      invariant ParseSpec(raw) == ParseFrom(raw, i, blocks)
    {
      var d := HEADER + DESCRIPTOR * i;
      assert HasDescriptor(raw, i);
      var index, reserved, length, offset := raw[d], raw[d + 1], LE(raw[d + 2..d + 4]), LE(raw[d + 4..d + 8]);
      if reserved != 0 {
        return Refused(ReservedSet);
      }
      if offset > |raw| || length > |raw| - offset {
        return Refused(OutOfRange);
      }
      SliceInside(raw, offset, offset + length);
      blocks := blocks + [Block(index, length, offset, raw[offset..offset + length], d)];
    }
    r := Read(Info(svn, count, tableEnd, blocks));
  }

  // ---- what a byte of the file is -----------------------------------------------------

  datatype Place =
    | Magic(at: nat) | Version(at: nat) | BlockCount(at: nat) | SvnByte(at: nat)
    | Field(descriptor: nat, at: nat) | ValueByte(block: nat, at: nat) | Nowhere

  /** The first block from `i` on whose value covers the offset. */
  function Covering(blocks: seq<Block>, i: nat, offset: nat): (p: Place)
    requires i <= |blocks|
    ensures p.ValueByte? ==>
              && i <= p.block < |blocks| && blocks[p.block].offset + p.at == offset && p.at < blocks[p.block].length
    ensures p.ValueByte? || p == Nowhere
    ensures p == Nowhere ==> forall j :: i <= j < |blocks| ==> !Covers(blocks[j], offset)
    decreases |blocks| - i
  {
    if i == |blocks| then Nowhere
    else if Covers(blocks[i], offset) then ValueByte(i, offset - blocks[i].offset)
    else Covering(blocks, i + 1, offset)
  }

  predicate Covers(b: Block, offset: nat) {
    b.offset <= offset < b.offset + b.length
  }

  /** `locate` */
  function Locate(info: Info, offset: nat): Place {
    if offset < 4 then Magic(offset)
    else if offset < 6 then Version(offset - 4)
    else if offset < 8 then BlockCount(offset - 6)
    else if offset < 16 then SvnByte(offset - 8)
    else if offset < info.tableEnd then Field((offset - HEADER) / DESCRIPTOR, (offset - HEADER) % DESCRIPTOR)
    else Covering(info.blocks, 0, offset)
  }

  // ---- when the reader accepts ---------------------------------------------------------

  ghost predicate HeaderReads(raw: seq<byte>) {
    && |raw| >= HEADER && raw[..4] == MAGIC && LE(raw[4..6]) == FORMAT_VERSION && TableEnd(raw) <= |raw|
  }

  /** Descriptor `i` is one the reader takes. */
  ghost predicate Readable(raw: seq<byte>, i: nat)
    requires HasDescriptor(raw, i)
  {
    Reserved(raw, i) == 0 && Offset(raw, i) + Length(raw, i) <= |raw|
  }

  ghost function Blocks(raw: seq<byte>, n: nat): (bs: seq<Block>)
    requires HEADER + DESCRIPTOR * n <= |raw|
    ensures |bs| == n && forall i :: 0 <= i < n ==> bs[i] == BlockAt(raw, i)
  {
    if n == 0 then [] else Blocks(raw, n - 1) + [BlockAt(raw, n - 1)]
  }

  lemma {:induction false} ParseFromExactly(raw: seq<byte>, i: nat)
    requires HeaderReads(raw) && i <= Count(raw)
    ensures var r := ParseFrom(raw, i, Blocks(raw, i));
            && (r.Read? <==> forall j :: i <= j < Count(raw) ==> Readable(raw, j))
            && (r.Read? ==> r.info == Info(Svn(raw), Count(raw), TableEnd(raw), Blocks(raw, Count(raw))))
    decreases Count(raw) - i
  {
    hide LE, Slice, Index, Reserved, Offset, Length;
    if i < Count(raw) {
      if Readable(raw, i) {
        ParseFromExactly(raw, i + 1);
      }
    }
  }

  /** What the reader accepts, and what it then says, from the bytes alone. */
  lemma {:induction false} ParseExactly(raw: seq<byte>)
    ensures ParseSpec(raw).Read? <==>
            HeaderReads(raw) && forall i :: 0 <= i < Count(raw) ==> Readable(raw, i)
    ensures ParseSpec(raw).Read? ==>
              ParseSpec(raw).info == Info(Svn(raw), Count(raw), TableEnd(raw), Blocks(raw, Count(raw)))
  {
    hide LE, ParseFrom, Readable, BlockAt;
    if HeaderReads(raw) {
      ParseFromExactly(raw, 0);
      assert Blocks(raw, 0) == [];
      assert ParseSpec(raw) == ParseFrom(raw, 0, []);
    }
  }

  /** Why the reader refuses: the first check of the header that fails, and then what is wrong with
      the first descriptor it does not take. */
  lemma {:induction false} ReaderReasonExactly(raw: seq<byte>)
    ensures ParseSpec(raw) == Refused(HeaderShort) <==> |raw| < 16
    ensures ParseSpec(raw) == Refused(BadMagic) <==> |raw| >= 16 && raw[..4] != [0x4D, 0x53, 0x52, 0x31]
    ensures ParseSpec(raw) == Refused(BadVersion) <==>
            |raw| >= 16 && raw[..4] == [0x4D, 0x53, 0x52, 0x31] && LE(raw[4..6]) != 1
    ensures ParseSpec(raw) == Refused(TableShort) <==>
            && |raw| >= 16 && raw[..4] == [0x4D, 0x53, 0x52, 0x31] && LE(raw[4..6]) == 1
            && 16 + 8 * LE(raw[6..8]) > |raw|
    ensures ParseSpec(raw) == Refused(ReservedSet) <==>
            HeaderReads(raw) && exists i :: FirstRefused(raw, i) && Reserved(raw, i) != 0
    ensures ParseSpec(raw) == Refused(OutOfRange) <==>
            HeaderReads(raw) && exists i :: FirstRefused(raw, i) && Reserved(raw, i) == 0
  {
    hide LE, ParseFrom, FirstRefused;
    if HeaderReads(raw) {
      ReasonFrom(raw, 0, []);
    }
  }

  /** Descriptor `i` is the first the reader does not take. */
  ghost predicate FirstRefused(raw: seq<byte>, i: nat) {
    && |raw| >= HEADER && TableEnd(raw) <= |raw| && i < Count(raw) && !Readable(raw, i)
    && forall j :: 0 <= j < i ==> Readable(raw, j)
  }

  lemma {:induction false} ReasonFrom(raw: seq<byte>, i: nat, blocks: seq<Block>)
    requires HeaderReads(raw) && i <= Count(raw) && forall j :: 0 <= j < i ==> Readable(raw, j)
    ensures ParseFrom(raw, i, blocks) == Refused(ReservedSet) <==>
            exists j :: FirstRefused(raw, j) && Reserved(raw, j) != 0
    ensures ParseFrom(raw, i, blocks) == Refused(OutOfRange) <==>
            exists j :: FirstRefused(raw, j) && Reserved(raw, j) == 0
    ensures ParseFrom(raw, i, blocks).Read? || ParseFrom(raw, i, blocks) in [Refused(ReservedSet), Refused(OutOfRange)]
    decreases Count(raw) - i
  {
    hide LE, Index, Reserved, Offset, Length, Slice;
    if i < Count(raw) {
      if Readable(raw, i) {
        ReasonFrom(raw, i + 1, blocks + [BlockAt(raw, i)]);
      } else {
        assert FirstRefused(raw, i);
        assert forall j :: FirstRefused(raw, j) ==> j == i;
      }
    }
  }

  /** The byte at an offset is the byte it is said to be. */
  ghost predicate Named(raw: seq<byte>, info: Info, offset: nat)
    requires offset < |raw|
  {
    match Locate(info, offset)
    case Magic(k) => k < 4 && raw[offset] == [0x4D, 0x53, 0x52, 0x31][k]
    case Version(k) => k < 2 && raw[offset] == [1, 0][k]
    case BlockCount(k) => k < 2 && raw[offset] == ToLE(info.count, 2)[k]
    case SvnByte(k) => k < 8 && raw[offset] == ToLE(info.svn, 8)[k]
    case Field(i, k) =>
      && i < |info.blocks| && k < 8
      && var b := info.blocks[i]; raw[offset] == ([b.index, 0] + ToLE(b.length, 2) + ToLE(b.offset, 4))[k]
    case ValueByte(i, k) => i < |info.blocks| && k < |info.blocks[i].value| && raw[offset] == info.blocks[i].value[k]
    case Nowhere => info.tableEnd <= offset && forall i :: 0 <= i < |info.blocks| ==> !Covers(info.blocks[i], offset)
  }

  lemma {:induction false} FieldBytes(raw: seq<byte>, i: nat)
    requires HasDescriptor(raw, i) && Reserved(raw, i) == 0
    ensures raw[HEADER + DESCRIPTOR * i..HEADER + DESCRIPTOR * i + DESCRIPTOR] ==
            [Index(raw, i), 0] + ToLE(Length(raw, i), 2) + ToLE(Offset(raw, i), 4)
  {
    hide LE, ToLE, Pow256;
    var d := HEADER + DESCRIPTOR * i;
    ToLERoundTrip(raw[d + 2..d + 4]);
    ToLERoundTrip(raw[d + 4..d + 8]);
    assert raw[d..d + 8] == [raw[d], raw[d + 1]] + raw[d + 2..d + 4] + raw[d + 4..d + 8];
  }

  lemma {:induction false} HeaderBytes(raw: seq<byte>, offset: nat)
    requires HeaderReads(raw) && offset < 16
    ensures raw[..16] == [0x4D, 0x53, 0x52, 0x31] + [1, 0] + ToLE(Count(raw), 2) + ToLE(Svn(raw), 8)
    ensures raw[offset] == raw[..16][offset]
  {
    hide LE, ToLE, Pow256;
    ToLERoundTrip(raw[4..6]);
    ToLERoundTrip(raw[6..8]);
    ToLERoundTrip(raw[8..16]);
    VersionOne();
    assert raw[..16] == raw[..4] + raw[4..6] + raw[6..8] + raw[8..16];
  }

  lemma {:induction false} VersionOne()
    ensures ToLE(1, 2) == [1, 0]
  {
    assert ToLE(0, 1) == [0] + ToLE(0, 0) == [0];
  }

  /** Of every file the reader takes, every byte is what `locate` calls it. */
  lemma {:induction false} EveryByteIsNamed(raw: seq<byte>, offset: nat)
    requires ParseSpec(raw).Read? && offset < |raw|
    ensures Named(raw, ParseSpec(raw).info, offset)
  {
    hide LE, ToLE, ParseSpec, Slice, Index, Reserved, Length, Offset, Count, Svn;
    ParseExactly(raw);
    var info := ParseSpec(raw).info;
    if offset < 16 {
      HeaderBytes(raw, offset);
    } else if offset < info.tableEnd {
      var (i, k) := ((offset - 16) / 8, (offset - 16) % 8);
      assert offset == 16 + 8 * i + k && i < Count(raw);
      assert Readable(raw, i);
      FieldBytes(raw, i);
      assert raw[offset] == raw[16 + 8 * i..16 + 8 * i + 8][k];
    } else {
      var p := Covering(info.blocks, 0, offset);
      if p.ValueByte? {
        ValueOfBlock(raw, p.block);
        var b := info.blocks[p.block];
        assert raw[offset] == raw[b.offset..b.offset + b.length][p.at];
      }
    }
  }

  lemma {:induction false} ValueOfBlock(raw: seq<byte>, i: nat)
    requires HasDescriptor(raw, i) && Readable(raw, i)
    ensures var b := BlockAt(raw, i); b.offset + b.length <= |raw| && b.value == raw[b.offset..b.offset + b.length]
  {
    hide Index, Length, Offset;
    SliceInside(raw, Offset(raw, i), Offset(raw, i) + Length(raw, i));
  }
}
