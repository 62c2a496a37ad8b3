/**
 device/measurement_source.c: the strict loader with static state, and the accessors the
 emulator asks. What it holds is stated through the fixture's own reader.
 */
module MeasurementSource {
  import opened Bytes
  import opened Fixture

  const MAX_FILE := 65536

  datatype Status =
    | Fine | NoSource | Open | TooLarge | HeaderTooShort | WrongMagic | WrongVersion | TableTooShort
    | DescReserved | DescIndex | DescDuplicate | DescOffset | DescLength | DescInTable

  datatype Slot = Slot(present: bool, len: nat, off: nat)

  const NO_SLOT := Slot(false, 0, 0)

  /** Arithmetic in uint32_t. */
  function U32(n: int): (r: nat)
    ensures r < 0x1_0000_0000
  {
    n % 0x1_0000_0000
  }

  /** `ms_range_ok` */
  predicate RangeOk(off: nat, len: nat, total: nat) {
    off <= total && len <= U32(total - off)
  }

  /** The subtraction never wraps, so the check is the true one; the sum the comment warns
      of accepts a false range exactly when it wraps to something small. */
  lemma {:induction false} RangeIsExact(off: nat, len: nat, total: nat)
    requires off < 0x1_0000_0000 && len < 0x1_0000_0000 && total < 0x1_0000_0000
    ensures RangeOk(off, len, total) <==> off + len <= total
    ensures U32(off + len) <= total && !RangeOk(off, len, total) <==>
            0x1_0000_0000 <= off + len <= total + 0x1_0000_0000
  {
  }

  // ---- what a load decides -------------------------------------------------------------

  datatype Table = Table(status: Status, slots: seq<Slot>, blocks: nat)

  /** The descriptor loop from `i` on. On a refusal the slots filled so far stay filled. */
  function Scan(raw: seq<byte>, i: nat, slots: seq<Slot>, blocks: nat): (t: Table)
    requires |raw| >= HEADER && TableEnd(raw) <= |raw| && i <= Count(raw) && |slots| == 256
    ensures |t.slots| == 256
    decreases Count(raw) - i
  {
    if i == Count(raw) then Table(Fine, slots, blocks)
    else
      var index, len, off := Index(raw, i), Length(raw, i), Offset(raw, i);
      if Reserved(raw, i) != 0 then Table(DescReserved, slots, blocks)
      else if index == 0 || index == 0xFF then Table(DescIndex, slots, blocks)
      else if slots[index].present then Table(DescDuplicate, slots, blocks)
      else if !RangeOk(off, len, |raw|) then Table(if off > |raw| then DescOffset else DescLength, slots, blocks)
      else if len > 0 && off < TableEnd(raw) then Table(DescInTable, slots, blocks)
      else Scan(raw, i + 1, slots[index := Slot(true, len, off)], blocks + 1)
  }

  function Cleared(): (s: seq<Slot>)
    ensures |s| == 256 && forall k :: 0 <= k < 256 ==> s[k] == NO_SLOT
  {
    seq(256, _ => NO_SLOT)
  }

  /** What the loader answers for a file of these bytes. */
  function Verdict(raw: seq<byte>): Status {
    if |raw| > MAX_FILE then TooLarge
    else if |raw| < HEADER then HeaderTooShort
    else if raw[..4] != MAGIC then WrongMagic
    else if LE(raw[4..6]) != FORMAT_VERSION then WrongVersion
    else if TableEnd(raw) > |raw| then TableTooShort
    else Scan(raw, 0, Cleared(), 0).status
  }

  ghost predicate Accepts(raw: seq<byte>) {
    Verdict(raw) == Fine
  }

  /** The slots and the block count an accepted file leaves. */
  ghost function Loaded(raw: seq<byte>): Table
    requires Accepts(raw)
  {
    Scan(raw, 0, Cleared(), 0)
  }

  // ---- the loader against the fixture's reader -------------------------------------------

  /** The loader asks for more than the reader: measurement indices, no index twice, and no
      value inside the header or the table. */
  ghost predicate Strict(raw: seq<byte>, i: nat)
    requires HasDescriptor(raw, i) && |raw| >= HEADER
  {
    && 1 <= Index(raw, i) <= 0xFE
    && (Length(raw, i) > 0 ==> TableEnd(raw) <= Offset(raw, i))
  }

  ghost predicate Distinct(raw: seq<byte>, n: nat)
    requires HEADER + DESCRIPTOR * n <= |raw|
  {
    forall i, j :: 0 <= i < j < n ==> Index(raw, i) != Index(raw, j)
  }

  /** The slot of index `k` after the first `n` descriptors. */
  ghost function SlotAfter(raw: seq<byte>, n: nat, k: int): Slot
    requires HEADER + DESCRIPTOR * n <= |raw|
  {
    if n == 0 then NO_SLOT
    else if Index(raw, n - 1) == k then Slot(true, Length(raw, n - 1), Offset(raw, n - 1))
    else SlotAfter(raw, n - 1, k)
  }

  lemma {:induction false} PresentExactly(raw: seq<byte>, n: nat, k: int)
    requires HEADER + DESCRIPTOR * n <= |raw|
    ensures SlotAfter(raw, n, k).present <==> exists i :: 0 <= i < n && Index(raw, i) == k
  {
    hide Index;
    if n > 0 {
      PresentExactly(raw, n - 1, k);
      if Index(raw, n - 1) != k && exists i :: 0 <= i < n && Index(raw, i) == k {
        var i :| 0 <= i < n && Index(raw, i) == k;
        assert i < n - 1;
      }
    }
  }

  ghost predicate Filled(raw: seq<byte>, n: nat, slots: seq<Slot>)
    requires HEADER + DESCRIPTOR * n <= |raw|
  {
    |slots| == 256 && forall k :: 0 <= k < 256 ==> slots[k] == SlotAfter(raw, n, k)
  }

  lemma {:induction false} FieldWidths(raw: seq<byte>, i: nat)
    requires HasDescriptor(raw, i)
    ensures Length(raw, i) < 0x1_0000 && Offset(raw, i) < 0x1_0000_0000
  {
    hide LE, ToLE, Pow256;
    var d := HEADER + DESCRIPTOR * i;
    Widths();
    ToLERoundTrip(raw[d + 2..d + 4]);
    ToLERoundTrip(raw[d + 4..d + 8]);
  }

  /** Descriptor `i` passes, after those before it. */
  ghost predicate Passes(raw: seq<byte>, i: nat)
    requires |raw| >= HEADER && HasDescriptor(raw, i)
  {
    && Readable(raw, i) && Strict(raw, i)
    && forall j :: 0 <= j < i ==> HasDescriptor(raw, j) && Index(raw, j) != Index(raw, i)
  }

  lemma {:induction false} ScanExactly(raw: seq<byte>, i: nat, slots: seq<Slot>)
    requires |raw| >= HEADER && TableEnd(raw) <= |raw| <= MAX_FILE && i <= Count(raw) && Filled(raw, i, slots)
    ensures var t := Scan(raw, i, slots, i);
            && (t.status == Fine <==> forall j :: i <= j < Count(raw) ==> Passes(raw, j))
            && (t.status == Fine ==> t.blocks == Count(raw) && Filled(raw, Count(raw), t.slots))
    decreases Count(raw) - i
  {
    hide LE, Index, Length, Offset, Reserved;
    if i < Count(raw) {
      FieldWidths(raw, i);
      RangeIsExact(Offset(raw, i), Length(raw, i), |raw|);
      PresentExactly(raw, i, Index(raw, i));
      if Passes(raw, i) {
        ScanExactly(raw, i + 1, slots[Index(raw, i) := Slot(true, Length(raw, i), Offset(raw, i))]);
      }
    }
  }

  lemma {:induction false} AllPass(raw: seq<byte>, n: nat)
    requires |raw| >= HEADER && HEADER + DESCRIPTOR * n <= |raw|
    ensures (forall i :: 0 <= i < n ==> Passes(raw, i)) <==>
            && (forall i :: 0 <= i < n ==> Readable(raw, i)) && (forall i :: 0 <= i < n ==> Strict(raw, i))
            && Distinct(raw, n)
  {
    hide Index, Readable, Strict;
    if forall i :: 0 <= i < n ==> Passes(raw, i) {
      forall j | 0 <= j < n
        ensures Readable(raw, j) && Strict(raw, j) && forall i :: 0 <= i < j ==> Index(raw, i) != Index(raw, j)
      {
        assert Passes(raw, j);
      }
    }
  }

  /** The loader accepts a file exactly when it is small enough, the reader accepts it, and
      each descriptor is strict; its slots are then the reader's blocks. */
  lemma {:induction false} AcceptsExactly(raw: seq<byte>)
    ensures Accepts(raw) <==>
            && |raw| <= MAX_FILE && ParseSpec(raw).Read?
            && (forall i :: 0 <= i < Count(raw) ==> Strict(raw, i)) && Distinct(raw, Count(raw))
    ensures Accepts(raw) ==> Loaded(raw).blocks == Count(raw) && Filled(raw, Count(raw), Loaded(raw).slots)
  {
    hide LE, Scan, ParseSpec, Index, Readable, Strict, Passes, Distinct;
    ParseExactly(raw);
    if HeaderReads(raw) && |raw| <= MAX_FILE {
      ScanExactly(raw, 0, Cleared());
      AllPass(raw, Count(raw));
    }
  }

  // ---- the reason for a refusal --------------------------------------------------------------

  /** What is wrong with descriptor `i`, judged after those before it. */
  ghost predicate Faulty(raw: seq<byte>, i: nat, s: Status)
    requires HasDescriptor(raw, i) && |raw| >= HEADER
  {
    var (index, len, off) := (Index(raw, i), Length(raw, i), Offset(raw, i));
    var plain := Reserved(raw, i) == 0;
    var legal := plain && index != 0 && index != 255;
    var unused := legal && forall j :: 0 <= j < i ==> HasDescriptor(raw, j) && Index(raw, j) != index;
    match s
    case DescReserved => !plain
    case DescIndex => plain && !legal
    case DescDuplicate => legal && !unused
    case DescOffset => unused && off > |raw|
    case DescLength => unused && off <= |raw| < off + len
    case DescInTable => unused && off + len <= |raw| && len > 0 && off < 16 + 8 * Count(raw)
    case _ => false
  }

  /** The first descriptor that does not pass has this fault. */
  ghost predicate FirstFault(raw: seq<byte>, from: nat, s: Status)
    requires |raw| >= HEADER && TableEnd(raw) <= |raw|
  {
    exists i :: from <= i < Count(raw) && Faulty(raw, i, s) && forall j :: from <= j < i ==> Passes(raw, j)
  }

  lemma {:induction false} StepFaults(raw: seq<byte>, i: nat, slots: seq<Slot>, s: Status)
    requires |raw| >= HEADER && TableEnd(raw) <= |raw| <= MAX_FILE && i < Count(raw) && Filled(raw, i, slots)
    requires s != Fine
    ensures Passes(raw, i) ==> !Faulty(raw, i, s)
    ensures !Passes(raw, i) ==> (Scan(raw, i, slots, i).status == s <==> Faulty(raw, i, s))
  {
    hide LE, Index, Length, Offset, Reserved;
    FieldWidths(raw, i);
    RangeIsExact(Offset(raw, i), Length(raw, i), |raw|);
    PresentExactly(raw, i, Index(raw, i));
  }

  lemma {:induction false} FaultStep(raw: seq<byte>, i: nat, s: Status)
    requires |raw| >= HEADER && TableEnd(raw) <= |raw| && i < Count(raw)
    requires Passes(raw, i) ==> !Faulty(raw, i, s)
    ensures FirstFault(raw, i, s) <==> if Passes(raw, i) then FirstFault(raw, i + 1, s) else Faulty(raw, i, s)
  {
    hide Faulty, Passes;
  }

  lemma {:induction false} ScanFaults(raw: seq<byte>, i: nat, slots: seq<Slot>, s: Status)
    requires |raw| >= HEADER && TableEnd(raw) <= |raw| <= MAX_FILE && i <= Count(raw) && Filled(raw, i, slots)
    requires s != Fine
    ensures Scan(raw, i, slots, i).status == s <==> FirstFault(raw, i, s)
    decreases Count(raw) - i
  {
    hide LE, Index, Length, Offset, Reserved, Faulty, FirstFault;
    if i < Count(raw) {
      StepFaults(raw, i, slots, s);
      FaultStep(raw, i, s);
      if Passes(raw, i) {
        FieldWidths(raw, i);
        RangeIsExact(Offset(raw, i), Length(raw, i), |raw|);
        PresentExactly(raw, i, Index(raw, i));
        ScanFaults(raw, i + 1, slots[Index(raw, i) := Slot(true, Length(raw, i), Offset(raw, i))], s);
      }
    } else {
      NoFault(raw, i, s);
    }
  }

  lemma {:induction false} NoFault(raw: seq<byte>, i: nat, s: Status)
    requires |raw| >= HEADER && TableEnd(raw) <= |raw| && i >= Count(raw)
    ensures !FirstFault(raw, i, s)
  {
  }

  lemma {:induction false} ScanNames(raw: seq<byte>, i: nat, slots: seq<Slot>, blocks: nat)
    requires |raw| >= HEADER && TableEnd(raw) <= |raw| && i <= Count(raw) && |slots| == 256
    ensures Scan(raw, i, slots, blocks).status in
              [Fine, DescReserved, DescIndex, DescDuplicate, DescOffset, DescLength, DescInTable]
    decreases Count(raw) - i
  {
    hide LE, Index, Length, Offset, Reserved, RangeOk;
    if i < Count(raw) {
      ScanNames(raw, i + 1, slots[Index(raw, i) := Slot(true, Length(raw, i), Offset(raw, i))], blocks + 1);
    }
  }

  /** A header of this version, and the descriptors it announces. */
  ghost predicate HasTable(raw: seq<byte>) {
    && 16 <= |raw| <= 65536 && raw[..4] == [0x4D, 0x53, 0x52, 0x31] && LE(raw[4..6]) == 1
    && 16 + 8 * LE(raw[6..8]) <= |raw|
  }

  /** The reason given for a refusal: the first check of the header that fails, and then the first
      descriptor that is at fault and what is wrong with it. */
  lemma {:induction false} ReasonExactly(raw: seq<byte>)
    ensures Verdict(raw) == TooLarge <==> |raw| > 65536
    ensures Verdict(raw) == HeaderTooShort <==> |raw| < 16
    ensures Verdict(raw) == WrongMagic <==> 16 <= |raw| <= 65536 && raw[..4] != [0x4D, 0x53, 0x52, 0x31]
    ensures Verdict(raw) == WrongVersion <==>
            16 <= |raw| <= 65536 && raw[..4] == [0x4D, 0x53, 0x52, 0x31] && LE(raw[4..6]) != 1
    ensures Verdict(raw) == TableTooShort <==>
            && 16 <= |raw| <= 65536 && raw[..4] == [0x4D, 0x53, 0x52, 0x31] && LE(raw[4..6]) == 1
            && 16 + 8 * LE(raw[6..8]) > |raw|
    ensures forall s :: s in [DescReserved, DescIndex, DescDuplicate, DescOffset, DescLength, DescInTable] ==>
              (Verdict(raw) == s <==> HasTable(raw) && FirstFault(raw, 0, s))
  {
    hide LE, Scan, FirstFault;
    if HasTable(raw) {
      forall s: Status | s != Fine
        ensures Scan(raw, 0, Cleared(), 0).status == s <==> FirstFault(raw, 0, s)
      {
        ScanFaults(raw, 0, Cleared(), s);
      }
      ScanNames(raw, 0, Cleared(), 0);
    }
  }

  /** A file of `count` descriptors and no payload, secure version number 7. */
  function TableFile(count: byte, table: seq<byte>): seq<byte> {
    MAGIC + [1, 0, count, 0] + [7, 0, 0, 0, 0, 0, 0, 0] + table
  }

  lemma {:induction false} PairLE(s: seq<byte>)
    requires |s| == 2 && s[1] == 0
    ensures LE(s) == s[0]
  {
    assert LE(s[1..]) == s[1] + 256 * LE(s[1..][1..]);
  }

  lemma {:induction false} ZeroLE(s: seq<byte>)
    requires forall k :: 0 <= k < |s| ==> s[k] == 0
    ensures LE(s) == 0
  {
    if s != [] {
      ZeroLE(s[1..]);
    }
  }

  /** The header of such a file, and its descriptors if their offsets are 0 and their lengths small. */
  lemma {:induction false} FileReads(count: byte, table: seq<byte>)
    requires |table| == DESCRIPTOR * count
    requires forall i :: 0 <= i < count ==> table[8 * i + 1] == 0 && table[8 * i + 2] <= 16 && table[8 * i + 3] == 0
    requires forall i :: 0 <= i < count ==> forall k :: 8 * i + 4 <= k < 8 * i + 8 ==> table[k] == 0
    ensures var raw := TableFile(count, table);
            && HeaderReads(raw) && Count(raw) == count && |raw| == HEADER + DESCRIPTOR * count <= MAX_FILE
            && ParseSpec(raw).Read?
            && forall i :: 0 <= i < count ==>
                 && Index(raw, i) == table[8 * i] && Reserved(raw, i) == 0
                 && Length(raw, i) == table[8 * i + 2] && Offset(raw, i) == 0
  {
    hide LE, ParseSpec;
    var raw := TableFile(count, table);
    assert raw[4..6] == [1, 0] && raw[6..8] == [count, 0];
    PairLE(raw[4..6]);
    PairLE(raw[6..8]);
    assert raw[..4] == MAGIC;
    forall i | 0 <= i < count
      ensures Index(raw, i) == table[8 * i] && Reserved(raw, i) == 0
      ensures Length(raw, i) == table[8 * i + 2] && Offset(raw, i) == 0
    {
      var d := HEADER + DESCRIPTOR * i;
      assert raw[d + 2..d + 4] == [table[8 * i + 2], 0];
      PairLE(raw[d + 2..d + 4]);
      ZeroLE(raw[d + 4..d + 8]);
    }
    ParseExactly(raw);
  }

  lemma {:induction false} FirstRefused(raw: seq<byte>)
    requires HeaderReads(raw) && |raw| <= MAX_FILE && Count(raw) == 1
    requires Reserved(raw, 0) == 0 && Offset(raw, 0) == 0 && Length(raw, 0) <= |raw|
    ensures Index(raw, 0) == 0 ==> Verdict(raw) == DescIndex
    ensures 0 < Index(raw, 0) < 0xFF && Length(raw, 0) > 0 ==> Verdict(raw) == DescInTable
  {
    hide LE, Index, Length, Offset, Reserved;
  }

  lemma {:induction false} SecondRefused(raw: seq<byte>)
    requires HeaderReads(raw) && |raw| <= MAX_FILE && Count(raw) == 2 && 0 < Index(raw, 0) == Index(raw, 1) < 0xFF
    requires Reserved(raw, 0) == 0 == Reserved(raw, 1) && Offset(raw, 0) == 0 && Length(raw, 0) == 0
    ensures Verdict(raw) == DescDuplicate
  {
    hide LE, Index, Length, Offset, Reserved;
    var slots := Cleared()[Index(raw, 0) := Slot(true, 0, 0)];
    assert Scan(raw, 1, slots, 1).status == DescDuplicate;
  }

  /** A file the reader reads and the loader refuses, for an index of 0. */
  lemma {:induction false} IllegalIndexDiffers()
    ensures var raw := [0x4D, 0x53, 0x52, 0x31, 1, 0, 1, 0, 7, 0, 0, 0, 0, 0, 0, 0, 0, 0, 0, 0, 0, 0, 0, 0];
            ParseSpec(raw).Read? && Verdict(raw) == DescIndex
  {
    hide LE, ParseSpec, Verdict;
    var table: seq<byte> := [0, 0, 0, 0, 0, 0, 0, 0];
    FileReads(1, table);
    FirstRefused(TableFile(1, table));
    assert TableFile(1, table)
        == [0x4D, 0x53, 0x52, 0x31, 1, 0, 1, 0, 7, 0, 0, 0, 0, 0, 0, 0, 0, 0, 0, 0, 0, 0, 0, 0];
  }

  /** One for an index used twice. */
  lemma {:induction false} RepeatedIndexDiffers()
    ensures var raw := TableFile(2, [1, 0, 0, 0, 0, 0, 0, 0, 1, 0, 0, 0, 0, 0, 0, 0]);
            ParseSpec(raw).Read? && Verdict(raw) == DescDuplicate
  {
    hide LE, TableFile, ParseSpec, Verdict;
    var table: seq<byte> := [1, 0, 0, 0, 0, 0, 0, 0, 1, 0, 0, 0, 0, 0, 0, 0];
    FileReads(2, table);
    SecondRefused(TableFile(2, table));
  }

  /** And one for a value that stands in the header. */
  lemma {:induction false} ValueInTableDiffers()
    ensures var raw := TableFile(1, [1, 0, 1, 0, 0, 0, 0, 0]); ParseSpec(raw).Read? && Verdict(raw) == DescInTable
  {
    hide LE, TableFile, ParseSpec, Verdict;
    var table: seq<byte> := [1, 0, 1, 0, 0, 0, 0, 0];
    FileReads(1, table);
    FirstRefused(TableFile(1, table));
  }

  function Find(blocks: seq<Block>, index: byte): (b: Option<Block>)
    ensures b.Some? ==> b.value in blocks && b.value.index == index
    ensures b.None? ==> forall i :: 0 <= i < |blocks| ==> blocks[i].index != index
  {
    if blocks == [] then None
    else if blocks[0].index == index then Some(blocks[0])
    else Find(blocks[1..], index)
  }

  /** The value the reader gives for a measurement index. */
  ghost function ValueOf(raw: seq<byte>, index: byte): Option<seq<byte>>
    requires ParseSpec(raw).Read?
  {
    match Find(ParseSpec(raw).info.blocks, index)
    case None => None
    case Some(b) => Some(b.value)
  }

  /** What a slot of an accepted file leads to is what the reader reads. */
  lemma {:induction false} SlotLeadsToValue(raw: seq<byte>, index: byte)
    requires Accepts(raw)
    ensures ParseSpec(raw).Read?
    ensures var s := Loaded(raw).slots[index];
            ValueOf(raw, index) ==
            (if s.present && s.off + s.len <= |raw| then Some(raw[s.off..s.off + s.len]) else None)
    ensures var s := Loaded(raw).slots[index];
            s.present ==> s.off < 0x1_0000_0000 && s.len < 0x1_0000 && s.off + s.len <= |raw|
  {
    hide LE, Scan, ParseSpec, Index, Length, Offset, Reserved, Strict, Slice;
    AcceptsExactly(raw);
    ParseExactly(raw);
    var n := Count(raw);
    PresentExactly(raw, n, index);
    if SlotAfter(raw, n, index).present {
      var i :| 0 <= i < n && Index(raw, i) == index;
      SlotIs(raw, n, i);
      FieldWidths(raw, i);
      assert Readable(raw, i);
      assert Blocks(raw, n)[i] == BlockAt(raw, i);
      var b := Find(Blocks(raw, n), index).value;
      var j :| 0 <= j < n && Blocks(raw, n)[j] == b;
      SliceInside(raw, Offset(raw, i), Offset(raw, i) + Length(raw, i));
    }
  }

  lemma {:induction false} SlotIs(raw: seq<byte>, n: nat, i: nat)
    requires i < n && HEADER + DESCRIPTOR * n <= |raw| && Distinct(raw, n)
    ensures SlotAfter(raw, n, Index(raw, i)) == Slot(true, Length(raw, i), Offset(raw, i))
  {
    hide Index, Length, Offset;
    if i < n - 1 {
      SlotIs(raw, n - 1, i);
    }
  }

  // ---- counting ------------------------------------------------------------------------

  ghost function Present(slots: seq<Slot>): nat {
    if slots == [] then 0
    else if slots[0].present then 1 + Present(slots[1..])
    else Present(slots[1..])
  }

  lemma {:induction false} OneMorePresent(slots: seq<Slot>, k: nat, s: Slot)
    requires k < |slots| && !slots[k].present && s.present
    ensures Present(slots[k := s]) == Present(slots) + 1
  {
    if k == 0 {
      assert slots[k := s][1..] == slots[1..];
    } else {
      OneMorePresent(slots[1..], k - 1, s);
      assert slots[k := s][1..] == slots[1..][k - 1 := s];
    }
  }

  lemma {:induction false} NonePresent(slots: seq<Slot>)
    requires forall k :: 0 <= k < |slots| ==> !slots[k].present
    ensures Present(slots) == 0
  {
    if slots != [] {
      NonePresent(slots[1..]);
    }
  }

  /** Whatever the verdict, the block count is the number of slots present. */
  lemma {:induction false} ScanCounts(raw: seq<byte>, i: nat, slots: seq<Slot>, blocks: nat)
    requires |raw| >= HEADER && TableEnd(raw) <= |raw| && i <= Count(raw) && |slots| == 256
    requires blocks == Present(slots)
    ensures var t := Scan(raw, i, slots, blocks); t.blocks == Present(t.slots)
    decreases Count(raw) - i
  {
    hide LE, Index, Length, Offset, Reserved, RangeOk, Present;
    if i < Count(raw) {
      var index, s := Index(raw, i), Slot(true, Length(raw, i), Offset(raw, i));
      if !slots[index].present {
        OneMorePresent(slots, index, s);
        ScanCounts(raw, i + 1, slots[index := s], blocks + 1);
      }
    }
  }

  // ---- the loader and its state -----------------------------------------------------------

  /** What a path leads to: no path or an empty one, a file that does not open, one that fails
      while it is being read, or all its bytes. */
  datatype File = NoPath | Missing | Torn(start: seq<byte>) | Contents(raw: seq<byte>)

  /** All a caller can ever learn of the state. */
  datatype Seen = Seen(attempted: bool, status: Status, held: Option<seq<byte>>)

  const FRESH := Seen(false, NoSource, None)

  ghost function AfterLoad(file: File): Seen {
    match file
    case NoPath => Seen(true, NoSource, None)
    case Missing => Seen(true, Open, None)
    case Torn(_) => Seen(true, Open, None)
    case Contents(raw) => Seen(true, Verdict(raw), if Accepts(raw) then Some(raw) else None)
  }

  /** `ms_ensure`: the environment's file is loaded once, on the first question. */
  ghost function Ensured(s: Seen, env: File): Seen {
    if s.attempted then s else AfterLoad(env)
  }

  class Source {
    const image: array<byte>
    const slots: array<Slot>
    var imageLen: nat
    var svn: nat
    var blocks: nat
    var attempted: bool
    var loaded: bool
    var status: Status

    ghost predicate Valid()
      reads this, image, slots
    {
      && image.Length == MAX_FILE + 1 && slots.Length == 256 && imageLen <= MAX_FILE
      && (loaded <==> status == Fine)
      && (loaded ==> attempted && Accepts(Image()) && svn == Svn(Image()))
      && (loaded ==> slots[..] == Loaded(Image()).slots && blocks == Loaded(Image()).blocks)
      && (!loaded ==> blocks == 0 && imageLen == 0)
    }

    ghost function Image(): seq<byte>
      requires imageLen <= image.Length
      reads this, image
    {
      image[..imageLen]
    }

    ghost function View(): Seen
      requires imageLen <= image.Length
      reads this, image
    {
      Seen(attempted, status, if loaded then Some(Image()) else None)
    }

    constructor ()
      ensures Valid() && fresh(image) && fresh(slots) && View() == FRESH
    {
      image := new byte[MAX_FILE + 1];
      slots := new Slot[256](_ => NO_SLOT);
      imageLen, svn, blocks, attempted, loaded, status := 0, 0, 0, false, false, NoSource;
    }

    /** `fail`: the slots filled so far, and the bytes read, stay where they are. */
    method Fail(why: Status) returns (ok: bool)
      requires image.Length == MAX_FILE + 1 && slots.Length == 256 && why != Fine && attempted
      modifies this`loaded, this`blocks, this`imageLen, this`status
      ensures Valid() && View() == Seen(true, why, None) && !ok
    {
      loaded, blocks, imageLen, status := false, 0, 0, why;
      ok := false;
    }

    /** `ms_reset` */
    method Reset()
      requires image.Length == MAX_FILE + 1 && slots.Length == 256
      modifies this, slots
      ensures Valid() && View() == FRESH && slots[..] == Cleared()
    {
      forall k | 0 <= k < slots.Length {
        slots[k] := NO_SLOT;
      }
      imageLen, svn, blocks, attempted, loaded, status := 0, 0, 0, false, false, NoSource;
    }

    /** `fread` into the image, one byte past the cap. */
    method Fread(bytes: seq<byte>) returns (n: nat)
      requires image.Length == MAX_FILE + 1
      modifies image
      ensures n == Min(|bytes|, image.Length) && image[..n] == bytes[..n]
    {
      n := Min(|bytes|, image.Length);
      forall k | 0 <= k < n {
        image[k] := bytes[k];
      }
    }

    /** `ms_load` */
    method Load(file: File) returns (ok: bool)
      requires Valid()
      modifies this, image, slots
      ensures Valid() && View() == AfterLoad(file)
      ensures ok <==> View().held.Some?
    {
      hide LE, RangeOk, Index, Length, Offset, Reserved, Scan, Present;
      Reset();
      attempted := true;
      if file.NoPath? {
        return false;
      }
      if file.Missing? {
        ok := Fail(Open);
        return;
      }
      var bytes := if file.Torn? then file.start else file.raw;
      var n := Fread(bytes);
      if file.Torn? {
        ok := Fail(Open);
        return;
      }
      if n > MAX_FILE {
        ok := Fail(TooLarge);
        return;
      }
      ok := Interpreted(n, file.raw);
    }

    /** The rest of `ms_load`: the checks of the header, and then the table. */
    method Interpreted(n: nat, ghost raw: seq<byte>) returns (ok: bool)
      requires image.Length == MAX_FILE + 1 && slots.Length == 256 && slots[..] == Cleared()
      requires n <= MAX_FILE && image[..n] == raw && attempted && !loaded && blocks == 0
      modifies this, slots
      ensures Valid() && View() == AfterLoad(Contents(raw))
      ensures ok <==> View().held.Some?
    {
      hide LE, Scan, Count, Svn, TableEnd;
      if n < HEADER {
        ok := Fail(HeaderTooShort);
        return;
      }
      var why, count := HeaderFault(n, raw);
      if why != Fine {
        ok := Fail(why);
        return;
      }
      ok := Scanned(count, raw);
    }

    /** What is wrong with the header, if anything, and how many descriptors it announces. */
    method HeaderFault(n: nat, ghost raw: seq<byte>) returns (why: Status, count: nat)
      requires image.Length == MAX_FILE + 1 && HEADER <= n <= MAX_FILE && image[..n] == raw
      modifies this`imageLen, this`svn
      ensures imageLen == n
      ensures why != Fine ==> Verdict(raw) == why
      ensures why == Fine ==> count == Count(raw) && svn == Svn(raw) && TableEnd(raw) <= |raw|
      ensures why == Fine ==> Verdict(raw) == Scan(raw, 0, Cleared(), 0).status
    {
      hide LE, Scan;
      why, count := Fine, 0;
      imageLen := n;
      HeaderIs(raw, image[..n]);
      assert image[..n][..4] == image[..4] && image[..n][4..6] == image[4..6];
      assert image[..n][6..8] == image[6..8] && image[..n][8..16] == image[8..16];
      if image[..4] != MAGIC {
        why := WrongMagic;
        return;
      }
      if LE(image[4..6]) != FORMAT_VERSION {
        why := WrongVersion;
        return;
      }
      count := LE(image[6..8]);
      svn := LE(image[8..16]);
      CountWidth(raw);
      var tableEnd := U32(HEADER + U32(count * DESCRIPTOR));
      if tableEnd > imageLen {
        why := TableTooShort;
      }
    }

    /** One descriptor: why it is refused, or Fine and its slot is filled. */
    method FillSlot(i: nat, count: nat, ghost raw: seq<byte>) returns (why: Status)
      requires image.Length == MAX_FILE + 1 && slots.Length == 256
      requires imageLen <= MAX_FILE && image[..imageLen] == raw
      requires HEADER <= |raw| && i < count == Count(raw) && TableEnd(raw) <= |raw|
      modifies this`blocks, slots
      ensures Scan(raw, i, old(slots[..]), old(blocks)) ==
              if why == Fine then Scan(raw, i + 1, slots[..], blocks) else Table(why, slots[..], blocks)
    {
      hide LE, RangeOk, Index, Length, Offset, Reserved, Count;
      assert HasDescriptor(raw, i);
      var d := HEADER + i * DESCRIPTOR;
      var index, reserved, len, off := image[d], image[d + 1], LE(image[d + 2..d + 4]), LE(image[d + 4..d + 8]);
      FieldsAre(raw, i, image[..imageLen]);
      assert image[d + 2..d + 4] == raw[d + 2..d + 4] && image[d + 4..d + 8] == raw[d + 4..d + 8];
      if reserved != 0 {
        return DescReserved;
      }
      if index == 0 || index == 0xFF {
        return DescIndex;
      }
      if slots[index].present {
        return DescDuplicate;
      }
      if !RangeOk(off, len, imageLen) {
        return if off > imageLen then DescOffset else DescLength;
      }
      if len > 0 && off < HEADER + count * DESCRIPTOR {
        return DescInTable;
      }
      ghost var before := slots[..];
      slots[index] := Slot(true, len, off);
      assert slots[..] == before[index := Slot(true, len, off)];
      blocks := blocks + 1;
      why := Fine;
    }

    /** The descriptor loop of `ms_load`. */
    method Scanned(count: nat, ghost raw: seq<byte>) returns (ok: bool)
      requires image.Length == MAX_FILE + 1 && slots.Length == 256 && slots[..] == Cleared()
      requires HEADER <= imageLen <= MAX_FILE && image[..imageLen] == raw && attempted && !loaded && blocks == 0
      requires count == Count(raw) && TableEnd(raw) <= |raw| && svn == Svn(raw)
      requires Verdict(raw) == Scan(raw, 0, Cleared(), 0).status
      modifies this, slots
      ensures Valid() && View() == AfterLoad(Contents(raw))
      ensures ok <==> View().held.Some?
    {
      hide Scan, Verdict, Count, Svn;
      for i := 0 to count
        invariant attempted && !loaded && imageLen == |raw| && image[..imageLen] == raw && svn == Svn(raw)
        invariant Scan(raw, 0, Cleared(), 0) == Scan(raw, i, slots[..], blocks)
      {
        var why := FillSlot(i, count, raw);
        if why != Fine {
          ok := Fail(why);
          return;
        }
      }
      ScanEnds(raw, slots[..], blocks);
      loaded, status := true, Fine;
      ok := true;
    }

    method Ensure(env: File)
      requires Valid()
      modifies this, image, slots
      ensures Valid() && View() == Ensured(old(View()), env)
    {
      if !attempted {
        var _ := Load(env);
      }
    }

    /** `ms_get_block`: the reader's value for the index in the file held, if its length is
        exactly the caller's; on false the caller's buffer is untouched. */
    method GetBlock(index: byte, out: array?<byte>, env: File) returns (ok: bool)
      requires Valid() && out != image
      modifies this, image, slots, out
      ensures Valid() && View() == Ensured(old(View()), env)
      ensures ok <==>
              && out != null && View().held.Some? && Accepts(View().held.value)
              && ParseSpec(View().held.value).Read?
              && ValueOf(View().held.value, index).Some? && |ValueOf(View().held.value, index).value| == out.Length
      ensures ok ==> out[..] == ValueOf(View().held.value, index).value
      ensures !ok && out != null ==> out[..] == old(out[..])
    {
      hide Verdict, ParseSpec, ValueOf, LE;
      Ensure(env);
      if !loaded || out == null {
        return false;
      }
      SlotLeadsToValue(Image(), index);
      if !slots[index].present {
        return false;
      }
      var slot := slots[index];
      if slot.len != out.Length {
        return false;
      }
      RangeIsExact(slot.off, slot.len, imageLen);
      if !RangeOk(slot.off, slot.len, imageLen) {
        return false;
      }
      ghost var held := Image();
      forall k | 0 <= k < out.Length {
        out[k] := image[slot.off + k];
      }
      assert Image() == held;
      assert out[..] == held[slot.off..slot.off + slot.len];
      ok := true;
    }

    /** `ms_get_svn`; None leaves the caller's variable alone. */
    method GetSvn(wanted: bool, env: File) returns (r: Option<nat>)
      requires Valid()
      modifies this, image, slots
      ensures Valid() && View() == Ensured(old(View()), env)
      ensures r.Some? <==> wanted && View().held.Some?
      ensures r.Some? ==> ParseSpec(View().held.value).Read? && r.value == ParseSpec(View().held.value).info.svn
    {
      hide Verdict, ParseSpec, LE;
      Ensure(env);
      if !loaded || !wanted {
        return None;
      }
      AcceptsExactly(Image());
      ParseExactly(Image());
      r := Some(svn);
    }

    /** `ms_loaded` */
    method IsLoaded(env: File) returns (yes: bool, count: nat)
      requires Valid()
      modifies this, image, slots
      ensures Valid() && View() == Ensured(old(View()), env)
      ensures yes <==> View().held.Some?
      ensures yes ==> ParseSpec(View().held.value).Read? && count == |ParseSpec(View().held.value).info.blocks|
      ensures yes ==> count == Present(slots[..])
      ensures !yes ==> count == 0
    {
      hide Verdict, ParseSpec, LE;
      Ensure(env);
      if loaded {
        AcceptsExactly(Image());
        ParseExactly(Image());
        NonePresent(Cleared());
        ScanCounts(Image(), 0, Cleared(), 0);
      }
      yes, count := loaded, if loaded then blocks else 0;
    }
  }

  lemma {:induction false} CountWidth(raw: seq<byte>)
    requires |raw| >= HEADER
    ensures Count(raw) < 0x1_0000
  {
    hide LE, ToLE, Pow256;
    Widths();
    ToLERoundTrip(raw[6..8]);
  }

  lemma {:induction false} HeaderIs(raw: seq<byte>, image: seq<byte>)
    requires |raw| >= HEADER && image == raw
    ensures Count(raw) == LE(image[6..8]) && Svn(raw) == LE(image[8..16])
  {
  }

  lemma {:induction false} ScanEnds(raw: seq<byte>, slots: seq<Slot>, blocks: nat)
    requires |raw| >= HEADER && TableEnd(raw) <= |raw| && |slots| == 256
    ensures Scan(raw, Count(raw), slots, blocks) == Table(Fine, slots, blocks)
  {
  }

  lemma {:induction false} FieldsAre(raw: seq<byte>, i: nat, image: seq<byte>)
    requires HasDescriptor(raw, i) && image == raw
    ensures var d := HEADER + DESCRIPTOR * i;
            && Index(raw, i) == image[d] && Reserved(raw, i) == image[d + 1]
            && Length(raw, i) == LE(image[d + 2..d + 4]) && Offset(raw, i) == LE(image[d + 4..d + 8])
  {
  }

  // ---- any history ------------------------------------------------------------------------

  /** A reset, an explicit load, or a question, with what the environment's path leads to. */
  datatype Event = Reset | Load(file: File) | Ask(env: File)

  ghost function After(s: Seen, e: Event): Seen {
    match e
    case Reset => FRESH
    case Load(file) => AfterLoad(file)
    case Ask(env) => Ensured(s, env)
  }

  ghost function Run(events: seq<Event>): Seen {
    if events == [] then FRESH else After(Run(events[..|events| - 1]), events[|events| - 1])
  }

  /** Event `k` reads the file: an explicit load, or the first question since a reset. */
  ghost predicate Attempts(events: seq<Event>, k: nat, file: File)
    requires k < |events|
  {
    events[k] == Load(file) || (events[k] == Ask(file) && (k == 0 || events[k - 1].Reset?))
  }

  /** The last attempt of a history is event `k`, on this file, and no reset came after. */
  ghost predicate LastAttempt(events: seq<Event>, k: nat, file: File) {
    && k < |events| && Attempts(events, k, file)
    && forall j :: k < j < |events| ==> events[j].Ask?
  }

  /** After any history there either was a last attempt, and the state is what that load alone
      would have left, or the state is as it was at the start. */
  lemma {:induction false} OnlyTheLastAttemptCounts(events: seq<Event>)
    ensures Run(events) == FRESH || exists k: nat, file :: LastAttempt(events, k, file)
    ensures forall k: nat, file :: LastAttempt(events, k, file) ==> Run(events) == AfterLoad(file)
    ensures Run(events).attempted <==> events != [] && !events[|events| - 1].Reset?
    ensures !Run(events).attempted ==> Run(events) == FRESH
  {
    hide Verdict;
    if events != [] {
      var n := |events| - 1;
      var before := events[..n];
      OnlyTheLastAttemptCounts(before);
      forall k: nat, file | LastAttempt(events, k, file)
        ensures Run(events) == AfterLoad(file)
      {
        if k < n {
          assert LastAttempt(before, k, file);
        }
      }
      match events[n]
      case Reset =>
      case Load(file) =>
        assert LastAttempt(events, n, file);
      case Ask(env) =>
        if Run(before).attempted {
          if Run(before) != FRESH {
            var k: nat, file :| LastAttempt(before, k, file);
            assert LastAttempt(events, k, file);
          }
        } else {
          assert LastAttempt(events, n, env);
        }
    }
  }

  /** Bytes are exposed exactly when the last attempt read them and accepted them. */
  lemma {:induction false} HeldExactly(events: seq<Event>, raw: seq<byte>)
    ensures Run(events).held == Some(raw) <==>
            Accepts(raw) && exists k: nat :: LastAttempt(events, k, Contents(raw))
  {
    hide Verdict, LastAttempt;
    OnlyTheLastAttemptCounts(events);
    if Run(events).held == Some(raw) {
      var k: nat, file :| LastAttempt(events, k, file);
      assert file == Contents(raw);
    }
  }

  lemma {:induction false} ScanAnswers(raw: seq<byte>, i: nat, slots: seq<Slot>, blocks: nat)
    requires |raw| >= HEADER && TableEnd(raw) <= |raw| && i <= Count(raw) && |slots| == 256
    ensures Scan(raw, i, slots, blocks).status != NoSource
    decreases Count(raw) - i
  {
    hide LE, Index, Length, Offset, Reserved, RangeOk;
    if i < Count(raw) {
      var index, s := Index(raw, i), Slot(true, Length(raw, i), Offset(raw, i));
      ScanAnswers(raw, i + 1, slots[index := s], blocks + 1);
    }
  }

  lemma {:induction false} FilesAnswer(raw: seq<byte>)
    ensures Verdict(raw) != NoSource
  {
    hide LE, Scan;
    if |raw| >= HEADER && TableEnd(raw) <= |raw| {
      ScanAnswers(raw, 0, Cleared(), 0);
    }
  }

  /** After any history a question leaves the status as it was exactly when a load was already
      attempted or the environment names no file. */
  lemma {:induction false} AskKeepsStatusExactly(events: seq<Event>, env: File)
    ensures Run(events + [Ask(env)]).status == Run(events).status <==> Run(events).attempted || env.NoPath?
  {
    hide Verdict;
    assert (events + [Ask(env)])[..|events|] == events;
    OnlyTheLastAttemptCounts(events);
    if env.Contents? {
      FilesAnswer(env.raw);
    }
  }

  /** The first question after the start, with a path that leads nowhere. */
  lemma {:induction false} AQuestionChangesTheStatus()
    ensures Run([]).status == NoSource && Run([Ask(Missing)]).status == Open
  {
    assert [Ask(Missing)][..0] == [];
  }
}
