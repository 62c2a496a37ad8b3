/**
 The measurement fixture end to end: what the writer builds, both readers give back, and
 flipping a byte the tool calls a value byte changes what the file says and not how it is
 read.
 */
module FixtureRoundTrip {
  import opened Bytes
  import opened Fixture
  import opened MeasurementSource

  // ---- sorted -------------------------------------------------------------------------

  lemma {:induction false} InsertMembers(item: Item, items: seq<Item>)
    ensures multiset(Insert(item, items)) == multiset(items) + multiset{item}
  {
    if items != [] && !(item.0 < items[0].0) {
      InsertMembers(item, items[1..]);
      assert items == [items[0]] + items[1..];
    }
  }

  lemma {:induction false} InsertAscends(item: Item, items: seq<Item>)
    requires Ascending(items) && forall i :: 0 <= i < |items| ==> items[i].0 != item.0
    ensures Ascending(Insert(item, items))
  {
    if items == [] || item.0 < items[0].0 {
      AscendingCons(item, items);
    } else {
      var rest := Insert(item, items[1..]);
      InsertAscends(item, items[1..]);
      InsertMembers(item, items[1..]);
      forall j | 0 <= j < |rest|
        ensures items[0].0 < rest[j].0
      {
        assert rest[j] in multiset(rest);
      }
      AscendingCons(items[0], rest);
    }
  }

  lemma {:induction false} AscendingCons(item: Item, items: seq<Item>)
    requires Ascending(items) && forall i :: 0 <= i < |items| ==> item.0 < items[i].0
    ensures Ascending([item] + items)
  {
  }

  /** The writer's order: the same items, by ascending index. */
  lemma {:induction false} SortedIsSorted(items: seq<Item>)
    requires IsDict(items)
    ensures Ascending(Sorted(items)) && multiset(Sorted(items)) == multiset(items)
    ensures |Sorted(items)| == |items|
  {
    if items != [] {
      SortedIsSorted(items[1..]);
      var rest := Sorted(items[1..]);
      forall i | 0 <= i < |rest|
        ensures rest[i].0 != items[0].0
      {
        assert rest[i] in multiset(items[1..]);
      }
      InsertAscends(items[0], rest);
      InsertMembers(items[0], rest);
      assert items == [items[0]] + items[1..];
    }
    assert |multiset(Sorted(items))| == |multiset(items)|;
  }

  // ---- the image ------------------------------------------------------------------------

  ghost predicate Writable(items: seq<Item>) {
    forall i :: 0 <= i < |items| ==> 1 <= items[i].0 <= 0xFE && |items[i].1| <= 0xFFFF
  }

  ghost function Payload(items: seq<Item>): seq<byte> {
    if items == [] then [] else items[0].1 + Payload(items[1..])
  }

  ghost function Descriptors(items: seq<Item>, offset: nat): (t: seq<byte>)
    requires Writable(items)
    ensures |t| == DESCRIPTOR * |items|
  {
    if items == [] then []
    else Descriptor(items[0].0, |items[0].1|, offset) + Descriptors(items[1..], offset + |items[0].1|)
  }

  ghost function ImageOf(svn: nat, items: seq<Item>): seq<byte>
    requires Writable(items)
  {
    var tableEnd := HEADER + DESCRIPTOR * |items|;
    Header(svn, |items|) + Descriptors(items, tableEnd) + Payload(items)
  }

  /** While the payload stays below 2^32 the writer refuses nothing but an illegal item. */
  lemma {:induction false} EmitExactly(items: seq<Item>, tableEnd: nat, out: seq<byte>, payload: seq<byte>)
    requires tableEnd + |payload| + 0x1_0000 * |items| < 0x1_0000_0000
    ensures Emit(items, tableEnd, out, payload).Built? <==> Writable(items)
    ensures Writable(items) ==>
              Emit(items, tableEnd, out, payload).raw ==
              out + Descriptors(items, tableEnd + |payload|) + (payload + Payload(items))
  {
    hide ToLE, Descriptor;
    if items == [] {
      assert out + [] == out && payload + [] == payload;
    } else if 1 <= items[0].0 <= 0xFE && |items[0].1| <= 0xFFFF {
      var (index, value) := items[0];
      var d := Descriptor(index, |value|, tableEnd + |payload|);
      EmitExactly(items[1..], tableEnd, out + d, payload + value);
      assert Writable(items) <==> Writable(items[1..]) by {
        assert items == [items[0]] + items[1..];
      }
      if Writable(items) {
        var rest := Descriptors(items[1..], tableEnd + |payload + value|);
        Assoc(out, d, rest);
        Assoc(payload, value, Payload(items[1..]));
      }
    }
  }

  /** A dict with ascending legal indices has at most 254 items. */
  lemma {:induction false} FewItems(items: seq<Item>, n: nat)
    requires Ascending(items) && Writable(items) && n <= |items|
    ensures n > 0 ==> items[n - 1].0 >= n
  {
    if n > 1 {
      FewItems(items, n - 1);
    }
  }

  /** Whatever the sizes, nothing is written unless every item is legal. */
  lemma {:induction false} EmitNeedsWritable(items: seq<Item>, tableEnd: nat, out: seq<byte>, payload: seq<byte>)
    ensures Emit(items, tableEnd, out, payload).Built? ==> Writable(items)
  {
    hide ToLE, Descriptor;
    if items != [] && 1 <= items[0].0 <= 0xFE && |items[0].1| <= 0xFFFF {
      var (index, value) := items[0];
      EmitNeedsWritable(items[1..], tableEnd, out + Descriptor(index, |value|, tableEnd + |payload|), payload + value);
      assert items == [items[0]] + items[1..];
    }
  }

  /** The writer succeeds exactly when the version fits its field, every index is a measurement
      index and every value fits its length field; the file is header, table and payload. */
  lemma {:induction false} BuildsExactly(svn: int, blocks: seq<Item>)
    requires IsDict(blocks)
    ensures BuildSpec(svn, blocks).Built? <==> 0 <= svn < 0x1_0000_0000_0000_0000 && Writable(blocks)
    ensures BuildSpec(svn, blocks).Built? ==>
              && Writable(Sorted(blocks)) && |blocks| <= 0xFE
              && BuildSpec(svn, blocks).raw == ImageOf(svn, Sorted(blocks))
  {
    hide Emit, Header, Descriptors, Sorted, Payload, IsDict;
    SortedIsSorted(blocks);
    var ordered := Sorted(blocks);
    SameWritable(blocks, ordered);
    var tableEnd := HEADER + DESCRIPTOR * |ordered|;
    if Writable(ordered) {
      FewItems(ordered, |ordered|);
      if 0 <= svn < 0x1_0000_0000_0000_0000 {
        EmitExactly(ordered, tableEnd, Header(svn, |ordered|), []);
        assert [] + Payload(ordered) == Payload(ordered);
      }
    } else if 0 <= svn < 0x1_0000_0000_0000_0000 {
      EmitNeedsWritable(ordered, tableEnd, Header(svn, |ordered|), []);
    }
  }

  // ---- the reason for a refusal -------------------------------------------------------------

  ghost predicate LegalItem(item: Item) {
    1 <= item.0 <= 0xFE && |item.1| <= 0xFFFF
  }

  lemma {:induction false} EmitReason(items: seq<Item>, k: nat, tableEnd: nat, out: seq<byte>, payload: seq<byte>)
    requires k < |items| && (forall i :: 0 <= i < k ==> LegalItem(items[i])) && !LegalItem(items[k])
    requires tableEnd + |payload| + 0x1_0000 * k < 0x1_0000_0000
    ensures Emit(items, tableEnd, out, payload) ==
            if 1 <= items[k].0 <= 0xFE then TooLong(items[k].0) else BadIndex(items[k].0)
    decreases k
  {
    hide ToLE, Descriptor;
    if k > 0 {
      var (index, value) := items[0];
      EmitReason(items[1..], k - 1, tableEnd, out + Descriptor(index, |value|, tableEnd + |payload|), payload + value);
    }
  }

  lemma {:induction false} FirstIllegal(items: seq<Item>, from: nat) returns (k: nat)
    requires from <= |items| && forall i :: 0 <= i < from ==> LegalItem(items[i])
    requires !Writable(items)
    ensures k < |items| && !LegalItem(items[k]) && forall i :: 0 <= i < k ==> LegalItem(items[i])
    decreases |items| - from
  {
    if from < |items| && !LegalItem(items[from]) {
      k := from;
    } else {
      k := FirstIllegal(items, from + 1);
    }
  }

  /** The writer fails on a version or a number of items that cannot be packed, and otherwise names
      the least index whose item is illegal, and whether the index or the value is. */
  lemma {:induction false} RefusesExactly(svn: int, blocks: seq<Item>)
    requires IsDict(blocks)
    ensures var packs := |blocks| <= 0xFFFF && 0 <= svn < 0x1_0000_0000_0000_0000;
            var r := BuildSpec(svn, blocks);
            && (r.Unpackable? <==> !packs)
            && (packs && !Writable(blocks) ==>
                  exists x :: && x in blocks && !LegalItem(x)
                              && (forall y :: y in blocks && !LegalItem(y) ==> x.0 <= y.0)
                              && r == if 1 <= x.0 <= 0xFE then TooLong(x.0) else BadIndex(x.0))
  {
    hide Emit, Header, Sorted, IsDict, LegalItem, Writable;
    SortedIsSorted(blocks);
    var ordered := Sorted(blocks);
    SameWritable(blocks, ordered);
    if |blocks| <= 0xFFFF && 0 <= svn < 0x1_0000_0000_0000_0000 {
      if Writable(blocks) {
        BuildsExactly(svn, blocks);
      } else {
        var k := FirstIllegal(ordered, 0);
        LegalIsFew(ordered, k);
        EmitReason(ordered, k, HEADER + DESCRIPTOR * |ordered|, Header(svn, |ordered|), []);
        LeastIllegal(blocks, ordered, k);
      }
    }
  }

  lemma {:induction false} LegalIsFew(items: seq<Item>, k: nat)
    requires Ascending(items) && k < |items| && forall i :: 0 <= i < k ==> LegalItem(items[i])
    ensures k <= 0xFE
  {
    var front := items[..k];
    assert Ascending(front) && Writable(front);
    FewItems(front, k);
  }

  lemma {:induction false} LeastIllegal(blocks: seq<Item>, ordered: seq<Item>, k: nat)
    requires multiset(blocks) == multiset(ordered) && Ascending(ordered) && k < |ordered|
    requires !LegalItem(ordered[k]) && forall i :: 0 <= i < k ==> LegalItem(ordered[i])
    ensures ordered[k] in blocks
    ensures forall y :: y in blocks && !LegalItem(y) ==> ordered[k].0 <= y.0
  {
    hide LegalItem;
    assert ordered[k] in multiset(blocks);
    forall y | y in blocks && !LegalItem(y)
      ensures ordered[k].0 <= y.0
    {
      assert y in multiset(ordered);
      var j :| 0 <= j < |ordered| && ordered[j] == y;
    }
  }

  lemma {:induction false} SameWritable(a: seq<Item>, b: seq<Item>)
    requires multiset(a) == multiset(b)
    ensures Writable(a) <==> Writable(b)
  {
    forall i | 0 <= i < |a|
      ensures a[i] in b
    {
      assert a[i] in multiset(b);
    }
    forall i | 0 <= i < |b|
      ensures b[i] in a
    {
      assert b[i] in multiset(a);
    }
  }

  // ---- reading it back --------------------------------------------------------------------

  /** Where the value of item `i` starts in the payload. */
  ghost function Before(items: seq<Item>, i: nat): nat
    requires i <= |items|
  {
    if i == 0 then 0 else |items[0].1| + Before(items[1..], i - 1)
  }

  lemma {:induction false} ValueInPayload(items: seq<Item>, i: nat)
    requires i < |items|
    ensures Before(items, i) + |items[i].1| <= |Payload(items)|
    ensures Payload(items)[Before(items, i)..Before(items, i) + |items[i].1|] == items[i].1
  {
    if i > 0 {
      ValueInPayload(items[1..], i - 1);
      var first, rest := items[0].1, Payload(items[1..]);
      var lo := Before(items[1..], i - 1);
      var hi := lo + |items[i].1|;
      assert (first + rest)[|first| + lo..|first| + hi] == rest[lo..hi];
    }
  }

  lemma {:induction false} DescriptorInTable(items: seq<Item>, offset: nat, i: nat)
    requires Writable(items) && i < |items|
    ensures Descriptors(items, offset)[DESCRIPTOR * i..DESCRIPTOR * i + DESCRIPTOR] ==
            Descriptor(items[i].0, |items[i].1|, offset + Before(items, i))
    decreases i
  {
    hide Descriptor;
    var first := Descriptor(items[0].0, |items[0].1|, offset);
    var rest := Descriptors(items[1..], offset + |items[0].1|);
    if i > 0 {
      DescriptorInTable(items[1..], offset + |items[0].1|, i - 1);
      var d := DESCRIPTOR * (i - 1);
      assert (first + rest)[DESCRIPTOR + d..DESCRIPTOR + d + DESCRIPTOR] == rest[d..d + DESCRIPTOR];
    }
  }

  /** The block the reader should give for item `i`. */
  ghost function BlockOf(items: seq<Item>, i: nat): Block
    requires Writable(items) && i < |items|
  {
    Block(items[i].0, |items[i].1|, HEADER + DESCRIPTOR * |items| + Before(items, i), items[i].1,
          HEADER + DESCRIPTOR * i)
  }

  lemma {:induction false} DescriptorReads(raw: seq<byte>, i: nat, index: byte, length: nat, offset: nat)
    requires HasDescriptor(raw, i) && length < 0x1_0000 && offset < 0x1_0000_0000
    requires raw[HEADER + DESCRIPTOR * i..HEADER + DESCRIPTOR * i + DESCRIPTOR] == Descriptor(index, length, offset)
    ensures Index(raw, i) == index && Reserved(raw, i) == 0
    ensures Length(raw, i) == length && Offset(raw, i) == offset
  {
    hide LE, ToLE, Pow256, Descriptor;
    Widths();
    LERoundTrip(length, 2);
    LERoundTrip(offset, 4);
    var at := HEADER + DESCRIPTOR * i;
    var d := raw[at..at + DESCRIPTOR];
    DescriptorParts(index, length, offset);
    assert raw[at] == d[0] && raw[at + 1] == d[1];
    SliceOfSlice(raw, at, at + DESCRIPTOR, 2, 4);
    SliceOfSlice(raw, at, at + DESCRIPTOR, 4, 8);
  }

  lemma {:induction false} DescriptorParts(index: byte, length: nat, offset: nat)
    ensures var d := Descriptor(index, length, offset);
            d[0] == index && d[1] == 0 && d[2..4] == ToLE(length, 2) && d[4..8] == ToLE(offset, 4)
  {
    hide ToLE;
  }

  lemma {:induction false} HeaderOfImage(svn: nat, items: seq<Item>)
    requires Writable(items) && |items| <= 0xFE && svn < 0x1_0000_0000_0000_0000
    ensures var raw := ImageOf(svn, items);
            && HeaderReads(raw) && Count(raw) == |items| && Svn(raw) == svn
            && |raw| == TableEnd(raw) + |Payload(items)|
  {
    hide LE, ToLE, Pow256, Descriptors, Payload, Header;
    Widths();
    LERoundTrip(|items|, 2);
    LERoundTrip(svn, 8);
    LERoundTrip(FORMAT_VERSION, 2);
    var raw, h := ImageOf(svn, items), Header(svn, |items|);
    HeaderParts(svn, |items|);
    assert raw[0..16] == h;
    SliceOfSlice(raw, 0, 16, 0, 4);
    SliceOfSlice(raw, 0, 16, 4, 6);
    SliceOfSlice(raw, 0, 16, 6, 8);
    SliceOfSlice(raw, 0, 16, 8, 16);
  }

  lemma {:induction false} HeaderParts(svn: nat, count: nat)
    ensures var h := Header(svn, count);
            && h[0..4] == MAGIC && h[4..6] == ToLE(FORMAT_VERSION, 2) && h[6..8] == ToLE(count, 2) &&
               h[8..16] == ToLE(svn, 8)
  {
    hide ToLE;
  }

  lemma {:induction false} BlockOfImage(svn: nat, items: seq<Item>, i: nat)
    requires Writable(items) && |items| <= 0xFE && i < |items| && svn < 0x1_0000_0000_0000_0000
    ensures var raw := ImageOf(svn, items);
            && HasDescriptor(raw, i) && Readable(raw, i) && BlockAt(raw, i) == BlockOf(items, i)
  {
    hide LE, ToLE, Header, Descriptor, Index, Reserved, Length, Offset, Before, Descriptors, Payload;
    var raw := ImageOf(svn, items);
    var tableEnd := HEADER + DESCRIPTOR * |items|;
    var h, table, payload := Header(svn, |items|), Descriptors(items, tableEnd), Payload(items);
    ValueInPayload(items, i);
    PayloadFits(items);
    DescriptorInTable(items, tableEnd, i);
    var at := DESCRIPTOR * i;
    assert raw[HEADER + at..HEADER + at + DESCRIPTOR] == table[at..at + DESCRIPTOR];
    DescriptorReads(raw, i, items[i].0, |items[i].1|, tableEnd + Before(items, i));
    var lo := Before(items, i);
    assert raw[tableEnd + lo..tableEnd + lo + |items[i].1|] == payload[lo..lo + |items[i].1|];
  }

  lemma {:induction false} PayloadFits(items: seq<Item>)
    requires Writable(items)
    ensures |Payload(items)| <= 0xFFFF * |items|
  {
    if items != [] {
      PayloadFits(items[1..]);
    }
  }

  /** What the writer builds its own reader gives back: the version, and every block by
      ascending index with its value, wherever it was put. */
  lemma {:induction false} BuiltImagesParse(svn: nat, blocks: seq<Item>)
    requires IsDict(blocks) && BuildSpec(svn, blocks).Built?
    ensures var raw := BuildSpec(svn, blocks).raw; var r := ParseSpec(raw);
            && r.Read? && r.info.svn == svn && |r.info.blocks| == |blocks|
            && Writable(Sorted(blocks)) && |Sorted(blocks)| == |blocks|
            && forall i :: 0 <= i < |blocks| ==> r.info.blocks[i] == BlockOf(Sorted(blocks), i)
  {
    hide BuildSpec, ParseSpec, ImageOf, BlockOf, BlockAt, Readable, Svn, Count, Sorted;
    BuildsExactly(svn, blocks);
    SortedIsSorted(blocks);
    var items := Sorted(blocks);
    var raw := ImageOf(svn, items);
    HeaderOfImage(svn, items);
    ParseExactly(raw);
    forall i | 0 <= i < |items|
      ensures HasDescriptor(raw, i) && Readable(raw, i) && BlockAt(raw, i) == BlockOf(items, i)
    {
      BlockOfImage(svn, items, i);
    }
  }

  /** And the loader accepts it exactly when it is within the cap. */
  lemma {:induction false} BuiltImagesLoad(svn: nat, blocks: seq<Item>)
    requires IsDict(blocks) && BuildSpec(svn, blocks).Built?
    ensures var raw := BuildSpec(svn, blocks).raw;
            && (Accepts(raw) <==> |raw| <= MAX_FILE)
            && Verdict(raw) == (if |raw| <= MAX_FILE then Fine else TooLarge)
  {
    hide BuildSpec, ParseSpec, ImageOf, BlockOf, Readable, Svn, Count, Sorted, Scan, Strict, Distinct;
    BuiltImagesParse(svn, blocks);
    BuildsExactly(svn, blocks);
    SortedIsSorted(blocks);
    BuiltImagesAreStrict(svn, Sorted(blocks));
    AcceptsExactly(BuildSpec(svn, blocks).raw);
  }

  /** What either reader then finds under an index is the dict's value, and nothing else. */
  lemma {:induction false} BuiltImagesServeTheDict(svn: nat, blocks: seq<Item>, k: byte)
    requires IsDict(blocks) && BuildSpec(svn, blocks).Built?
    ensures ParseSpec(BuildSpec(svn, blocks).raw).Read?
    ensures var found := ValueOf(BuildSpec(svn, blocks).raw, k);
            && (forall i :: 0 <= i < |blocks| && blocks[i].0 == k ==> found == Some(blocks[i].1))
            && ((forall i :: 0 <= i < |blocks| ==> blocks[i].0 != k) ==> found == None)
  {
    hide BuildSpec, ParseSpec, BlockOf, Sorted, Find;
    BuiltImagesParse(svn, blocks);
    SortedIsSorted(blocks);
    var items, read := Sorted(blocks), ParseSpec(BuildSpec(svn, blocks).raw).info.blocks;
    if i :| 0 <= i < |blocks| && blocks[i].0 == k {
      assert blocks[i] in multiset(items);
      var j :| 0 <= j < |items| && items[j] == blocks[i];
      FoundInBlocks(items, read, j);
      BlockIs(items, j);
    } else {
      NotInBlocks(blocks, items, read, k);
    }
  }

  lemma {:induction false} BlockIs(items: seq<Item>, j: nat)
    requires Writable(items) && j < |items|
    ensures BlockOf(items, j).value == items[j].1
  {
  }

  lemma {:induction false} BuiltImagesAreStrict(svn: nat, items: seq<Item>)
    requires Writable(items) && Ascending(items) && |items| <= 0xFE && svn < 0x1_0000_0000_0000_0000
    ensures var raw := ImageOf(svn, items);
            && HeaderReads(raw) && Distinct(raw, Count(raw))
            && forall i :: 0 <= i < Count(raw) ==> Strict(raw, i)
  {
    hide ImageOf, Index, Length, Offset, Reserved, Readable, Before;
    HeaderOfImage(svn, items);
    var raw := ImageOf(svn, items);
    forall i | 0 <= i < |items|
      ensures HasDescriptor(raw, i) && BlockAt(raw, i) == BlockOf(items, i)
    {
      BlockOfImage(svn, items, i);
    }
    forall i | 0 <= i < |items|
      ensures Index(raw, i) == items[i].0 && Strict(raw, i)
    {
      assert BlockAt(raw, i) == BlockOf(items, i);
    }
  }

  lemma {:induction false} FoundInBlocks(items: seq<Item>, blocks: seq<Block>, j: nat)
    requires Writable(items) && Ascending(items) && |blocks| == |items| && j < |items|
    requires forall i :: 0 <= i < |items| ==> blocks[i] == BlockOf(items, i)
    ensures Find(blocks, items[j].0) == Some(blocks[j])
  {
    hide Before, Find;
    assert blocks[j].index == items[j].0;
    var b := Find(blocks, items[j].0).value;
    var i :| 0 <= i < |blocks| && blocks[i] == b;
    assert blocks[i].index == items[i].0;
  }

  lemma {:induction false} NotInBlocks(dict: seq<Item>, items: seq<Item>, blocks: seq<Block>, k: byte)
    requires Writable(items) && |blocks| == |items| && multiset(items) == multiset(dict)
    requires forall i :: 0 <= i < |items| ==> blocks[i] == BlockOf(items, i)
    requires forall i :: 0 <= i < |dict| ==> dict[i].0 != k
    ensures Find(blocks, k) == None
  {
    hide Before, Find;
    forall i | 0 <= i < |items|
      ensures items[i].0 != k
    {
      assert items[i] in multiset(dict);
    }
  }

  // ---- flipping a byte ----------------------------------------------------------------------

  /** The dict with another value under `k`. */
  function Replace(items: seq<Item>, k: int, v: seq<byte>): (r: seq<Item>)
    ensures |r| == |items|
    ensures forall i :: 0 <= i < |r| ==> r[i] == if items[i].0 == k then (k, v) else items[i]
  {
    if items == [] then []
    else [if items[0].0 == k then (k, v) else items[0]] + Replace(items[1..], k, v)
  }

  lemma {:induction false} ReplaceCons(item: Item, items: seq<Item>, k: int, v: seq<byte>)
    ensures Replace([item] + items, k, v) == [if item.0 == k then (k, v) else item] + Replace(items, k, v)
  {
    assert ([item] + items)[1..] == items;
  }

  lemma {:induction false} InsertReplaces(item: Item, items: seq<Item>, k: int, v: seq<byte>)
    ensures Replace(Insert(item, items), k, v) ==
            Insert(if item.0 == k then (k, v) else item, Replace(items, k, v))
  {
    ReplaceCons(item, items, k, v);
    if items != [] && !(item.0 < items[0].0) {
      InsertReplaces(item, items[1..], k, v);
      ReplaceCons(items[0], Insert(item, items[1..]), k, v);
    }
  }

  lemma {:induction false} SortedReplaces(items: seq<Item>, k: int, v: seq<byte>)
    ensures Sorted(Replace(items, k, v)) == Replace(Sorted(items), k, v)
  {
    if items != [] {
      SortedReplaces(items[1..], k, v);
      InsertReplaces(items[0], Sorted(items[1..]), k, v);
    }
  }

  lemma {:induction false} PayloadReplaces(items: seq<Item>, j: nat, at: nat, b: byte)
    requires Ascending(items) && j < |items| && at < |items[j].1|
    ensures Before(items, j) + at < |Payload(items)|
    ensures Payload(Replace(items, items[j].0, items[j].1[at := b])) == Payload(items)[Before(items, j) + at := b]
    ensures Payload(items)[Before(items, j) + at] == items[j].1[at]
  {
    var first: seq<byte>, rest: seq<byte> := items[0].1, Payload(items[1..]);
    if j == 0 {
      Unmentioned(items[1..], items[0].0, items[0].1[at := b]);
      assert items == [items[0]] + items[1..];
      ReplaceCons(items[0], items[1..], items[0].0, items[0].1[at := b]);
      assert first[at := b] + rest == (first + rest)[at := b];
    } else {
      PayloadReplaces(items[1..], j - 1, at, b);
      var k, v := items[j].0, items[j].1[at := b];
      var p := Before(items[1..], j - 1) + at;
      assert items == [items[0]] + items[1..];
      ReplaceCons(items[0], items[1..], k, v);
      assert first + rest[p := b] == (first + rest)[|first| + p := b];
    }
  }

  lemma {:induction false} Unmentioned(items: seq<Item>, k: int, v: seq<byte>)
    requires forall i :: 0 <= i < |items| ==> items[i].0 != k
    ensures Replace(items, k, v) == items
  {
  }

  lemma {:induction false} DescriptorsReplace(items: seq<Item>, k: int, v: seq<byte>, offset: nat)
    requires Writable(items) && forall i :: 0 <= i < |items| && items[i].0 == k ==> |items[i].1| == |v|
    ensures Writable(Replace(items, k, v))
    ensures Descriptors(Replace(items, k, v), offset) == Descriptors(items, offset)
  {
    hide Descriptor;
    if items != [] {
      DescriptorsReplace(items[1..], k, v, offset + |items[0].1|);
      var r := Replace(items, k, v);
      assert r[1..] == Replace(items[1..], k, v);
    }
  }

  /** Every byte of the payload is a byte of exactly one value. */
  lemma {:induction false} EveryPayloadByteHasOneOwner(items: seq<Item>, start: nat, offset: nat)
    requires start <= offset < start + |Payload(items)|
    ensures exists j: nat :: j < |items| && Owns(items, start, j, offset)
    ensures forall i: nat, j: nat ::
              i < |items| && j < |items| && Owns(items, start, i, offset) && Owns(items, start, j, offset) ==> i == j
  {
    if offset < start + |items[0].1| {
      assert Owns(items, start, 0, offset);
    } else {
      EveryPayloadByteHasOneOwner(items[1..], start + |items[0].1|, offset);
      var j: nat :| j < |items[1..]| && Owns(items[1..], start + |items[0].1|, j, offset);
      assert Owns(items, start, j + 1, offset);
      forall i: nat | i < |items| && Owns(items, start, i, offset)
        ensures i > 0 && Owns(items[1..], start + |items[0].1|, i - 1, offset)
      {
      }
    }
  }

  ghost predicate Owns(items: seq<Item>, start: nat, j: nat, offset: nat)
    requires j < |items|
  {
    start + Before(items, j) <= offset < start + Before(items, j) + |items[j].1|
  }

  /** Past the table of a built file the tool's answer is never "no block's value". */
  lemma {:induction false} PayloadBytesAreLocated(svn: nat, blocks: seq<Item>, offset: nat)
    requires IsDict(blocks) && BuildSpec(svn, blocks).Built?
    requires var raw := BuildSpec(svn, blocks).raw; |raw| >= HEADER && TableEnd(raw) <= offset < |raw|
    ensures var raw := BuildSpec(svn, blocks).raw;
            ParseSpec(raw).Read? && Locate(ParseSpec(raw).info, offset).ValueByte?
  {
    hide BuildSpec, ParseSpec, Sorted, Descriptors, Count, Svn, Before, Payload;
    BuiltImagesParse(svn, blocks);
    BuildsExactly(svn, blocks);
    SortedIsSorted(blocks);
    var items, raw := Sorted(blocks), BuildSpec(svn, blocks).raw;
    var info := ParseSpec(raw).info;
    HeaderOfImage(svn, items);
    ParseExactly(raw);
    EveryPayloadByteHasOneOwner(items, TableEnd(raw), offset);
    var j: nat :| j < |items| && Owns(items, TableEnd(raw), j, offset);
    assert Covers(info.blocks[j], offset);
  }

  /** Flipping a byte the tool locates in a value gives the very file the writer builds for
      the dict with that one byte of that one value flipped. */
  lemma {:induction false} FlipIsARebuild(svn: nat, blocks: seq<Item>, offset: nat)
    requires IsDict(blocks) && BuildSpec(svn, blocks).Built? && offset < |BuildSpec(svn, blocks).raw|
    requires var raw := BuildSpec(svn, blocks).raw;
             ParseSpec(raw).Read? && Locate(ParseSpec(raw).info, offset).ValueByte?
    ensures var raw := BuildSpec(svn, blocks).raw;
            var place := Locate(ParseSpec(raw).info, offset);
            var b := ParseSpec(raw).info.blocks[place.block];
            && place.at < |b.value| && b.value[place.at] == raw[offset]
            && BuildSpec(svn, Replace(blocks, b.index, b.value[place.at := FlipLow(raw[offset])])) ==
               Built(raw[offset := FlipLow(raw[offset])])
  {
    hide BuildSpec, ParseSpec, Sorted, Descriptors, Count, Svn, Before, Payload, ImageOf, Replace;
    BuiltImagesParse(svn, blocks);
    BuildsExactly(svn, blocks);
    SortedIsSorted(blocks);
    var items, raw := Sorted(blocks), BuildSpec(svn, blocks).raw;
    var place := Locate(ParseSpec(raw).info, offset);
    var j, at := place.block, place.at;
    var k, v := items[j].0, items[j].1;
    assert ParseSpec(raw).info.blocks[j] == BlockOf(items, j);
    FlippedImage(svn, items, j, at);
    assert v[at] == raw[offset];
    var w := v[at := FlipLow(raw[offset])];
    SameLength(blocks, items, j);
    var changed := Replace(blocks, k, w);
    BuildsExactly(svn, changed);
    SortedReplaces(blocks, k, w);
  }

  lemma {:induction false} SameLength(blocks: seq<Item>, items: seq<Item>, j: nat)
    requires IsDict(blocks) && Ascending(items) && multiset(items) == multiset(blocks) && j < |items|
    ensures forall i :: 0 <= i < |blocks| && blocks[i].0 == items[j].0 ==> blocks[i] == items[j]
  {
    forall i | 0 <= i < |blocks| && blocks[i].0 == items[j].0
      ensures blocks[i] == items[j]
    {
      assert blocks[i] in multiset(items);
      var m :| 0 <= m < |items| && items[m] == blocks[i];
    }
  }

  lemma {:induction false} FlippedImage(svn: nat, items: seq<Item>, j: nat, at: nat)
    requires Writable(items) && Ascending(items) && j < |items| && at < |items[j].1|
    ensures var offset := HEADER + DESCRIPTOR * |items| + Before(items, j) + at;
            var raw := ImageOf(svn, items);
            && offset < |raw| && raw[offset] == items[j].1[at]
            && var changed := Replace(items, items[j].0, items[j].1[at := FlipLow(items[j].1[at])]);
               Writable(changed) && ImageOf(svn, changed) == raw[offset := FlipLow(raw[offset])]
  {
    hide Header, Descriptors, Payload, Before, Replace;
    var tableEnd := HEADER + DESCRIPTOR * |items|;
    var b := FlipLow(items[j].1[at]);
    var front := Header(svn, |items|) + Descriptors(items, tableEnd);
    PayloadReplaces(items, j, at, b);
    DescriptorsReplace(items, items[j].0, items[j].1[at := b], tableEnd);
    var p := Before(items, j) + at;
    assert front + Payload(items)[p := b] == (front + Payload(items))[tableEnd + p := b];
  }
}
