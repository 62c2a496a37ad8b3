/**
 harness/fields.py and harness/tamper_proxy.py: measurement records and MEASUREMENTS responses as
 the bytes DSP0274 lays out. What both readers accept is what can be written, and what they
 say is what was written.
 */
module RecordBytes {
  import opened Bytes
  import opened Measurements
  import opened RecordReaders
  import Proxy

  /** A block to be written: its index, its specification byte, and a DMTF measurement. */
  datatype Item = Item(index: byte, spec: byte, kind: byte, value: seq<byte>)
  {
    predicate Fits() { |value| + 3 < 0x1_0000 }

    function Octets(): seq<byte> {
      [index, spec] + ToLE(3 + |value|, 2) + [kind] + ToLE(|value|, 2) + value
    }

    function Reported(): Entry { Entry(index, spec, 3 + |value|, kind, value) }
  }

  ghost predicate AllFit(items: seq<Item>) {
    forall i :: 0 <= i < |items| ==> items[i].Fits()
  }

  function Written(items: seq<Item>): seq<byte> {
    if items == [] then [] else items[0].Octets() + Written(items[1..])
  }

  function Reports(items: seq<Item>): (w: seq<Entry>)
    ensures |w| == |items| && forall i :: 0 <= i < |w| ==> w[i] == items[i].Reported()
  {
    seq(|items|, i requires 0 <= i < |items| => items[i].Reported())
  }

  /** The version number of the last block that is one. */
  function LastVersion(items: seq<Item>, before: Option<nat>): Option<nat> {
    if items == [] then before
    else
      var x := items[|items| - 1];
      if x.kind % 128 == 7 && |x.value| == 8 then Some(LE(x.value)) else LastVersion(items[..|items| - 1], before)
  }

  // ---- one block ----------------------------------------------------------------------------

  lemma {:induction false} TwoBytes(n: nat)
    requires n < 0x1_0000
    ensures ToLE(n, 2) == [n % 256, n / 256]
  {
    assert ToLE(n / 256 / 256, 0) == [];
    assert ToLE(n, 2) == [n % 256] + ToLE(n / 256, 1) && ToLE(n / 256, 1) == [n / 256 % 256] + ToLE(n / 256 / 256, 0);
  }

  lemma {:induction false} OctetsRead(raw: seq<byte>, off: nat, x: Item)
    requires x.Fits() && At(raw, off, x.Octets())
    ensures |x.Octets()| == 7 + |x.value|
    ensures U16(raw, off + 2) == 3 + |x.value| && U16(raw, off + 5) == |x.value|
    ensures raw[off] == x.index && raw[off + 1] == x.spec && raw[off + 4] == x.kind
    ensures raw[off + 7..off + 7 + |x.value|] == x.value
  {
    TwoBytes(3 + |x.value|);
    TwoBytes(|x.value|);
    var e := x.Octets();
    var b := raw[off..off + |e|];
    assert raw[off] == b[0] && raw[off + 1] == b[1] && raw[off + 2] == b[2] && raw[off + 3] == b[3];
    assert raw[off + 4] == b[4] && raw[off + 5] == b[5] && raw[off + 6] == b[6];
    assert e[7..] == x.value;
    assert raw[off + 7..off + 7 + |x.value|] == raw[off..off + |e|][7..];
  }

  lemma {:induction false} ReadAreOctets(raw: seq<byte>, off: nat) returns (x: Item)
    requires off + 7 <= |raw| && 3 <= U16(raw, off + 2) && off + 4 + U16(raw, off + 2) <= |raw|
    requires U16(raw, off + 2) == 3 + U16(raw, off + 5)
    ensures x == Item(raw[off], raw[off + 1], raw[off + 4], raw[off + 7..off + 7 + U16(raw, off + 5)])
    ensures x.Fits() && raw[off..off + 4 + U16(raw, off + 2)] == x.Octets()
  {
    hide ToLE;
    var n := U16(raw, off + 5);
    x := Item(raw[off], raw[off + 1], raw[off + 4], raw[off + 7..off + 7 + n]);
    TwoBytes(3 + n);
    TwoBytes(n);
    var seven := raw[off..off + 7];
    assert seven == [x.index, x.spec] + ToLE(3 + n, 2) + [x.kind] + ToLE(n, 2);
    assert raw[off..off + 7 + n] == seven + raw[off + 7..off + 7 + n];
  }

  // ---- a record -----------------------------------------------------------------------------

  lemma {:induction false} WrittenAppend(items: seq<Item>, x: Item)
    ensures Written(items + [x]) == Written(items) + x.Octets()
  {
    hide Item.Octets;
    if items == [] {
      assert Written([x]) == x.Octets() + Written([]) == x.Octets();
      assert items + [x] == [x];
    } else {
      WrittenAppend(items[1..], x);
      assert (items + [x])[1..] == items[1..] + [x];
      Assoc(items[0].Octets(), Written(items[1..]), x.Octets());
    }
  }

  lemma {:induction false} OneIsRead(raw: seq<byte>, off: nat, end: nat, declared: Option<nat>, w: Walk, x: Item)
    requires x.Fits() && w.why.None? && off + |x.Octets()| <= end <= |raw| && At(raw, off, x.Octets())
    ensures var e := x.Reported();
            FieldsFrom(raw, off, end, declared, w) ==
            FieldsFrom(raw, off + |x.Octets()|, end, declared,
                       Walk(w.walked + [e], if e.IsSvn() then Some(LE(e.value)) else w.svn, None))
  {
    hide Item.Octets, LE, U16;
    OctetsRead(raw, off, x);
  }

  lemma {:induction false} OneMoreReported(done: seq<Item>, x: Item)
    ensures Reports(done + [x]) == Reports(done) + [x.Reported()]
    ensures LastVersion(done + [x], None) ==
            if x.Reported().IsSvn() then Some(LE(x.value)) else LastVersion(done, None)
  {
    hide LE;
    assert (done + [x])[..|done|] == done;
  }

  /** After `done`, the rest is read as it was written. */
  lemma {:induction false} RestIsRead(raw: seq<byte>, off: nat, end: nat, declared: Option<nat>, done: seq<Item>,
                                      items: seq<Item>)
    requires off <= end <= |raw| && AllFit(items) && raw[off..end] == Written(items)
    ensures FieldsFrom(raw, off, end, declared, Walk(Reports(done), LastVersion(done, None), None)) ==
            Walk(Reports(done + items), LastVersion(done + items, None),
                 if declared.Some? && declared.value != |done| + |items| then Some(CountMismatch) else None)
    decreases |items|
  {
    hide Item.Octets, LE, U16, LastVersion, Item.Fits, FieldsFrom;
    if items == [] {
      assert done + items == done;
      NoneLeft(raw, off, declared, Walk(Reports(done), LastVersion(done, None), None));
    } else {
      var x := items[0];
      var n := |x.Octets()|;
      assert raw[off..off + n] == raw[off..end][..n] == x.Octets();
      OneIsRead(raw, off, end, declared, Walk(Reports(done), LastVersion(done, None), None), x);
      assert raw[off + n..end] == raw[off..end][n..] == Written(items[1..]);
      OneMoreReported(done, x);
      RestIsRead(raw, off + n, end, declared, done + [x], items[1..]);
      assert done + items == (done + [x]) + items[1..];
    }
  }

  lemma {:induction false} NoneLeft(raw: seq<byte>, end: nat, declared: Option<nat>, w: Walk)
    requires end <= |raw|
    ensures FieldsFrom(raw, end, end, declared, w) ==
            if declared.Some? && declared.value != |w.walked| then w.(why := Some(CountMismatch)) else w
  {
  }

  lemma {:induction false} WrittenIsNotEmpty(items: seq<Item>)
    ensures items != [] ==> |Written(items)| >= 7
  {
  }

  /** A written record is read as the blocks it was written of, with the last version among them; it
      closes unless another number of blocks was declared. */
  lemma {:induction false} WrittenRecordIsRead(items: seq<Item>, declared: Option<nat>)
    requires items != [] && AllFit(items)
    ensures var raw := Written(items);
            FieldsSpec(raw, 0, |raw|, declared) ==
            Walk(Reports(items), LastVersion(items, None),
                 if declared.Some? && declared.value != |items| then Some(CountMismatch) else None)
  {
    hide Written, FieldsFrom, LastVersion;
    var raw := Written(items);
    WrittenIsNotEmpty(items);
    assert raw[0..|raw|] == raw;
    NothingDone();
    RestIsRead(raw, 0, |raw|, declared, [], items);
    assert [] + items == items;
  }

  lemma {:induction false} NothingDone()
    ensures Reports([]) == [] && LastVersion([], None) == None
  {
  }

  lemma {:induction false} ClosedIsWritten(raw: seq<byte>, off: nat, end: nat, declared: Option<nat>, done: seq<Item>,
                                           w: Walk)
    returns (items: seq<Item>)
    requires off <= end <= |raw| && w.walked == Reports(done) && w.why.None?
    requires FieldsFrom(raw, off, end, declared, w).Closes()
    ensures AllFit(items) && raw[off..end] == Written(items)
    ensures FieldsFrom(raw, off, end, declared, w).walked == Reports(done + items)
    ensures declared.Some? ==> declared.value == |done| + |items|
    decreases end - off
  {
    hide Item.Octets, LE, U16, Item.Fits, FieldsFrom;
    if off == end {
      items := [];
      assert done + items == done;
      NoneLeft(raw, off, declared, w);
    } else {
      ClosingStep(raw, off, end, declared, w);
      var x := ReadAreOctets(raw, off);
      var n := |x.Octets()|;
      OneIsRead(raw, off, end, declared, w, x);
      OneMoreReported(done, x);
      var next := Walk(w.walked + [x.Reported()], if x.Reported().IsSvn() then Some(LE(x.value)) else w.svn, None);
      var rest := ClosedIsWritten(raw, off + n, end, declared, done + [x], next);
      items := [x] + rest;
      assert items[1..] == rest && done + items == (done + [x]) + rest;
      assert raw[off..end] == raw[off..off + n] + raw[off + n..end];
    }
  }

  /** The record written of these blocks, as many as were declared. */
  ghost predicate IsRecord(record: seq<byte>, declared: Option<nat>, items: seq<Item>) {
    items != [] && AllFit(items) && record == Written(items) && (declared.Some? ==> declared.value == |items|)
  }

  /** The second reader closes exactly the records that can be written, with as many blocks as were
      declared, and reports those blocks. */
  lemma {:induction false} ClosesExactly(raw: seq<byte>, offset: nat, length: nat, declared: Option<nat>,
                                         walked: seq<Entry>)
    ensures FieldsSpec(raw, offset, length, declared).Closes()
            && FieldsSpec(raw, offset, length, declared).walked == walked <==>
            && offset + length <= |raw|
            && exists items :: IsRecord(raw[offset..offset + length], declared, items) && walked == Reports(items)
  {
    hide IsRecord, FieldsSpec;
    if FieldsSpec(raw, offset, length, declared).Closes() {
      var items := ClosedIsRecord(raw, offset, length, declared);
    }
    if offset + length <= |raw| {
      if items: seq<Item> :| IsRecord(raw[offset..offset + length], declared, items) && walked == Reports(items) {
        RecordCloses(raw, offset, length, declared, items);
      }
    }
  }

  lemma {:induction false} ClosedIsRecord(raw: seq<byte>, offset: nat, length: nat, declared: Option<nat>)
    returns (items: seq<Item>)
    requires FieldsSpec(raw, offset, length, declared).Closes()
    ensures offset + length <= |raw| && IsRecord(raw[offset..offset + length], declared, items)
    ensures FieldsSpec(raw, offset, length, declared).walked == Reports(items)
  {
    hide Written, FieldsFrom, LastVersion, AllFit;
    NothingDone();
    items := ClosedIsWritten(raw, offset, offset + length, declared, [], Walk([], None, None));
    assert [] + items == items;
    EmptyIsEmpty(items, raw[offset..offset + length]);
  }

  lemma {:induction false} RecordCloses(raw: seq<byte>, offset: nat, length: nat, declared: Option<nat>,
                                        items: seq<Item>)
    requires offset + length <= |raw| && IsRecord(raw[offset..offset + length], declared, items)
    ensures FieldsSpec(raw, offset, length, declared) == Walk(Reports(items), LastVersion(items, None), None)
  {
    hide Written, FieldsFrom, LastVersion, AllFit;
    NothingDone();
    WrittenIsNotEmpty(items);
    RestIsRead(raw, offset, offset + length, declared, [], items);
    assert [] + items == items;
  }

  lemma {:induction false} EmptyIsEmpty(items: seq<Item>, s: seq<byte>)
    requires s == Written(items) && s != []
    ensures items != []
  {
  }

  // ---- any record the first walker takes --------------------------------------------------------

  /** A block of any specification: its size says where it ends and nothing is asked of its body. */
  datatype Raw = Raw(index: byte, spec: byte, body: seq<byte>)
  {
    predicate Fits() { |body| < 0x1_0000 }

    function Octets(): seq<byte> { [index, spec] + ToLE(|body|, 2) + body }

    /** What the walker says of it: a value only in the DMTF format, and only if it is all there. */
    function At(p: nat): Block {
      var n := if |body| >= 3 then body[1] as int + 256 * (body[2] as int) else 0;
      Block(index, spec, |body|, p,
            if spec % 2 == 1 && |body| >= 3 && 3 + n <= |body| then Some(Value(body[0], n, p + 7)) else None)
    }
  }

  ghost predicate AllRaw(xs: seq<Raw>) {
    forall i :: 0 <= i < |xs| ==> xs[i].Fits()
  }

  function RawWritten(xs: seq<Raw>): seq<byte> {
    if xs == [] then [] else xs[0].Octets() + RawWritten(xs[1..])
  }

  function BlocksOf(xs: seq<Raw>, p: nat): seq<Block> {
    if xs == [] then [] else [xs[0].At(p)] + BlocksOf(xs[1..], p + |xs[0].Octets()|)
  }

  lemma {:induction false} RawReads(record: seq<byte>, p: nat, x: Raw)
    requires x.Fits() && At(record, p, x.Octets())
    ensures |x.Octets()| == 4 + |x.body| && U16(record, p + 2) == |x.body| && BlockAt(record, p) == x.At(p)
  {
    hide ToLE;
    TwoBytes(|x.body|);
    var e, b := x.Octets(), record[p..p + |x.Octets()|];
    assert record[p] == b[0] && record[p + 1] == b[1] && record[p + 2] == b[2] && record[p + 3] == b[3];
    if |x.body| >= 3 {
      assert record[p + 4] == b[4] == x.body[0] && record[p + 5] == b[5] == x.body[1];
      assert record[p + 6] == b[6] == x.body[2];
    }
  }

  lemma {:induction false} RawIsThere(record: seq<byte>, p: nat) returns (x: Raw)
    requires p + 4 <= |record| && p + 4 + U16(record, p + 2) <= |record|
    ensures x.Fits() && |x.Octets()| == 4 + U16(record, p + 2) && At(record, p, x.Octets())
  {
    hide ToLE, U16;
    PairAt(record, p + 2);
    var n := U16(record, p + 2);
    x := Raw(record[p], record[p + 1], record[p + 4..p + 4 + n]);
    assert record[p..p + 4 + n] == [record[p], record[p + 1]] + record[p + 2..p + 4] + record[p + 4..p + 4 + n];
  }

  lemma {:induction false} WalkTakes(record: seq<byte>, p: nat, n: nat, blocks: seq<Block>, x: Raw)
    requires n > 0 && x.Fits() && At(record, p, x.Octets())
    ensures WalkFrom(record, p, n, blocks) == WalkFrom(record, p + |x.Octets()|, n - 1, blocks + [x.At(p)])
  {
    hide U16, BlockAt, Raw.Octets, Raw.At;
    RawReads(record, p, x);
    RawEnds(x, p);
  }

  lemma {:induction false} RawEnds(x: Raw, p: nat)
    ensures x.At(p).End() == p + 4 + |x.body| && |x.Octets()| == 4 + |x.body|
  {
    hide ToLE;
  }

  lemma {:induction false} NoRaw()
    ensures RawWritten([]) == []
  {
  }

  lemma {:induction false} FirstRaw(xs: seq<Raw>, rest: seq<byte>)
    requires xs != [] && AllRaw(xs)
    ensures var (s, m, tail) := (RawWritten(xs) + rest, |xs[0].Octets()|, RawWritten(xs[1..]));
            && |RawWritten(xs)| == m + |tail| && s[..m] == xs[0].Octets() && s[m..] == tail + rest
            && xs[0].Fits() && AllRaw(xs[1..])
  {
    hide Raw.Octets, Raw.Fits;
    Assoc(xs[0].Octets(), RawWritten(xs[1..]), rest);
  }

  /** The walk over written blocks goes on behind them. */
  lemma {:induction false} WalkReads(record: seq<byte>, p: nat, n: nat, blocks: seq<Block>, xs: seq<Raw>,
                                     rest: seq<byte>)
    requires p <= |record| && AllRaw(xs) && |xs| <= n && record[p..] == RawWritten(xs) + rest
    ensures p + |RawWritten(xs)| <= |record| && record[p + |RawWritten(xs)|..] == rest
    ensures WalkFrom(record, p, n, blocks) ==
            WalkFrom(record, p + |RawWritten(xs)|, n - |xs|, blocks + BlocksOf(xs, p))
    decreases |xs|
  {
    hide U16, WalkFrom, Raw.Octets, Raw.At, Raw.Fits, RawWritten, AllRaw;
    if xs == [] {
      assert RawWritten(xs) == [] by { NoRaw(); }
      assert blocks + [] == blocks;
    } else {
      var x, m := xs[0], |xs[0].Octets()|;
      FirstRaw(xs, rest);
      assert record[p..p + m] == record[p..][..m] && record[p + m..] == record[p..][m..];
      WalkTakes(record, p, n, blocks, x);
      WalkReads(record, p + m, n - 1, blocks + [x.At(p)], xs[1..], rest);
      Assoc(blocks, [x.At(p)], BlocksOf(xs[1..], p + m));
    }
  }

  /** No further block is all there. */
  ghost predicate Broken(rest: seq<byte>) {
    |rest| < 4 || |rest| < 4 + rest[2] as int + 256 * (rest[3] as int)
  }

  lemma {:induction false} WalkStops(record: seq<byte>, p: nat, n: nat, blocks: seq<Block>)
    requires p <= |record|
    ensures n == 0 ==> WalkFrom(record, p, n, blocks) == if p == |record| then Ok(blocks) else Refused(DoesNotTile)
    ensures n > 0 && |record| - p < 4 ==> WalkFrom(record, p, n, blocks) == Refused(BlockHeaderOverruns)
    ensures n > 0 && |record| - p >= 4 && Broken(record[p..]) ==>
              WalkFrom(record, p, n, blocks) == Refused(BlockSizeOverruns)
  {
  }

  /** Every record is as many written blocks as are all there, up to the number asked for, and a rest. */
  lemma {:induction false} WalkSplits(record: seq<byte>, p: nat, n: nat) returns (xs: seq<Raw>, rest: seq<byte>)
    requires p <= |record|
    ensures AllRaw(xs) && |xs| <= n && record[p..] == RawWritten(xs) + rest
    ensures |xs| == n || Broken(rest)
    decreases n
  {
    hide Raw.Octets, Raw.Fits;
    if n == 0 || Broken(record[p..]) {
      xs, rest := [], record[p..];
    } else {
      var x := RawIsThere(record, p);
      var m := |x.Octets()|;
      var ys, r := WalkSplits(record, p + m, n - 1);
      xs, rest := [x] + ys, r;
      assert xs[1..] == ys && record[p..] == record[p..p + m] + record[p + m..];
      Assoc(x.Octets(), RawWritten(ys), rest);
    }
  }

  /** The record is these blocks and the rest. */
  ghost predicate Splits(record: seq<byte>, xs: seq<Raw>, rest: seq<byte>) {
    AllRaw(xs) && record == RawWritten(xs) + rest
  }

  lemma {:induction false} SplitDecides(record: seq<byte>, n: nat, xs: seq<Raw>, rest: seq<byte>)
    requires Splits(record, xs, rest) && |xs| <= n && (|xs| == n || Broken(rest))
    ensures WalkSpec(record, n) ==
            if |xs| == n then (if rest == [] then Ok(BlocksOf(xs, 0)) else Refused(DoesNotTile))
            else if |rest| < 4 then Refused(BlockHeaderOverruns) else Refused(BlockSizeOverruns)
  {
    hide WalkFrom, RawWritten, BlocksOf, Broken;
    assert record[0..] == record;
    WalkReads(record, 0, n, [], xs, rest);
    var p := |RawWritten(xs)|;
    assert |record[p..]| == |record| - p && [] + BlocksOf(xs, 0) == BlocksOf(xs, 0);
    WalkStops(record, p, n - |xs|, BlocksOf(xs, 0));
  }

  /** The in-flight walker takes exactly the records that are `n` blocks of any kind, and says of each
      what it is and where it stands; otherwise it says what follows the blocks that are all there:
      too little for a header, for a body, or more than nothing after the last. */
  lemma {:induction false} WalksExactly(record: seq<byte>, n: nat, bs: seq<Block>)
    ensures WalkSpec(record, n) == Ok(bs) <==>
            exists xs :: Splits(record, xs, []) && |xs| == n && bs == BlocksOf(xs, 0)
    ensures WalkSpec(record, n) == Refused(DoesNotTile) <==>
            exists xs, rest :: Splits(record, xs, rest) && |xs| == n && rest != []
    ensures WalkSpec(record, n) == Refused(BlockHeaderOverruns) <==>
            exists xs, rest :: Splits(record, xs, rest) && |xs| < n && |rest| < 4
    ensures WalkSpec(record, n) == Refused(BlockSizeOverruns) <==>
            exists xs, rest :: Splits(record, xs, rest) && |xs| < n && |rest| >= 4 && Broken(rest)
  {
    hide WalkSpec, Splits, BlocksOf;
    WalkIsOne(record, n);
    forall xs: seq<Raw>, rest: seq<byte> | Splits(record, xs, rest) && |xs| <= n && (|xs| == n || Broken(rest))
      ensures WalkSpec(record, n) ==
              if |xs| == n then (if rest == [] then Ok(BlocksOf(xs, 0)) else Refused(DoesNotTile))
              else if |rest| < 4 then Refused(BlockHeaderOverruns) else Refused(BlockSizeOverruns)
    {
      SplitDecides(record, n, xs, rest);
    }
  }

  lemma {:induction false} WalkIsOne(record: seq<byte>, n: nat)
    ensures exists xs, rest :: Splits(record, xs, rest) && |xs| <= n && (|xs| == n || Broken(rest))
  {
    hide RawWritten, AllRaw;
    assert record[0..] == record;
    var xs, rest := WalkSplits(record, 0, n);
    assert Splits(record, xs, rest);
  }

  // ---- a response ---------------------------------------------------------------------------

  /** A MEASUREMENTS response; `blocks` is what it says of its record. */
  datatype Response = Response(version: byte, code: byte, param1: byte, param2: byte, blocks: byte, record: seq<byte>,
                               nonce: seq<byte>, extra: seq<byte>, context: seq<byte>, signature: seq<byte>)
  {
    ghost predicate Valid() { |record| < 0x100_0000 && |nonce| == 32 && |extra| < 0x1_0000 }

    function Octets(): seq<byte> {
      [version, code, param1, param2, blocks] + ToLE(|record|, 3) + record + nonce + ToLE(|extra|, 2) + extra + context
        + signature
    }
  }

  /** Where everything is in it. */
  function LayoutOf(r: Response, blocks: seq<Block>): Layout {
    var nonce := 8 + |r.record|;
    var after := nonce + 34 + |r.extra|;
    Layout(after + |r.context| + |r.signature|, r.blocks, |r.record|, 8, nonce, nonce + 32, |r.extra|, nonce + 34,
           if r.context == [] then None else Some(after), |r.context|, after + |r.context|, |r.signature|, blocks)
  }

  lemma {:induction false} ThreeBytes(n: nat)
    requires n < 0x100_0000
    ensures ToLE(n, 3) == [n % 256, n / 256 % 256, n / 65536]
  {
    TwoBytes(n / 256);
    assert ToLE(n, 3) == [n % 256] + ToLE(n / 256, 2);
    assert n / 256 / 256 == n / 65536;
  }

  lemma {:induction false} SevenParts(a: seq<byte>, b: seq<byte>, c: seq<byte>, d: seq<byte>, e: seq<byte>,
                                      f: seq<byte>, g: seq<byte>)
    ensures var m := a + b + c + d + e + f + g;
            var (i, j, k) := (|a| + |b|, |a| + |b| + |c|, |a| + |b| + |c| + |d|);
            && |m| == k + |e| + |f| + |g| && m[..|a|] == a && m[|a|..i] == b && m[i..j] == c && m[j..k] == d
            && m[k..k + |e|] == e && m[k + |e|..k + |e| + |f|] == f && m[k + |e| + |f|..] == g
  {
  }

  lemma {:induction false} HeadReads(m: seq<byte>, five: seq<byte>, n: nat)
    requires |m| >= 8 && |five| == 5 && n < 0x100_0000 && m[..8] == five + ToLE(n, 3)
    ensures m[4] == five[4] && U24(m, 5) == n
  {
    ThreeBytes(n);
    var b := m[..8];
    assert m[4] == b[4] && m[5] == b[5] && m[6] == b[6] && m[7] == b[7];
  }

  lemma {:induction false} PairReads(m: seq<byte>, at: nat, n: nat)
    requires at + 2 <= |m| && n < 0x1_0000 && m[at..at + 2] == ToLE(n, 2)
    ensures U16(m, at) == n
  {
    TwoBytes(n);
    var b := m[at..at + 2];
    assert m[at] == b[0] && m[at + 1] == b[1];
  }

  lemma {:induction false} PartsOf(r: Response)
    requires r.Valid()
    ensures var m := r.Octets();
            var l := LayoutOf(r, []);
            && |m| == l.spdmBytes >= 8 && m[4] == r.blocks && U24(m, 5) == |r.record|
            && m[8..l.nonceOffset] == r.record
            && l.opaqueLengthOffset + 2 <= |m| && U16(m, l.opaqueLengthOffset) == |r.extra|
  {
    hide ToLE, U16, U24;
    var m := r.Octets();
    var five := [r.version, r.code, r.param1, r.param2, r.blocks];
    SevenParts(five + ToLE(|r.record|, 3), r.record, r.nonce, ToLE(|r.extra|, 2), r.extra, r.context, r.signature);
    HeadReads(m, five, |r.record|);
    PairReads(m, 8 + |r.record| + 32, |r.extra|);
  }

  /** The sizes the proxy learned are those of this response. */
  ghost predicate Sized(r: Response, conv: Learned) {
    && r.Valid() && conv.signatureBytes.Some? && conv.pqcSel == 0 && conv.contextBytes == Some(|r.context|)
    && |r.signature| == if conv.signatureRequested == Some(true) then conv.signatureBytes.value else 0
  }

  lemma {:induction false} WrittenIsParsed(r: Response, conv: Learned)
    requires Sized(r, conv) && WalkSpec(r.record, r.blocks).Ok?
    ensures ParseMeasurements(r.Octets(), conv) == Ok(LayoutOf(r, WalkSpec(r.record, r.blocks).value))
  {
    hide U16, U24, WalkSpec, Response.Octets;
    PartsOf(r);
  }

  lemma {:induction false} TheseThree(a: int, b: int, c: int)
    requires 0 <= a < 256 && 0 <= b < 256 && 0 <= c < 256
    ensures ToLE(a + 0x100 * b + 0x1_0000 * c, 3) == [a, b, c]
  {
    var n := a + 0x100 * b + 0x1_0000 * c;
    assert n == a + 256 * (b + 256 * c);
    assert n / 256 == b + 256 * c && n % 256 == a;
    assert n / 256 / 256 == c && n / 256 % 256 == b;
    assert ToLE(c, 1) == [c] + ToLE(c / 256, 0) == [c];
    assert ToLE(n / 256, 2) == [b] + ToLE(c, 1);
  }

  lemma {:induction false} FirstEight(msg: seq<byte>)
    requires |msg| >= 8
    ensures U24(msg, 5) < 0x100_0000
    ensures msg[..8] == [msg[0], msg[1], msg[2], msg[3], msg[4]] + ToLE(U24(msg, 5), 3)
  {
    hide ToLE;
    TheseThree(msg[5], msg[6], msg[7]);
  }

  lemma {:induction false} PairAt(msg: seq<byte>, off: nat)
    requires off + 2 <= |msg|
    ensures U16(msg, off) < 0x1_0000 && msg[off..off + 2] == ToLE(U16(msg, off), 2)
  {
    hide ToLE;
    TwoBytes(U16(msg, off));
  }

  /** A message that has room for its record, its opaque data and a context is such a response. */
  lemma {:induction false} CutUp(msg: seq<byte>, context: nat) returns (r: Response)
    requires |msg| >= 8 && 8 + U24(msg, 5) + 34 <= |msg|
    requires 8 + U24(msg, 5) + 34 + U16(msg, 8 + U24(msg, 5) + 32) + context <= |msg|
    ensures r.Valid() && r.Octets() == msg && |r.context| == context && r.blocks == msg[4]
    ensures |r.record| == U24(msg, 5) && r.record == msg[8..8 + U24(msg, 5)]
    ensures |r.extra| == U16(msg, 8 + U24(msg, 5) + 32)
    ensures var after := 8 + |r.record| + 34 + |r.extra|;
            r.context == msg[after..after + context] && |r.signature| == |msg| - after - context
  {
    hide ToLE, U16, U24;
    var n := 8 + U24(msg, 5);
    var a, b := n + 34, n + 34 + U16(msg, n + 32);
    var s := b + context;
    r := Response(msg[0], msg[1], msg[2], msg[3], msg[4], msg[8..n], msg[n..n + 32], msg[a..b], msg[b..s], msg[s..]);
    FirstEight(msg);
    PairAt(msg, n + 32);
    SevenSlices(msg, 8, n, n + 32, a, b, s);
  }

  lemma {:induction false} ParsedIsWritten(msg: seq<byte>, conv: Learned) returns (r: Response)
    requires ParseMeasurements(msg, conv).Ok?
    ensures Sized(r, conv) && r.Octets() == msg && WalkSpec(r.record, r.blocks).Ok?
  {
    hide WalkSpec, U16, U24, Response.Octets;
    r := CutUp(msg, conv.contextBytes.value);
  }

  lemma {:induction false} SevenSlices(m: seq<byte>, a: nat, b: nat, c: nat, d: nat, e: nat, f: nat)
    requires a <= b <= c <= d <= e <= f <= |m|
    ensures m == m[..a] + m[a..b] + m[b..c] + m[c..d] + m[d..e] + m[e..f] + m[f..]
  {
  }

  /** The in-flight parser accepts exactly the responses that can be written with the sizes it
      learned and a record its walk accepts, and then places every field where it was written. */
  lemma {:induction false} ParsesExactly(msg: seq<byte>, conv: Learned, l: Layout)
    ensures ParseMeasurements(msg, conv) == Ok(l) <==>
            exists r: Response :: Sized(r, conv) && r.Octets() == msg && WalkSpec(r.record, r.blocks).Ok?
                                  && l == LayoutOf(r, WalkSpec(r.record, r.blocks).value)
  {
    hide ParseMeasurements, WalkSpec, Sized, LayoutOf, Response.Octets;
    if ParseMeasurements(msg, conv) == Ok(l) {
      var r := ParsedIsWritten(msg, conv);
      WrittenIsParsed(r, conv);
    }
    if r: Response :| Sized(r, conv) && r.Octets() == msg && WalkSpec(r.record, r.blocks).Ok?
                      && l == LayoutOf(r, WalkSpec(r.record, r.blocks).value)
    {
      WrittenIsParsed(r, conv);
    }
  }

  // ---- the offline reader --------------------------------------------------------------------

  /** A response to this request: its context is the request's, and it is signed if that was asked. */
  ghost predicate Answers(r: Response, q: Proxy.Request, sig: Option<nat>) {
    && r.Valid() && q.Valid() && r.context == q.context
    && if q.Signed() then sig == Some(|r.signature|) else r.signature == []
  }

  function PlacedOf(r: Response, q: Proxy.Request): Placed {
    var l := LayoutOf(r, []);
    Placed(r.blocks, |r.record|, l.nonceOffset, l.opaqueLengthOffset, |r.extra|, l.contextOffset,
           if q.Signed() then Some(l.signatureOffset) else None, |r.signature|, q.Signed())
  }

  lemma {:induction false} ContextPlaces(q: Proxy.Request)
    requires q.Valid()
    ensures |q.Bytes()| >= 4 && (q.Bytes()[2] % 2 == 1 <==> q.Signed())
    ensures RequestContext(q.Bytes()) == Some(|q.context|)
    ensures var sent := 4 + if q.Signed() then 33 else 0;
            |q.Bytes()| == sent + |q.context| && Slice(q.Bytes(), sent, sent + |q.context|) == q.context
  {
    var sent := 4 + if q.Signed() then 33 else 0;
    assert q.Bytes()[sent..] == q.context;
  }

  lemma {:induction false} AnswerIsPlaced(r: Response, q: Proxy.Request, sig: Option<nat>)
    requires Answers(r, q, sig)
    ensures Place(r.Octets(), q.Bytes(), sig) == Settled(PlacedOf(r, q))
  {
    hide U16, U24, Response.Octets, RequestContext, Proxy.Request.Bytes;
    PartsOf(r);
    ContextPlaces(q);
    ContextStands(r);
  }

  lemma {:induction false} ContextStands(r: Response)
    requires r.Valid()
    ensures var after := LayoutOf(r, []).opaqueOffset + |r.extra|;
            Slice(r.Octets(), after, after + |r.context|) == r.context
  {
    hide ToLE;
    var head := [r.version, r.code, r.param1, r.param2, r.blocks] + ToLE(|r.record|, 3);
    SevenParts(head, r.record, r.nonce, ToLE(|r.extra|, 2), r.extra, r.context, r.signature);
  }

  lemma {:induction false} RequestIsWritten(req: seq<byte>) returns (q: Proxy.Request)
    requires |req| >= 3 && req[1] == 0xE0 && RequestContext(req).Some?
    ensures q.Valid() && q.Bytes() == req
  {
    q := Proxy.RequestOf(req);
    var front := [req[0], 0xE0, req[2], req[3]];
    if req[2] % 2 == 1 {
      assert req == front + (req[4..36] + [req[36]]) + req[37..];
    } else {
      assert req == front + [] + req[4..];
    }
  }

  lemma {:induction false} PlacedIsAnswer(rsp: seq<byte>, req: seq<byte>, sig: Option<nat>)
    returns (r: Response, q: Proxy.Request)
    requires |req| >= 3 && req[1] == 0xE0 && Place(rsp, req, sig).Settled?
    ensures Answers(r, q, sig) && r.Octets() == rsp && q.Bytes() == req
  {
    hide U16, U24, Response.Octets, Proxy.Request.Bytes;
    q := RequestIsWritten(req);
    ContextPlaces(q);
    r := CutUp(rsp, |q.context|);
  }

  /** The offline reader places exactly the responses that answer their request: written in this
      layout, echoing its context, with a signature of the negotiated size exactly if one was asked
      for; and places every field where it was written. */
  lemma {:induction false} PlacesExactly(rsp: seq<byte>, req: seq<byte>, sig: Option<nat>, p: Placed)
    requires |req| >= 3 && req[1] == 0xE0
    ensures Place(rsp, req, sig) == Settled(p) <==>
            exists r: Response, q: Proxy.Request ::
              Answers(r, q, sig) && r.Octets() == rsp && q.Bytes() == req && p == PlacedOf(r, q)
  {
    hide Place, Answers, PlacedOf, Response.Octets, Proxy.Request.Bytes;
    if Place(rsp, req, sig).Settled? {
      var r, q := PlacedIsAnswer(rsp, req, sig);
      AnswerIsPlaced(r, q, sig);
    }
    if r: Response, q: Proxy.Request :|
      Answers(r, q, sig) && r.Octets() == rsp && q.Bytes() == req && p == PlacedOf(r, q)
    {
      AnswerIsPlaced(r, q, sig);
    }
  }
}
