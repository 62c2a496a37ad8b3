/**
 rats/cose.py against the bytes of RFC 8949 (section 3): what the encoder writes and what the
 decoder reads, said without either of them and without their constants.
 */
module CborGrammar {
  import opened Bytes
  import opened Cbor
  import opened CborRoundTrip

  // ---- heads ------------------------------------------------------------------------------

  /** The number in four bytes, the most significant first. */
  function Word(buf: seq<byte>, off: nat): nat
    requires off + 4 <= |buf|
  {
    0x100_0000 * (buf[off] as int) + 0x1_0000 * (buf[off + 1] as int) + 0x100 * (buf[off + 2] as int)
      + (buf[off + 3] as int)
  }

  /** How many bytes the head at `off` has: the low five bits of the first say. */
  function HeadSize(first: byte): nat {
    if first % 32 < 24 then 1 else if first % 32 == 24 then 2 else if first % 32 == 25 then 3
    else if first % 32 == 26 then 5 else 9
  }

  /** The argument in the head at `off`. */
  function Argument(buf: seq<byte>, off: nat): nat
    requires off < |buf| && off + HeadSize(buf[off]) <= |buf|
  {
    if buf[off] % 32 < 24 then buf[off] % 32
    else if buf[off] % 32 == 24 then buf[off + 1]
    else if buf[off] % 32 == 25 then 0x100 * (buf[off + 1] as int) + (buf[off + 2] as int)
    else if buf[off] % 32 == 26 then Word(buf, off + 1)
    else 0x1_0000_0000 * Word(buf, off + 1) + Word(buf, off + 5)
  }

  /** A head of this major type with this argument stands at `off` and ends at `next`. */
  ghost predicate HeadSays(buf: seq<byte>, off: nat, major: nat, arg: int, next: nat) {
    && off < |buf| && buf[off] / 32 == major && buf[off] % 32 <= 27
    && next == off + HeadSize(buf[off]) <= |buf| && Argument(buf, off) == arg
  }

  lemma {:induction false} WordIsBE(buf: seq<byte>, off: nat)
    requires off + 4 <= |buf|
    ensures BE(buf[off..off + 4]) == Word(buf, off)
  {
    var s := buf[off..off + 4];
    assert s[..3][..2] == s[..2] && s[..2][..1] == s[..1] && s[..1][..0] == [];
    assert BE(s[..1]) == 256 * BE(s[..1][..0]) + s[0] && BE(s[..2]) == 256 * BE(s[..1]) + s[1];
    assert BE(s[..3]) == 256 * BE(s[..2]) + s[2] && BE(s) == 256 * BE(s[..3]) + s[3];
  }

  lemma {:induction false} BEAppend(a: seq<byte>, b: seq<byte>)
    ensures BE(a + b) == BE(a) * Pow256(|b|) + BE(b)
  {
    if b == [] {
      assert a + b == a;
    } else {
      var n := |b| - 1;
      BEAppend(a, b[..n]);
      assert (a + b)[..|a + b| - 1] == a + b[..n];
      assert BE(a) * Pow256(|b|) == 256 * (BE(a) * Pow256(n));
    }
  }

  /** The decoder reads heads as they are. */
  lemma {:induction false} ReadsHeadsExactly(buf: seq<byte>, off: nat, major: nat, arg: nat, next: nat)
    ensures ReadArg(buf, off) == Ok((major, arg, next)) <==> HeadSays(buf, off, major, arg, next)
  {
    hide BE, Pow256;
    if off < |buf| && off + HeadSize(buf[off]) <= |buf| && 24 <= buf[off] % 32 <= 27 {
      ArgumentIsBE(buf, off);
    }
  }

  lemma {:induction false} ArgumentIsBE(buf: seq<byte>, off: nat)
    requires off < |buf| && off + HeadSize(buf[off]) <= |buf| && 24 <= buf[off] % 32 <= 27
    ensures BE(buf[off + 1..off + HeadSize(buf[off])]) == Argument(buf, off)
  {
    var low, s := buf[off] % 32, buf[off + 1..off + HeadSize(buf[off])];
    if low == 24 {
      assert s[..0] == [] && BE(s) == 256 * BE(s[..0]) + s[0];
    } else if low == 25 {
      assert s[..1][..0] == [] && BE(s[..1]) == 256 * BE(s[..1][..0]) + s[0] && BE(s) == 256 * BE(s[..1]) + s[1];
    } else if low == 26 {
      WordIsBE(buf, off + 1);
    } else {
      var a, b := buf[off + 1..off + 5], buf[off + 5..off + 9];
      assert s == a + b;
      BEAppend(a, b);
      WordIsBE(buf, off + 1);
      WordIsBE(buf, off + 5);
      Widths();
    }
  }

  // ---- items --------------------------------------------------------------------------------

  /** An encoding of `v`, by heads of any width, stands from `off` to `end`. A map's pairs are as
      they stand, whether a key comes twice or not. */
  ghost predicate Stands(buf: seq<byte>, off: nat, v: Item, end: nat)
    decreases v, 1
  {
    match v
    case Int(n) => if n >= 0 then HeadSays(buf, off, 0, n, end) else HeadSays(buf, off, 1, -1 - n, end)
    case ByteString(b) =>
      |b| <= end <= |buf| && HeadSays(buf, off, 2, |b|, end - |b|) && buf[end - |b|..end] == b
    case Text(u) =>
      |u| <= end <= |buf| && HeadSays(buf, off, 3, |u|, end - |u|) && buf[end - |u|..end] == u
    case Array(items) => exists o: nat :: HeadSays(buf, off, 4, |items|, o) && AllStand(buf, o, items, end)
    case Map(pairs) => exists o: nat :: HeadSays(buf, off, 5, |pairs|, o) && PairsStand(buf, o, pairs, end)
    case Tag(tag, item) => exists o: nat :: HeadSays(buf, off, 6, tag, o) && Stands(buf, o, item, end)
    case Bool(b) => HeadSays(buf, off, 7, if b then 21 else 20, end)
    case Null => HeadSays(buf, off, 7, 22, end)
  }

  ghost predicate AllStand(buf: seq<byte>, off: nat, items: seq<Item>, end: nat)
    decreases items, 0
  {
    if items == [] then off == end
    else exists o: nat :: Stands(buf, off, items[0], o) && AllStand(buf, o, items[1..], end)
  }

  /** Key first, value second. */
  ghost predicate PairStands(buf: seq<byte>, off: nat, p: Pair, end: nat)
    decreases p, 0
  {
    exists o: nat :: Stands(buf, off, p.key, o) && Stands(buf, o, p.value, end)
  }

  ghost predicate PairsStand(buf: seq<byte>, off: nat, pairs: seq<Pair>, end: nat)
    decreases pairs, 0
  {
    if pairs == [] then off == end
    else exists o: nat :: PairStands(buf, off, pairs[0], o) && PairsStand(buf, o, pairs[1..], end)
  }

  // ---- the encoder ----------------------------------------------------------------------------

  lemma {:induction false} HeadStands(buf: seq<byte>, off: nat, major: nat, arg: nat)
    requires major < 8 && arg < LIMIT && At(buf, off, Head(major, arg).value)
    ensures HeadSays(buf, off, major, arg, off + |Head(major, arg).value|)
  {
    ReadsHead(buf, off, major, arg);
    ReadsHeadsExactly(buf, off, major, arg, off + |Head(major, arg).value|);
  }

  lemma {:induction false} LeafStands(buf: seq<byte>, off: nat, v: Item)
    requires Encodable(v) && At(buf, off, Enc(v)) && !v.Array? && !v.Map? && !v.Tag?
    ensures Stands(buf, off, v, off + |Enc(v)|)
  {
    hide Head, HeadSays, ValidUtf8;
    match v
    case Int(n) =>
      if n >= 0 { HeadStands(buf, off, UINT, n); } else { HeadStands(buf, off, NEGINT, -1 - n); }
    case ByteString(b) =>
      SplitAt(buf, off, Head(BYTES, |b|).value, b);
      HeadStands(buf, off, BYTES, |b|);
    case Text(u) =>
      SplitAt(buf, off, Head(TEXT, |u|).value, u);
      HeadStands(buf, off, TEXT, |u|);
    case Bool(b) => SimpleHeads(); HeadStands(buf, off, SIMPLE, if b then 21 else 20);
    case Null => SimpleHeads(); HeadStands(buf, off, SIMPLE, 22);
  }

  /** What the encoder writes is an encoding of the value. */
  lemma {:induction false} EncodingStands(buf: seq<byte>, off: nat, v: Item)
    requires Encodable(v) && At(buf, off, Enc(v))
    ensures Stands(buf, off, v, off + |Enc(v)|)
    decreases v, 1
  {
    hide Head, HeadSays, ValidUtf8, Dictionary, EncAll, EncPairs, AllEncodable, PairsEncodable, At, AllStand,
         PairsStand;
    match v
    case Array(items) =>
      var h := Head(ARRAY, |items|).value;
      SplitAt(buf, off, h, EncAll(items));
      HeadStands(buf, off, ARRAY, |items|);
      ItemsStand(buf, off + |h|, items);
    case Map(pairs) =>
      var h := Head(MAP, |pairs|).value;
      SplitAt(buf, off, h, EncPairs(pairs));
      HeadStands(buf, off, MAP, |pairs|);
      EveryPairStands(buf, off + |h|, pairs);
    case Tag(tag, item) =>
      var h := Head(TAG, tag).value;
      SplitAt(buf, off, h, Enc(item));
      HeadStands(buf, off, TAG, tag);
      EncodingStands(buf, off + |h|, item);
    case _ => LeafStands(buf, off, v);
  }

  lemma {:induction false} ItemsStand(buf: seq<byte>, off: nat, items: seq<Item>)
    requires AllEncodable(items) && At(buf, off, EncAll(items))
    ensures AllStand(buf, off, items, off + |EncAll(items)|)
    decreases items, 0
  {
    hide At, Encodable, Enc, Stands;
    if items != [] {
      SplitAt(buf, off, Enc(items[0]), EncAll(items[1..]));
      EncodingStands(buf, off, items[0]);
      ItemsStand(buf, off + |Enc(items[0])|, items[1..]);
    }
  }

  lemma {:induction false} OnePairStands(buf: seq<byte>, off: nat, p: Pair)
    requires PairEncodable(p) && At(buf, off, EncPair(p))
    ensures PairStands(buf, off, p, off + |EncPair(p)|)
    decreases p, 0
  {
    hide At, Encodable, Enc, Stands;
    SplitAt(buf, off, Enc(p.key), Enc(p.value));
    EncodingStands(buf, off, p.key);
    EncodingStands(buf, off + |Enc(p.key)|, p.value);
  }

  lemma {:induction false} EveryPairStands(buf: seq<byte>, off: nat, pairs: seq<Pair>)
    requires PairsEncodable(pairs) && At(buf, off, EncPairs(pairs))
    ensures PairsStand(buf, off, pairs, off + |EncPairs(pairs)|)
    decreases pairs, 0
  {
    hide At, PairEncodable, EncPair, PairStands;
    if pairs != [] {
      SplitAt(buf, off, EncPair(pairs[0]), EncPairs(pairs[1..]));
      OnePairStands(buf, off, pairs[0]);
      EveryPairStands(buf, off + |EncPair(pairs[0])|, pairs[1..]);
    }
  }

  lemma {:induction false} DumpsStands(v: Item)
    requires Dumps(v).Ok?
    ensures Stands(Dumps(v).value, 0, v, |Dumps(v).value|)
  {
    hide Stands, Enc, Encodable;
    assert At(Enc(v), 0, Enc(v));
    EncodingStands(Enc(v), 0, v);
  }

  // ---- the decoder ----------------------------------------------------------------------------

  /** Text is UTF-8, and what stands as a key can be one. */
  ghost predicate Acceptable(v: Item)
    decreases v, 1
  {
    match v
    case Text(u) => ValidUtf8(u)
    case Array(items) => AllAcceptable(items)
    case Map(pairs) => PairsAcceptable(pairs)
    case Tag(_, item) => Acceptable(item)
    case _ => true
  }

  ghost predicate AllAcceptable(items: seq<Item>)
    decreases items, 0
  {
    items == [] || (Acceptable(items[0]) && AllAcceptable(items[1..]))
  }

  ghost predicate PairAcceptable(p: Pair)
    decreases p, 0
  {
    Acceptable(p.key) && Acceptable(p.value) && IsKey(p.key)
  }

  ghost predicate PairsAcceptable(pairs: seq<Pair>)
    decreases pairs, 0
  {
    pairs == [] || (PairAcceptable(pairs[0]) && PairsAcceptable(pairs[1..]))
  }

  /** The value in Python: of pairs with equal keys a dict keeps the first key and the last value. */
  ghost function Merged(v: Item): Item
    decreases v, 1
  {
    match v
    case Array(items) => Array(AllMerged(items))
    case Map(pairs) => Map(PairsMerged(pairs, []))
    case Tag(tag, item) => Tag(tag, Merged(item))
    case _ => v
  }

  ghost function AllMerged(items: seq<Item>): seq<Item>
    decreases items, 0
  {
    if items == [] then [] else [Merged(items[0])] + AllMerged(items[1..])
  }

  ghost function PairMerged(p: Pair): Pair
    decreases p, 0
  {
    Pair(Merged(p.key), Merged(p.value))
  }

  ghost function PairsMerged(pairs: seq<Pair>, acc: seq<Pair>): seq<Pair>
    decreases pairs, 0
  {
    if pairs == [] then acc
    else PairsMerged(pairs[1..], Put(acc, PairMerged(pairs[0]).key, PairMerged(pairs[0]).value))
  }

  lemma {:induction false} KeysStayKeys(k: Item)
    requires IsKey(k)
    ensures Merged(k) == k
  {
  }

  /** Whatever encoding stands there is read as its value. */
  lemma {:induction false} StandsLoads(buf: seq<byte>, off: nat, u: Item, end: nat)
    requires off <= |buf| && Stands(buf, off, u, end) && Acceptable(u)
    ensures Load(buf, off) == Ok((Merged(u), end))
    decreases u, 1
  {
    hide HeadSays, ReadArg, ValidUtf8, LoadItems, LoadPairs, AllStand, PairsStand, AllAcceptable, PairsAcceptable,
         AllMerged, PairsMerged;
    match u
    case Int(n) =>
      if n >= 0 {
        ReadsHeadsExactly(buf, off, 0, n, end);
      } else {
        ReadsHeadsExactly(buf, off, 1, -1 - n, end);
      }
    case ByteString(b) => ReadsHeadsExactly(buf, off, 2, |b|, end - |b|);
    case Text(b) => ReadsHeadsExactly(buf, off, 3, |b|, end - |b|);
    case Array(items) =>
      var o: nat :| HeadSays(buf, off, 4, |items|, o) && AllStand(buf, o, items, end);
      ReadsHeadsExactly(buf, off, 4, |items|, o);
      AllStandLoads(buf, o, items, end, []);
      assert [] + AllMerged(items) == AllMerged(items);
    case Map(pairs) =>
      var o: nat :| HeadSays(buf, off, 5, |pairs|, o) && PairsStand(buf, o, pairs, end);
      ReadsHeadsExactly(buf, off, 5, |pairs|, o);
      PairsStandLoads(buf, o, pairs, end, []);
    case Tag(tag, item) =>
      var o: nat :| HeadSays(buf, off, 6, tag, o) && Stands(buf, o, item, end);
      NotNegative(buf, off, 6, tag, o);
      ReadsHeadsExactly(buf, off, 6, tag, o);
      StandsLoads(buf, o, item, end);
    case Bool(b) => ReadsHeadsExactly(buf, off, 7, if b then 21 else 20, end);
    case Null => ReadsHeadsExactly(buf, off, 7, 22, end);
  }

  lemma {:induction false} NotNegative(buf: seq<byte>, off: nat, major: nat, arg: int, next: nat)
    requires HeadSays(buf, off, major, arg, next)
    ensures arg >= 0
  {
  }

  lemma {:induction false} AllStandLoads(buf: seq<byte>, off: nat, items: seq<Item>, end: nat, acc: seq<Item>)
    requires off <= |buf| && AllStand(buf, off, items, end) && AllAcceptable(items)
    ensures LoadItems(buf, off, |items|, acc) == Ok((acc + AllMerged(items), end))
    decreases items, 0
  {
    hide Load, Stands, Acceptable, Merged;
    if items == [] {
      assert acc + [] == acc;
    } else {
      var o: nat :| Stands(buf, off, items[0], o) && AllStand(buf, o, items[1..], end);
      StandsLoads(buf, off, items[0], o);
      AllStandLoads(buf, o, items[1..], end, acc + [Merged(items[0])]);
      Assoc(acc, [Merged(items[0])], AllMerged(items[1..]));
    }
  }

  lemma {:induction false} PairStandsLoads(buf: seq<byte>, off: nat, p: Pair, end: nat) returns (o: nat)
    requires off <= |buf| && PairStands(buf, off, p, end) && PairAcceptable(p)
    ensures off <= o <= |buf| && Load(buf, off) == Ok((PairMerged(p).key, o))
    ensures Load(buf, o) == Ok((PairMerged(p).value, end)) && IsKey(PairMerged(p).key)
    decreases p, 0
  {
    hide Load, Stands, Acceptable;
    o :| Stands(buf, off, p.key, o) && Stands(buf, o, p.value, end);
    StandsLoads(buf, off, p.key, o);
    StandsLoads(buf, o, p.value, end);
    KeysStayKeys(p.key);
  }

  lemma {:induction false} PairsStandLoads(buf: seq<byte>, off: nat, pairs: seq<Pair>, end: nat, acc: seq<Pair>)
    requires off <= |buf| && PairsStand(buf, off, pairs, end) && PairsAcceptable(pairs)
    ensures LoadPairs(buf, off, |pairs|, acc) == Ok((PairsMerged(pairs, acc), end))
    decreases pairs, 0
  {
    hide Load, PairStands, PairAcceptable, PairMerged, Put;
    if pairs != [] {
      var o: nat :| PairStands(buf, off, pairs[0], o) && PairsStand(buf, o, pairs[1..], end);
      var k := PairStandsLoads(buf, off, pairs[0], o);
      var p := PairMerged(pairs[0]);
      PairsStandLoads(buf, o, pairs[1..], end, Put(acc, p.key, p.value));
    }
  }

  /** And whatever is read stands there as some encoding. */
  lemma {:induction false} LoadStands(buf: seq<byte>, off: nat) returns (u: Item)
    requires off <= |buf| && Load(buf, off).Ok?
    ensures Stands(buf, off, u, Load(buf, off).value.1) && Acceptable(u) && Merged(u) == Load(buf, off).value.0
    decreases |buf| - off, 0
  {
    hide HeadSays, ReadArg, ValidUtf8, LoadItems, LoadPairs, AllStand, PairsStand, AllAcceptable, PairsAcceptable,
         AllMerged, PairsMerged;
    var (major, arg, o) := ReadArg(buf, off).value;
    var (v, end) := Load(buf, off).value;
    ReadsHeadsExactly(buf, off, major, arg, o);
    HeadMoves(buf, off, major, arg, o);
    u := v;
    if major == ARRAY {
      var us := LoadItemsStand(buf, o, arg, []);
      u := Array(us);
      assert [] + AllMerged(us) == AllMerged(us);
      assert HeadSays(buf, off, 4, |us|, o) && AllStand(buf, o, us, end);
    } else if major == MAP {
      var us := LoadPairsStand(buf, o, arg, []);
      u := Map(us);
      assert HeadSays(buf, off, 5, |us|, o) && PairsStand(buf, o, us, end);
    } else if major == TAG {
      var inner := LoadStands(buf, o);
      u := Tag(arg, inner);
    }
  }

  lemma {:induction false} HeadMoves(buf: seq<byte>, off: nat, major: nat, arg: int, next: nat)
    requires HeadSays(buf, off, major, arg, next)
    ensures off < next <= |buf|
  {
  }

  lemma {:induction false} LoadItemsStand(buf: seq<byte>, off: nat, n: nat, acc: seq<Item>) returns (us: seq<Item>)
    requires off <= |buf| && LoadItems(buf, off, n, acc).Ok?
    ensures |us| == n && AllStand(buf, off, us, LoadItems(buf, off, n, acc).value.1) && AllAcceptable(us)
    ensures LoadItems(buf, off, n, acc).value.0 == acc + AllMerged(us)
    decreases |buf| - off, 1, n
  {
    hide Load, Stands, Acceptable, Merged;
    us := [];
    if n == 0 {
      assert acc + [] == acc;
    } else {
      var (v, o) := Load(buf, off).value;
      var u := LoadStands(buf, off);
      var rest := LoadItemsStand(buf, o, n - 1, acc + [v]);
      us := [u] + rest;
      assert us[1..] == rest;
      Assoc(acc, [v], AllMerged(rest));
    }
  }

  lemma {:induction false} LoadPairsStand(buf: seq<byte>, off: nat, n: nat, acc: seq<Pair>) returns (us: seq<Pair>)
    requires off <= |buf| && LoadPairs(buf, off, n, acc).Ok?
    ensures |us| == n && PairsStand(buf, off, us, LoadPairs(buf, off, n, acc).value.1) && PairsAcceptable(us)
    ensures LoadPairs(buf, off, n, acc).value.0 == PairsMerged(us, acc)
    decreases |buf| - off, 1, n
  {
    hide Load, Stands, Acceptable, Merged, Put;
    us := [];
    if n > 0 {
      var (k, o) := Load(buf, off).value;
      var (v, e) := Load(buf, o).value;
      var x := LoadStands(buf, off);
      var y := LoadStands(buf, o);
      MergedIsKey(x);
      var rest := LoadPairsStand(buf, e, n - 1, Put(acc, k, v));
      us := [Pair(x, y)] + rest;
      assert us[1..] == rest;
      assert PairStands(buf, off, Pair(x, y), e);
      assert PairMerged(Pair(x, y)) == Pair(k, v);
    }
  }

  lemma {:induction false} MergedIsKey(u: Item)
    ensures IsKey(u) <==> !Merged(u).Array? && !Merged(u).Map? && !Merged(u).Tag?
  {
  }

  /** The decoder reads exactly the encodings of RFC 8949 it has values for, by heads of any
      width: `v` up to `end` if and only if some acceptable item stands there whose value it is. */
  lemma {:induction false} LoadReadsExactly(buf: seq<byte>, off: nat, v: Item, end: nat)
    requires off <= |buf|
    ensures Load(buf, off) == Ok((v, end)) <==> exists u :: Stands(buf, off, u, end) && Acceptable(u) && Merged(u) == v
  {
    hide Load, Stands, Acceptable, Merged;
    if Load(buf, off) == Ok((v, end)) {
      var u := LoadStands(buf, off);
    }
    if u :| Stands(buf, off, u, end) && Acceptable(u) && Merged(u) == v {
      StandsLoads(buf, off, u, end);
    }
  }
}
