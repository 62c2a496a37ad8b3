/**
 Decoding undoes encoding wherever the encoding stands, so encodings are unambiguous: no
 two values share one and none is the beginning of another.
 */
module CborRoundTrip {
  import opened Bytes
  import opened Cbor

  lemma {:induction false} SplitAt(buf: seq<byte>, off: nat, a: seq<byte>, b: seq<byte>)
    requires At(buf, off, a + b)
    ensures At(buf, off, a) && At(buf, off + |a|, b)
  {
    var e := a + b;
    assert buf[off..off + |a|] == buf[off..off + |e|][..|a|] == e[..|a|] == a;
    assert buf[off + |a|..off + |e|] == buf[off..off + |e|][|a|..] == e[|a|..] == b;
  }

  /** A head past 23 is one byte naming its width and the argument in that many bytes. */
  lemma {:induction false} LongHead(major: nat, arg: nat) returns (n: nat)
    requires major < 8 && 24 <= arg < LIMIT
    ensures n == 1 || n == 2 || n == 4 || n == 8
    ensures Head(major, arg).value
         == [32 * major + if n == 1 then 24 else if n == 2 then 25 else if n == 4 then 26 else 27] + ToBE(arg, n)
    ensures arg < Pow256(n)
  {
    Widths();
    n := if arg < 0x100 then 1 else if arg < 0x1_0000 then 2 else if arg < 0x1_0000_0000 then 4 else 8;
    assert arg < 0x100 ==> ToBE(arg, 1) == ToBE(0, 0) + [arg] == [arg];
  }

  lemma {:induction false} ReadsHead(buf: seq<byte>, off: nat, major: nat, arg: nat)
    requires major < 8 && arg < LIMIT && At(buf, off, Head(major, arg).value)
    ensures ReadArg(buf, off) == Ok((major, arg, off + |Head(major, arg).value|))
  {
    hide BE, ToBE, Pow256;
    var h := Head(major, arg).value;
    assert buf[off] == buf[off..off + |h|][0] == h[0];
    if arg >= 24 {
      var n := LongHead(major, arg);
      assert buf[off + 1..off + 1 + n] == buf[off..off + |h|][1..] == h[1..] == ToBE(arg, n);
      BERoundTrip(arg, n);
    }
  }

  lemma {:induction false} PutNew(acc: seq<Pair>, k: Item, v: Item)
    requires !Holds(acc, k)
    ensures Put(acc, k, v) == acc + [Pair(k, v)]
  {
    hide KeyClass;
    if acc == [] {
      assert acc + [Pair(k, v)] == [Pair(k, v)];
    } else {
      PutNew(acc[1..], k, v);
      assert acc + [Pair(k, v)] == [acc[0]] + (acc[1..] + [Pair(k, v)]);
    }
  }

  lemma {:induction false} GetAfterPut(pairs: seq<Pair>, k: Item, v: Item)
    ensures Get(Put(pairs, k, v), k) == Some(v)
    ensures Get(pairs, k).Some? ==> Put(Put(pairs, k, v), k, Get(pairs, k).value) == pairs
  {
    if pairs != [] {
      GetAfterPut(pairs[1..], k, v);
    }
  }

  lemma {:induction false} AsciiIsUtf8(s: seq<byte>)
    requires forall i :: 0 <= i < |s| ==> s[i] < 0x80
    ensures ValidUtf8(s)
  {
    if s != [] {
      AsciiIsUtf8(s[1..]);
    }
  }

  lemma {:induction false} HoldsApart(acc: seq<Pair>, p: Pair, rest: seq<Pair>, k: Item)
    requires !Holds(acc + [p] + rest, k)
    ensures KeyClass(p.key) != KeyClass(k)
  {
    var all := acc + [p] + rest;
    if acc != [] {
      assert all[1..] == acc[1..] + [p] + rest;
      HoldsApart(acc[1..], p, rest, k);
    } else {
      assert all[0] == p;
    }
  }

  /** Keys of a dictionary differ from the keys before them. */
  lemma {:induction false} DictionaryMiddle(acc: seq<Pair>, p: Pair, rest: seq<Pair>)
    requires Dictionary(acc + [p] + rest)
    ensures IsKey(p.key) && !Holds(acc, p.key)
  {
    var all := acc + [p] + rest;
    if acc != [] {
      assert all[1..] == acc[1..] + [p] + rest && all[0] == acc[0];
      DictionaryMiddle(acc[1..], p, rest);
      HoldsApart(acc[1..], p, rest, acc[0].key);
    } else {
      assert all[0] == p;
    }
  }

  lemma {:induction false} SimpleHeads()
    ensures Head(SIMPLE, 20) == Ok([0xF4]) && Head(SIMPLE, 21) == Ok([0xF5]) && Head(SIMPLE, 22) == Ok([0xF6])
  {
  }

  lemma {:induction false} LoadInvertsEncLeaf(buf: seq<byte>, off: nat, v: Item)
    requires Encodable(v) && At(buf, off, Enc(v)) && !v.Array? && !v.Map? && !v.Tag?
    ensures Load(buf, off) == Ok((v, off + |Enc(v)|))
  {
    hide Head, ReadArg, ValidUtf8, LoadItems, LoadPairs;
    match v
    case Int(n) =>
      if n >= 0 { ReadsHead(buf, off, UINT, n); } else { ReadsHead(buf, off, NEGINT, -1 - n); }
    case ByteString(b) =>
      SplitAt(buf, off, Head(BYTES, |b|).value, b);
      ReadsHead(buf, off, BYTES, |b|);
    case Text(u) =>
      SplitAt(buf, off, Head(TEXT, |u|).value, u);
      ReadsHead(buf, off, TEXT, |u|);
    case Bool(b) => SimpleHeads(); ReadsHead(buf, off, SIMPLE, if b then 21 else 20);
    case Null => SimpleHeads(); ReadsHead(buf, off, SIMPLE, 22);
  }

  /** Decode inverts encode at any offset and under any suffix. */
  lemma {:induction false} LoadInvertsEnc(buf: seq<byte>, off: nat, v: Item)
    requires Encodable(v) && At(buf, off, Enc(v))
    ensures Load(buf, off) == Ok((v, off + |Enc(v)|))
    decreases v, 1
  {
    hide Head, ReadArg, ValidUtf8, Holds, Put, Dictionary, LoadItems, LoadPairs, EncAll, EncPairs, AllEncodable,
         PairsEncodable, At;
    match v
    case Array(items) =>
      var h := Head(ARRAY, |items|).value;
      SplitAt(buf, off, h, EncAll(items));
      ReadsHead(buf, off, ARRAY, |items|);
      LoadInvertsEncAll(buf, off + |h|, items, []);
      assert [] + items == items;
    case Map(pairs) =>
      var h := Head(MAP, |pairs|).value;
      SplitAt(buf, off, h, EncPairs(pairs));
      ReadsHead(buf, off, MAP, |pairs|);
      assert [] + pairs == pairs;
      LoadInvertsEncPairs(buf, off + |h|, pairs, []);
    case Tag(tag, item) =>
      SplitAt(buf, off, Head(TAG, tag).value, Enc(item));
      ReadsHead(buf, off, TAG, tag);
      LoadInvertsEnc(buf, off + |Head(TAG, tag).value|, item);
    case _ => LoadInvertsEncLeaf(buf, off, v);
  }

  lemma {:induction false} LoadInvertsEncAll(buf: seq<byte>, off: nat, items: seq<Item>, acc: seq<Item>)
    requires AllEncodable(items) && At(buf, off, EncAll(items))
    ensures LoadItems(buf, off, |items|, acc) == Ok((acc + items, off + |EncAll(items)|))
    decreases items, 0
  {
    hide Load, At, Encodable, Enc;
    if items == [] {
      assert acc + items == acc;
    } else {
      SplitAt(buf, off, Enc(items[0]), EncAll(items[1..]));
      LoadInvertsEnc(buf, off, items[0]);
      LoadInvertsEncAll(buf, off + |Enc(items[0])|, items[1..], acc + [items[0]]);
      assert (acc + [items[0]]) + items[1..] == acc + items;
    }
  }

  lemma {:induction false} LoadInvertsEncPair(buf: seq<byte>, off: nat, p: Pair)
    requires PairEncodable(p) && At(buf, off, EncPair(p))
    ensures Load(buf, off) == Ok((p.key, off + |Enc(p.key)|))
    ensures Load(buf, off + |Enc(p.key)|) == Ok((p.value, off + |EncPair(p)|))
    decreases p, 0
  {
    hide Load, At, Encodable, Enc;
    SplitAt(buf, off, Enc(p.key), Enc(p.value));
    LoadInvertsEnc(buf, off, p.key);
    LoadInvertsEnc(buf, off + |Enc(p.key)|, p.value);
  }

  lemma {:induction false} LoadInvertsEncPairs(buf: seq<byte>, off: nat, pairs: seq<Pair>, acc: seq<Pair>)
    requires PairsEncodable(pairs) && Dictionary(acc + pairs) && At(buf, off, EncPairs(pairs))
    ensures LoadPairs(buf, off, |pairs|, acc) == Ok((acc + pairs, off + |EncPairs(pairs)|))
    decreases pairs, 0
  {
    hide Enc, EncPair, Encodable, Put, Holds, Dictionary, Load, At;
    if pairs == [] {
      assert acc + pairs == acc;
    } else {
      var p := pairs[0];
      SplitAt(buf, off, EncPair(p), EncPairs(pairs[1..]));
      LoadInvertsEncPair(buf, off, p);
      assert acc + pairs == acc + [p] + pairs[1..];
      DictionaryMiddle(acc, p, pairs[1..]);
      PutNew(acc, p.key, p.value);
      LoadInvertsEncPairs(buf, off + |EncPair(p)|, pairs[1..], acc + [p]);
    }
  }

  /** The round trip at the level of `dumps` and `loads`. */
  lemma {:induction false} LoadsInvertsDumps(v: Item, suffix: seq<byte>)
    requires Dumps(v).Ok?
    ensures Loads(Dumps(v).value, false) == Ok(v)
    ensures Loads(Dumps(v).value + suffix, true) == Ok(v)
    ensures suffix != [] ==> Loads(Dumps(v).value + suffix, false) == Err(Trailing)
  {
    var e := Enc(v);
    assert At(e, 0, e) && At(e + suffix, 0, e);
    LoadInvertsEnc(e, 0, v);
    LoadInvertsEnc(e + suffix, 0, v);
  }

  /** No encoding is another's beginning, let alone another's whole. */
  lemma {:induction false} EncodingsArePrefixFree(v: Item, w: Item)
    requires Encodable(v) && Encodable(w) && Enc(v) <= Enc(w)
    ensures v == w
  {
    var rest := Enc(w)[|Enc(v)|..];
    assert Enc(w) == Enc(v) + rest;
    LoadsInvertsDumps(v, rest);
    LoadsInvertsDumps(w, []);
    assert Enc(w) + [] == Enc(w);
  }
}
