/**
 Encoding what was decoded. The decoder is liberal (heads longer than needed, two-byte simple
 values, repeated map keys); the encoder is not, so decode-then-encode never lengthens a
 document and leaves exactly its own encodings alone.
 */
module CborShortest {
  import opened Bytes
  import opened Cbor
  import opened CborRoundTrip

  /** `e` takes no more room than `buf[off..end]`, and the same room only if it is that. */
  ghost predicate Shrinks(e: seq<byte>, buf: seq<byte>, off: nat, end: nat) {
    && off <= end <= |buf|
    && |e| <= end - off
    && (|e| == end - off ==> e == buf[off..end])
  }

  lemma {:induction false} ShrinksAppend(a: seq<byte>, b: seq<byte>, buf: seq<byte>, off: nat, mid: nat, end: nat)
    requires Shrinks(a, buf, off, mid) && Shrinks(b, buf, mid, end)
    ensures Shrinks(a + b, buf, off, end)
  {
    if |a| + |b| == end - off {
      assert buf[off..end] == buf[off..mid] + buf[mid..end];
    }
  }

  lemma {:induction false} HeadNoLongerThanRead(buf: seq<byte>, off: nat, major: nat, arg: nat, o: nat)
    requires ReadArg(buf, off) == Ok((major, arg, o))
    ensures major < 8 && arg < LIMIT && Shrinks(Head(major, arg).value, buf, off, o)
  {
    hide BE, ToBE, Pow256;
    var n := o - off - 1;
    Widths();
    if n > 0 {
      ToBERoundTrip(buf[off + 1..o]);
    }
    if arg >= 24 {
      var m := LongHead(major, arg);
      WidthNeeded(arg, m, n);
      if m == n {
        assert buf[off..o] == [buf[off]] + buf[off + 1..o];
      }
    }
    if n == 0 {
      assert buf[off..o] == [buf[off]];
    }
  }

  lemma {:induction false} WidthNeeded(arg: nat, m: nat, n: nat)
    requires 24 <= arg < LIMIT && n in {0, 1, 2, 4, 8} && (n > 0 ==> arg < Pow256(n)) && (n == 0 ==> arg < 24)
    requires m == if arg < 0x100 then 1 else if arg < 0x1_0000 then 2 else if arg < 0x1_0000_0000 then 4 else 8
    ensures m <= n
  {
    Widths();
  }

  lemma {:induction false} HeadMonotone(major: nat, a: nat, b: nat)
    requires major < 8 && a <= b < LIMIT
    ensures |Head(major, a).value| <= |Head(major, b).value|
  {
  }

  // ---- maps ---------------------------------------------------------------------

  lemma {:induction false} PutHolds(pairs: seq<Pair>, k: Item, v: Item, x: Item)
    ensures Holds(Put(pairs, k, v), x) <==> Holds(pairs, x) || KeyClass(k) == KeyClass(x)
  {
    if pairs != [] && KeyClass(pairs[0].key) != KeyClass(k) {
      PutHolds(pairs[1..], k, v, x);
      assert Put(pairs, k, v)[1..] == Put(pairs[1..], k, v);
    } else if pairs != [] {
      assert Put(pairs, k, v)[1..] == pairs[1..];
    }
  }

  /** Assigning a key keeps a dictionary a dictionary and its contents encodable. */
  lemma {:induction false} PutKeeps(pairs: seq<Pair>, k: Item, v: Item)
    requires Dictionary(pairs) && PairsEncodable(pairs) && IsKey(k) && Encodable(k) && Encodable(v)
    ensures Dictionary(Put(pairs, k, v)) && PairsEncodable(Put(pairs, k, v))
  {
    if pairs != [] && KeyClass(pairs[0].key) != KeyClass(k) {
      PutKeeps(pairs[1..], k, v);
      PutHolds(pairs[1..], k, v, pairs[0].key);
      assert Put(pairs, k, v)[1..] == Put(pairs[1..], k, v);
    } else if pairs != [] {
      assert Put(pairs, k, v)[1..] == pairs[1..];
    }
  }

  lemma {:induction false} GetEncodable(ps: seq<Pair>, k: Item)
    requires PairsEncodable(ps) && Get(ps, k).Some?
    ensures Encodable(Get(ps, k).value)
  {
    hide Encodable, KeyClass;
    if KeyClass(ps[0].key) != KeyClass(k) {
      GetEncodable(ps[1..], k);
    }
  }

  lemma {:induction false} PutInPlace(ps: seq<Pair>, k: Item, v: Item)
    requires Get(ps, k).Some?
    ensures |Put(ps, k, v)| == |ps|
  {
    hide KeyClass;
    if KeyClass(ps[0].key) != KeyClass(k) {
      PutInPlace(ps[1..], k, v);
    }
  }

  /** A new key adds its pair's bytes at the end; a repeated one costs strictly less. */
  lemma {:induction false} PutCost(pairs: seq<Pair>, k: Item, v: Item)
    requires Dictionary(pairs) && PairsEncodable(pairs) && IsKey(k) && Encodable(k) && Encodable(v)
    requires PairsEncodable(Put(pairs, k, v))
    ensures if Holds(pairs, k) then
              && |Put(pairs, k, v)| == |pairs|
              && |EncPairs(Put(pairs, k, v))| < |EncPairs(pairs)| + |EncPair(Pair(k, v))|
            else
              && |Put(pairs, k, v)| == |pairs| + 1
              && EncPairs(Put(pairs, k, v)) == EncPairs(pairs) + EncPair(Pair(k, v))
  {
    hide Encodable, Dictionary;
    if pairs == [] {
      assert EncPairs([Pair(k, v)]) == EncPair(Pair(k, v)) + EncPairs([]);
    } else {
      var after := Put(pairs, k, v);
      if KeyClass(pairs[0].key) != KeyClass(k) {
        assert Dictionary(pairs[1..]) by { DictionaryTail(pairs); }
        assert after[1..] == Put(pairs[1..], k, v);
        PutCost(pairs[1..], k, v);
        Assoc(EncPair(pairs[0]), EncPairs(pairs[1..]), EncPair(Pair(k, v)));
      } else {
        assert after[1..] == pairs[1..];
      }
    }
  }

  lemma {:induction false} DictionaryTail(pairs: seq<Pair>)
    requires pairs != [] && Dictionary(pairs)
    ensures Dictionary(pairs[1..])
  {
  }

  // ---- decode, then encode --------------------------------------------------------

  lemma {:induction false} LoadShrinks(buf: seq<byte>, off: nat)
    requires off <= |buf| && Load(buf, off).Ok?
    ensures var (v, end) := Load(buf, off).value;
            Encodable(v) && Shrinks(Enc(v), buf, off, end)
    decreases |buf| - off, 0, 0
  {
    hide Head, ReadArg, ValidUtf8, LoadItems, LoadPairs, Dictionary, EncAll, EncPairs, AllEncodable, PairsEncodable,
         Shrinks;
    var (v, end) := Load(buf, off).value;
    var (major, arg, o) := ReadArg(buf, off).value;
    HeadNoLongerThanRead(buf, off, major, arg, o);
    if major == BYTES || major == TEXT {
      WholeShrinks(buf, o, end);
      ShrinksAppend(Head(major, arg).value, buf[o..end], buf, off, o, end);
    } else if major == ARRAY {
      LoadItemsShrink(buf, o, arg, []);
      ShrinksAppend(Head(major, arg).value, EncAll(v.items), buf, off, o, end);
    } else if major == MAP {
      LoadPairsFit(buf, o, arg);
      ShorterHead(major, |v.pairs|, arg, EncPairs(v.pairs), buf, off, o, end);
    } else if major == TAG {
      LoadShrinks(buf, o);
      ShrinksAppend(Head(major, arg).value, Enc(v.item), buf, off, o, end);
    } else if major == SIMPLE {
      SimpleHeads();
    }
  }

  lemma {:induction false} WholeShrinks(buf: seq<byte>, off: nat, end: nat)
    requires off <= end <= |buf|
    ensures Shrinks(buf[off..end], buf, off, end)
  {
  }

  /** A map with fewer pairs than declared has a shorter body and no longer a head. */
  lemma {:induction false} ShorterHead(major: nat, n: nat, arg: nat, body: seq<byte>, buf: seq<byte>, off: nat, o: nat,
                                       end: nat)
    requires major < 8 && n <= arg < LIMIT
    requires Shrinks(Head(major, arg).value, buf, off, o) && Shrinks(body, buf, o, end)
    requires n < arg ==> |body| < end - o
    ensures Shrinks(Head(major, n).value + body, buf, off, end)
  {
    HeadMonotone(major, n, arg);
    if n == arg {
      ShrinksAppend(Head(major, arg).value, body, buf, off, o, end);
    }
  }

  lemma {:induction false} LoadItemsShrink(buf: seq<byte>, off: nat, n: nat, acc: seq<Item>)
    requires off <= |buf| && LoadItems(buf, off, n, acc).Ok?
    ensures var (items, end) := LoadItems(buf, off, n, acc).value;
            && |items| == |acc| + n && items[..|acc|] == acc
            && AllEncodable(items[|acc|..]) && Shrinks(EncAll(items[|acc|..]), buf, off, end)
    decreases |buf| - off, 1, n
  {
    hide Load, Enc, Encodable, Shrinks;
    var (items, end) := LoadItems(buf, off, n, acc).value;
    if n == 0 {
      assert items[|acc|..] == [];
      assert buf[off..off] == [];
      WholeShrinks(buf, off, off);
    } else {
      var (item, o) := Load(buf, off).value;
      LoadShrinks(buf, off);
      LoadItemsShrink(buf, o, n - 1, acc + [item]);
      var rest := items[|acc| + 1..];
      assert items[..|acc|] == items[..|acc| + 1][..|acc|];
      assert items[|acc|] == items[..|acc| + 1][|acc|] == item;
      assert items[|acc|..][1..] == rest && items[|acc|..][0] == item;
      ShrinksAppend(Enc(item), EncAll(rest), buf, off, o, end);
    }
  }

  /** `n` more pairs were read between `off` and `end` into `acc`, giving `pairs`. */
  ghost predicate Absorbed(acc: seq<Pair>, pairs: seq<Pair>, n: nat, buf: seq<byte>, off: nat, end: nat) {
    && off <= end <= |buf|
    && Dictionary(pairs) && PairsEncodable(acc) && PairsEncodable(pairs)
    && |pairs| <= |acc| + n
    && |EncPairs(pairs)| <= |EncPairs(acc)| + (end - off)
    && (|pairs| < |acc| + n ==> |EncPairs(pairs)| < |EncPairs(acc)| + (end - off))
    && (|EncPairs(pairs)| == |EncPairs(acc)| + (end - off) ==> EncPairs(pairs) == EncPairs(acc) + buf[off..end])
  }

  lemma {:induction false} AbsorbOne(acc: seq<Pair>, k: Item, v: Item, buf: seq<byte>, off: nat, end: nat)
    requires Dictionary(acc) && PairsEncodable(acc) && IsKey(k) && Encodable(k) && Encodable(v)
    requires Shrinks(Enc(k) + Enc(v), buf, off, end)
    ensures Absorbed(acc, Put(acc, k, v), 1, buf, off, end)
  {
    hide Dictionary, PairsEncodable, Encodable, Put, Holds, EncPairs;
    PutKeeps(acc, k, v);
    PutCost(acc, k, v);
  }

  lemma {:induction false} AbsorbMore(acc: seq<Pair>, mid: seq<Pair>, pairs: seq<Pair>, n: nat, buf: seq<byte>,
                                      off: nat, o: nat, end: nat)
    requires Absorbed(acc, mid, 1, buf, off, o) && Absorbed(mid, pairs, n, buf, o, end)
    ensures Absorbed(acc, pairs, n + 1, buf, off, end)
  {
    hide Dictionary, PairsEncodable, EncPairs;
    if |EncPairs(pairs)| == |EncPairs(acc)| + (end - off) {
      assert buf[off..end] == buf[off..o] + buf[o..end];
      Assoc(EncPairs(acc), buf[off..o], buf[o..end]);
    }
  }

  lemma {:induction false} LoadPairsShrink(buf: seq<byte>, off: nat, n: nat, acc: seq<Pair>)
    requires off <= |buf| && Dictionary(acc) && PairsEncodable(acc) && LoadPairs(buf, off, n, acc).Ok?
    ensures var (pairs, end) := LoadPairs(buf, off, n, acc).value; Absorbed(acc, pairs, n, buf, off, end)
    decreases |buf| - off, 1, n
  {
    hide Load, Enc, Encodable, Dictionary, PairsEncodable, Put, EncPairs, Shrinks;
    var (pairs, end) := LoadPairs(buf, off, n, acc).value;
    if n == 0 {
      assert EncPairs(acc) + buf[off..off] == EncPairs(acc);
    } else {
      var (k, o) := Load(buf, off).value;
      var (v, o') := Load(buf, o).value;
      LoadShrinks(buf, off);
      LoadShrinks(buf, o);
      ShrinksAppend(Enc(k), Enc(v), buf, off, o, o');
      AbsorbOne(acc, k, v, buf, off, o');
      LoadPairsShrink(buf, o', n - 1, Put(acc, k, v));
      AbsorbMore(acc, Put(acc, k, v), pairs, n - 1, buf, off, o', end);
    }
  }

  lemma {:induction false} LoadPairsFit(buf: seq<byte>, off: nat, n: nat)
    requires off <= |buf| && LoadPairs(buf, off, n, []).Ok?
    ensures var (pairs, end) := LoadPairs(buf, off, n, []).value;
            && Dictionary(pairs) && PairsEncodable(pairs) && |pairs| <= n
            && Shrinks(EncPairs(pairs), buf, off, end) && (|pairs| < n ==> |EncPairs(pairs)| < end - off)
    decreases |buf| - off, 2, n
  {
    LoadPairsShrink(buf, off, n, []);
    var (pairs, end) := LoadPairs(buf, off, n, []).value;
    assert EncPairs([]) == [];
    assert [] + buf[off..end] == buf[off..end];
  }

  /** Re-encoding never lengthens: whatever `loads` accepts, `dumps` accepts the result, in no
      more bytes, decoding to the same value; and it takes as many bytes only by being the
      same bytes. */
  lemma {:induction false} ReencodingNeverLengthens(b: seq<byte>)
    requires Loads(b, false).Ok?
    ensures var v := Loads(b, false).value;
            && Dumps(v).Ok? && |Dumps(v).value| <= |b|
            && Loads(Dumps(v).value, false) == Ok(v)
            && (|Dumps(v).value| == |b| <==> Dumps(v).value == b)
  {
    var v := Loads(b, false).value;
    LoadShrinks(b, 0);
    LoadsInvertsDumps(v, []);
    assert b[0..|b|] == b;
  }

  /** The documents `dumps` can produce are the ones that re-encode to themselves. */
  lemma {:induction false} CanonicalExactlyWhenStable(b: seq<byte>)
    ensures (exists v :: Dumps(v) == Ok(b))
        <==> Loads(b, false).Ok? && Dumps(Loads(b, false).value) == Ok(b)
  {
    if v :| Dumps(v) == Ok(b) {
      LoadsInvertsDumps(v, []);
    }
  }
}
