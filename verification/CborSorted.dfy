/**
 `dumps(..., sort_keys=True)`: the pairs of every map are put in the order of their encoded
 keys (RFC 8949, section 4.2.1). Two values get the same bytes exactly when they differ only
 in the insertion order of their maps, at any depth.
 */
module CborSorted {
  import opened Bytes
  import opened Cbor
  import opened CborRoundTrip

  /** Python's `<` on bytes. */
  predicate Less(a: seq<byte>, b: seq<byte>) {
    b != [] && (a == [] || a[0] < b[0] || (a[0] == b[0] && Less(a[1..], b[1..])))
  }

  /** They are the same before `k`, and there `a` ends or has the smaller byte. */
  ghost predicate LessAt(a: seq<byte>, b: seq<byte>, k: nat) {
    k <= |a| && k < |b| && a[..k] == b[..k] && (k == |a| || a[k] < b[k])
  }

  lemma {:induction false} LessAtNext(a: seq<byte>, b: seq<byte>, k: nat)
    requires a != [] && b != []
    ensures LessAt(a, b, k + 1) <==> a[0] == b[0] && LessAt(a[1..], b[1..], k)
  {
    if k + 1 <= |a| && k + 1 <= |b| {
      assert a[..k + 1] == [a[0]] + a[1..][..k] && b[..k + 1] == [b[0]] + b[1..][..k];
      assert a[..k + 1] == b[..k + 1] ==> a[..k + 1][0] == b[..k + 1][0] && a[..k + 1][1..] == b[..k + 1][1..];
    }
  }

  /** The order is that of the first byte in which two strings differ, or of their lengths. */
  lemma {:induction false} LessExactly(a: seq<byte>, b: seq<byte>)
    ensures Less(a, b) <==> exists k: nat :: LessAt(a, b, k)
  {
    hide LessAt;
    LessAtOnce(a, b);
    if a != [] && b != [] {
      LessExactly(a[1..], b[1..]);
      if k: nat :| LessAt(a[1..], b[1..], k) {
        LessAtNext(a, b, k);
      }
      if k: nat :| LessAt(a, b, k) {
        if k > 0 {
          LessAtNext(a, b, k - 1);
        }
      }
    } else if k: nat :| LessAt(a, b, k) {
      LessAtEmpty(a, b, k);
    }
  }

  lemma {:induction false} LessAtOnce(a: seq<byte>, b: seq<byte>)
    ensures LessAt(a, b, 0) <==> b != [] && (a == [] || a[0] < b[0])
  {
    assert a[..0] == b[..0];
  }

  lemma {:induction false} LessAtEmpty(a: seq<byte>, b: seq<byte>, k: nat)
    requires (a == [] || b == []) && LessAt(a, b, k)
    ensures k == 0
  {
  }

  /** An encoded key with its encoded value. */
  datatype Coded = Coded(key: seq<byte>, value: seq<byte>)

  function Insert(c: Coded, cs: seq<Coded>): seq<Coded> {
    if cs == [] || !Less(cs[0].key, c.key) then [c] + cs else [cs[0]] + Insert(c, cs[1..])
  }

  /** `pairs.sort(key=lambda kv: kv[0])`: stable, by key. */
  function Sort(cs: seq<Coded>): seq<Coded> {
    if cs == [] then [] else Insert(cs[0], Sort(cs[1..]))
  }

  function Joined(cs: seq<Coded>): seq<byte> {
    if cs == [] then [] else cs[0].key + cs[0].value + Joined(cs[1..])
  }

  /** `dumps(v, sort_keys=True)` for an encodable value. */
  function EncSorted(v: Item): seq<byte>
    requires Encodable(v)
    decreases v, 1
  {
    match v
    case Int(_) => Enc(v)
    case ByteString(_) => Enc(v)
    case Text(_) => Enc(v)
    case Array(items) => Head(ARRAY, |items|).value + EncSortedAll(items)
    case Map(pairs) => Head(MAP, |pairs|).value + Joined(Sort(CodePairs(pairs)))
    case Tag(tag, item) => Head(TAG, tag).value + EncSorted(item)
    case Bool(_) => Enc(v)
    case Null => Enc(v)
  }

  function EncSortedAll(items: seq<Item>): seq<byte>
    requires AllEncodable(items)
    decreases items, 0
  {
    if items == [] then [] else EncSorted(items[0]) + EncSortedAll(items[1..])
  }

  function CodePairs(pairs: seq<Pair>): (cs: seq<Coded>)
    requires PairsEncodable(pairs)
    decreases pairs, 0
  {
    if pairs == [] then [] else [CodePair(pairs[0])] + CodePairs(pairs[1..])
  }

  function CodePair(p: Pair): Coded
    requires PairEncodable(p)
    decreases p, 0
  {
    Coded(EncSorted(p.key), EncSorted(p.value))
  }

  // ---- differing in map order only ------------------------------------------------

  /** Equal up to the insertion order of maps, at any depth. */
  ghost predicate Reordered(a: Item, b: Item)
    decreases a, 2
  {
    match a
    case Array(items) => b.Array? && AllReordered(items, b.items)
    case Map(pairs) => b.Map? && PairsReordered(pairs, b.pairs)
    case Tag(tag, item) => b.Tag? && tag == b.tag && Reordered(item, b.item)
    case _ => a == b
  }

  ghost predicate AllReordered(a: seq<Item>, b: seq<Item>)
    decreases a, 0
  {
    if a == [] then b == [] else b != [] && Reordered(a[0], b[0]) && AllReordered(a[1..], b[1..])
  }

  ghost predicate PairsReordered(a: seq<Pair>, b: seq<Pair>)
    decreases a, 1
  {
    |a| == |b| && EachGoes(a, b) && EachComes(a, b)
  }

  /** Every pair of `a` is somewhere in `b`. */
  ghost predicate EachGoes(a: seq<Pair>, b: seq<Pair>)
    decreases a, 0
  {
    forall i :: 0 <= i < |a| ==> exists j :: 0 <= j < |b| && PairReordered(a[i], b[j])
  }

  /** Every pair of `b` comes from somewhere in `a`. */
  ghost predicate EachComes(a: seq<Pair>, b: seq<Pair>)
    decreases a, 0
  {
    forall j :: 0 <= j < |b| ==> exists i :: 0 <= i < |a| && PairReordered(a[i], b[j])
  }

  ghost predicate PairReordered(p: Pair, q: Pair)
    decreases p, 0
  {
    p.key == q.key && Reordered(p.value, q.value)
  }

  // ---- the order ------------------------------------------------------------------

  lemma {:induction false} LessTransitive(a: seq<byte>, b: seq<byte>, c: seq<byte>)
    requires Less(a, b) && Less(b, c)
    ensures Less(a, c)
  {
    if a != [] && a[0] == b[0] == c[0] {
      LessTransitive(a[1..], b[1..], c[1..]);
    }
  }

  lemma {:induction false} LessIrreflexive(a: seq<byte>)
    ensures !Less(a, a)
  {
    if a != [] {
      LessIrreflexive(a[1..]);
    }
  }

  lemma {:induction false} LessTotal(a: seq<byte>, b: seq<byte>)
    requires !Less(a, b) && !Less(b, a)
    ensures a == b
  {
    if a != [] && b != [] {
      LessTotal(a[1..], b[1..]);
      assert a == [a[0]] + a[1..] && b == [b[0]] + b[1..];
    }
  }

  ghost predicate Ascending(cs: seq<Coded>) {
    cs == [] || ((forall c :: c in cs[1..] ==> Less(cs[0].key, c.key)) && Ascending(cs[1..]))
  }

  ghost predicate KeysDiffer(cs: seq<Coded>) {
    cs == [] || ((forall c :: c in cs[1..] ==> c.key != cs[0].key) && KeysDiffer(cs[1..]))
  }

  lemma {:induction false} InsertAscends(c: Coded, cs: seq<Coded>)
    requires Ascending(cs) && forall d :: d in cs ==> d.key != c.key
    ensures Ascending(Insert(c, cs))
    ensures forall d :: d in Insert(c, cs) <==> d == c || d in cs
  {
    var after := Insert(c, cs);
    if cs == [] {
      assert after == [c];
    } else if Less(cs[0].key, c.key) {
      InsertAscends(c, cs[1..]);
      assert after[1..] == Insert(c, cs[1..]);
      assert cs == [cs[0]] + cs[1..];
    } else {
      assert cs[0] in cs;
      if !Less(c.key, cs[0].key) { LessTotal(c.key, cs[0].key); }
      assert after[1..] == cs && cs == [cs[0]] + cs[1..];
      forall d | d in cs
        ensures Less(c.key, d.key)
      {
        if d in cs[1..] { LessTransitive(c.key, cs[0].key, d.key); }
      }
    }
  }

  /** Sorting puts pairs with distinct keys in ascending order and keeps them all. */
  lemma {:induction false} SortAscends(cs: seq<Coded>)
    requires KeysDiffer(cs)
    ensures Ascending(Sort(cs))
    ensures forall c :: c in Sort(cs) <==> c in cs
  {
    if cs != [] {
      SortAscends(cs[1..]);
      InsertAscends(cs[0], Sort(cs[1..]));
      assert cs == [cs[0]] + cs[1..];
    }
  }

  /** There is one ascending arrangement of a set of pairs, whatever sort produced it. */
  lemma {:induction false} AscendingIsUnique(a: seq<Coded>, b: seq<Coded>)
    requires Ascending(a) && Ascending(b) && forall c :: c in a <==> c in b
    ensures a == b
  {
    assert |a| > 0 ==> a[0] in a;
    assert |b| > 0 ==> b[0] in b;
    if a != [] && b != [] {
      assert a[0] in a && a[0] in b && b[0] in b && b[0] in a;
      assert a == [a[0]] + a[1..] && b == [b[0]] + b[1..];
      if a[0] != b[0] {
        LessTransitive(a[0].key, b[0].key, a[0].key);
      }
      LessIrreflexive(a[0].key);
      assert a[0] == b[0];
      forall c
        ensures c in a[1..] <==> c in b[1..]
      {
        assert c in a <==> c in b;
      }
      AscendingIsUnique(a[1..], b[1..]);
    }
  }

  // ---- canonical values -----------------------------------------------------------

  /** The value whose plain encoding is the sorted encoding. */
  ghost function Canon(v: Item): (r: Item)
    requires Encodable(v)
    decreases v, 1
  {
    match v
    case Array(items) => Array(CanonAll(items))
    case Map(pairs) => Map(SortPairs(CanonPairs(pairs)))
    case Tag(tag, item) => Tag(tag, Canon(item))
    case _ => v
  }

  ghost function CanonAll(items: seq<Item>): (r: seq<Item>)
    requires AllEncodable(items)
    ensures |r| == |items|
    decreases items, 0
  {
    if items == [] then [] else [Canon(items[0])] + CanonAll(items[1..])
  }

  ghost function CanonPairs(pairs: seq<Pair>): (r: seq<Pair>)
    requires PairsEncodable(pairs)
    ensures |r| == |pairs| && KeysEncodable(r)
    decreases pairs, 0
  {
    if pairs == [] then [] else [CanonPair(pairs[0])] + CanonPairs(pairs[1..])
  }

  ghost function CanonPair(p: Pair): (r: Pair)
    requires PairEncodable(p)
    ensures r.key == p.key
    decreases p, 0
  {
    Pair(p.key, Canon(p.value))
  }

  ghost predicate KeysEncodable(ps: seq<Pair>) {
    ps == [] || (Encodable(ps[0].key) && KeysEncodable(ps[1..]))
  }

  ghost function InsertPair(p: Pair, ps: seq<Pair>): (r: seq<Pair>)
    requires Encodable(p.key) && KeysEncodable(ps)
    ensures |r| == |ps| + 1 && KeysEncodable(r)
  {
    if ps == [] || !Less(Enc(ps[0].key), Enc(p.key)) then [p] + ps else [ps[0]] + InsertPair(p, ps[1..])
  }

  ghost function SortPairs(ps: seq<Pair>): (r: seq<Pair>)
    requires KeysEncodable(ps)
    ensures |r| == |ps| && KeysEncodable(r)
  {
    if ps == [] then [] else InsertPair(ps[0], SortPairs(ps[1..]))
  }

  lemma {:induction false} InsertPairMembers(p: Pair, ps: seq<Pair>, x: Item)
    requires Encodable(p.key) && KeysEncodable(ps)
    ensures forall q :: q in InsertPair(p, ps) <==> q == p || q in ps
    ensures Holds(InsertPair(p, ps), x) <==> Holds(ps, x) || KeyClass(p.key) == KeyClass(x)
  {
    hide Encodable;
    var after := InsertPair(p, ps);
    if ps != [] && Less(Enc(ps[0].key), Enc(p.key)) {
      InsertPairMembers(p, ps[1..], x);
      assert after[1..] == InsertPair(p, ps[1..]) && after == [ps[0]] + after[1..];
      assert ps == [ps[0]] + ps[1..];
    } else {
      assert after == [p] + ps && after[1..] == ps;
    }
  }

  lemma {:induction false} InsertPairKeeps(p: Pair, ps: seq<Pair>)
    requires PairEncodable(p) && PairsEncodable(ps) && KeysEncodable(ps)
    requires Dictionary(ps) && IsKey(p.key) && !Holds(ps, p.key)
    ensures Dictionary(InsertPair(p, ps)) && PairsEncodable(InsertPair(p, ps))
    ensures CodedOf(InsertPair(p, ps)) == Insert(CodedOne(p), CodedOf(ps))
  {
    hide Encodable, Enc;
    var after := InsertPair(p, ps);
    if ps != [] && Less(Enc(ps[0].key), Enc(p.key)) {
      InsertPairKeeps(p, ps[1..]);
      InsertPairMembers(p, ps[1..], ps[0].key);
      assert after[1..] == InsertPair(p, ps[1..]);
      assert CodedOf(ps)[1..] == CodedOf(ps[1..]);
    } else {
      assert after[1..] == ps;
    }
  }

  lemma {:induction false} SortPairsMembers(ps: seq<Pair>, x: Item)
    requires KeysEncodable(ps)
    ensures forall q :: q in SortPairs(ps) <==> q in ps
    ensures Holds(SortPairs(ps), x) <==> Holds(ps, x)
  {
    if ps != [] {
      SortPairsMembers(ps[1..], x);
      InsertPairMembers(ps[0], SortPairs(ps[1..]), x);
      assert ps == [ps[0]] + ps[1..];
    }
  }

  /** Sorting the pairs and encoding them, in either order. */
  lemma {:induction false} SortPairsKeeps(ps: seq<Pair>)
    requires PairsEncodable(ps) && KeysEncodable(ps) && Dictionary(ps)
    ensures Dictionary(SortPairs(ps)) && PairsEncodable(SortPairs(ps))
    ensures CodedOf(SortPairs(ps)) == Sort(CodedOf(ps))
  {
    hide Encodable, Enc;
    if ps != [] {
      SortPairsKeeps(ps[1..]);
      SortPairsMembers(ps[1..], ps[0].key);
      InsertPairKeeps(ps[0], SortPairs(ps[1..]));
      assert CodedOf(ps)[1..] == CodedOf(ps[1..]);
    }
  }

  ghost function CodedOne(p: Pair): Coded
    requires PairEncodable(p)
  {
    Coded(Enc(p.key), Enc(p.value))
  }

  ghost function CodedOf(ps: seq<Pair>): seq<Coded>
    requires PairsEncodable(ps)
  {
    if ps == [] then [] else [CodedOne(ps[0])] + CodedOf(ps[1..])
  }

  lemma {:induction false} JoinedIsEncPairs(ps: seq<Pair>)
    requires PairsEncodable(ps)
    ensures Joined(CodedOf(ps)) == EncPairs(ps)
  {
    hide Enc, Encodable;
    if ps != [] {
      JoinedIsEncPairs(ps[1..]);
      assert CodedOf(ps)[1..] == CodedOf(ps[1..]);
    }
  }

  // ---- sorted encoding is the plain encoding of the canonical value -----------------

  lemma {:induction false} SortedEncodesCanon(v: Item)
    requires Encodable(v)
    ensures Encodable(Canon(v)) && Enc(Canon(v)) == EncSorted(v)
    decreases v, 1
  {
    hide Head, ValidUtf8, Dictionary, Holds, SortPairs, Sort, CodePairs, CanonPairs, Joined, CodedOf;
    match v
    case Array(items) => SortedEncodesCanonAll(items);
    case Map(pairs) =>
      SortedEncodesCanonPairs(pairs);
      SortPairsKeeps(CanonPairs(pairs));
      JoinedIsEncPairs(SortPairs(CanonPairs(pairs)));
    case Tag(tag, item) => SortedEncodesCanon(item);
    case _ =>
  }

  lemma {:induction false} SortedEncodesCanonAll(items: seq<Item>)
    requires AllEncodable(items)
    ensures AllEncodable(CanonAll(items)) && EncAll(CanonAll(items)) == EncSortedAll(items)
    decreases items, 0
  {
    hide Encodable, Enc, EncSorted, Canon;
    if items != [] {
      SortedEncodesCanon(items[0]);
      SortedEncodesCanonAll(items[1..]);
      assert CanonAll(items)[1..] == CanonAll(items[1..]);
    }
  }

  lemma {:induction false} SortedEncodesCanonPair(p: Pair)
    requires PairEncodable(p) && IsKey(p.key)
    ensures PairEncodable(CanonPair(p)) && CodedOne(CanonPair(p)) == CodePair(p)
    decreases p, 0
  {
    SortedEncodesCanon(p.value);
  }

  lemma {:induction false} SortedEncodesCanonPairs(pairs: seq<Pair>)
    requires PairsEncodable(pairs) && Dictionary(pairs)
    ensures var ps := CanonPairs(pairs);
            && PairsEncodable(ps) && KeysEncodable(ps) && Dictionary(ps) && CodedOf(ps) == CodePairs(pairs)
            && forall x :: Holds(ps, x) <==> Holds(pairs, x)
    decreases pairs, 0
  {
    hide Encodable, Enc, EncSorted, Canon;
    if pairs != [] {
      SortedEncodesCanonPair(pairs[0]);
      SortedEncodesCanonPairs(pairs[1..]);
      assert CanonPairs(pairs)[1..] == CanonPairs(pairs[1..]);
      KeyEncodable(pairs[0]);
    }
  }

  lemma {:induction false} KeyEncodable(p: Pair)
    requires PairEncodable(p)
    ensures Encodable(p.key) && CanonPair(p).key == p.key
  {
  }

  // ---- order does not matter ------------------------------------------------------

  lemma {:induction false} CodePairsMembers(pairs: seq<Pair>, i: nat)
    requires PairsEncodable(pairs) && i < |pairs|
    ensures PairEncodable(pairs[i]) && CodePair(pairs[i]) in CodePairs(pairs)
  {
    hide EncSorted, Encodable;
    if i > 0 {
      CodePairsMembers(pairs[1..], i - 1);
      assert pairs[1..][i - 1] == pairs[i];
    }
  }

  lemma {:induction false} CodePairsFrom(pairs: seq<Pair>, c: Coded) returns (i: nat)
    requires PairsEncodable(pairs) && c in CodePairs(pairs)
    ensures i < |pairs| && PairEncodable(pairs[i]) && c == CodePair(pairs[i])
  {
    hide EncSorted, Encodable;
    if c == CodePair(pairs[0]) {
      i := 0;
    } else {
      i := CodePairsFrom(pairs[1..], c);
      i := i + 1;
    }
  }

  lemma {:induction false} DictionaryKeysDiffer(pairs: seq<Pair>)
    requires PairsEncodable(pairs) && Dictionary(pairs)
    ensures KeysDiffer(CodePairs(pairs))
  {
    hide EncSorted, Encodable;
    if pairs != [] {
      DictionaryKeysDiffer(pairs[1..]);
      assert CodePairs(pairs)[1..] == CodePairs(pairs[1..]);
      forall c | c in CodePairs(pairs[1..])
        ensures c.key != CodePair(pairs[0]).key
      {
        var i := CodePairsFrom(pairs[1..], c);
        HoldsAt(pairs[1..], i);
        KeyCodesDiffer(pairs[0], pairs[1..][i]);
      }
    }
  }

  lemma {:induction false} HoldsAt(pairs: seq<Pair>, i: nat)
    requires i < |pairs| && Dictionary(pairs)
    ensures IsKey(pairs[i].key)
    ensures forall x :: KeyClass(x) == KeyClass(pairs[i].key) ==> Holds(pairs, x)
  {
    if i > 0 {
      HoldsAt(pairs[1..], i - 1);
    }
  }

  lemma {:induction false} KeyCodesDiffer(p: Pair, q: Pair)
    requires PairEncodable(p) && PairEncodable(q) && IsKey(p.key) && IsKey(q.key) && p.key != q.key
    ensures CodePair(p).key != CodePair(q).key
  {
    if Enc(p.key) == Enc(q.key) {
      EncodingsArePrefixFree(p.key, q.key);
    }
  }

  lemma {:induction false} ReorderedSameCode(a: Item, b: Item)
    requires Encodable(a) && Encodable(b) && Reordered(a, b)
    ensures EncSorted(a) == EncSorted(b)
    decreases a, 2
  {
    hide Head, ValidUtf8, Dictionary, Sort, CodePairs, Joined, PairsReordered, AllReordered, EncSortedAll, Enc;
    match a
    case Array(items) => ReorderedSameCodeAll(items, b.items);
    case Map(pairs) => ReorderedSameCodePairs(pairs, b.pairs);
    case Tag(tag, item) => ReorderedSameCode(item, b.item);
    case _ =>
  }

  lemma {:induction false} ReorderedSameCodeAll(a: seq<Item>, b: seq<Item>)
    requires AllEncodable(a) && AllEncodable(b) && AllReordered(a, b)
    ensures |a| == |b| && EncSortedAll(a) == EncSortedAll(b)
    decreases a, 0
  {
    hide Encodable, EncSorted, Reordered;
    if a != [] {
      ReorderedSameCode(a[0], b[0]);
      ReorderedSameCodeAll(a[1..], b[1..]);
    }
  }

  lemma {:induction false} ReorderedSameCodePair(p: Pair, q: Pair)
    requires PairEncodable(p) && PairEncodable(q) && PairReordered(p, q)
    ensures CodePair(p) == CodePair(q)
    decreases p, 0
  {
    ReorderedSameCode(p.value, q.value);
  }

  lemma {:induction false} CodesGo(a: seq<Pair>, b: seq<Pair>)
    requires PairsEncodable(a) && PairsEncodable(b) && EachGoes(a, b)
    ensures forall c :: c in CodePairs(a) ==> c in CodePairs(b)
    decreases a, 0
  {
    hide Encodable, EncSorted, Reordered, CodePair, PairsEncodable, CodePairs, PairEncodable;
    forall c | c in CodePairs(a)
      ensures c in CodePairs(b)
    {
      var i := CodePairsFrom(a, c);
      var j :| 0 <= j < |b| && PairReordered(a[i], b[j]);
      CodePairsMembers(b, j);
      ReorderedSameCodePair(a[i], b[j]);
    }
  }

  lemma {:induction false} CodesCome(a: seq<Pair>, b: seq<Pair>)
    requires PairsEncodable(a) && PairsEncodable(b) && EachComes(a, b)
    ensures forall c :: c in CodePairs(b) ==> c in CodePairs(a)
    decreases a, 0
  {
    hide Encodable, EncSorted, Reordered, CodePair, PairsEncodable, CodePairs, PairEncodable;
    forall c | c in CodePairs(b)
      ensures c in CodePairs(a)
    {
      var j := CodePairsFrom(b, c);
      var i :| 0 <= i < |a| && PairReordered(a[i], b[j]);
      CodePairsMembers(a, i);
      ReorderedSameCodePair(a[i], b[j]);
    }
  }

  lemma {:induction false} ReorderedSameCodePairs(a: seq<Pair>, b: seq<Pair>)
    requires PairsEncodable(a) && PairsEncodable(b) && Dictionary(a) && Dictionary(b)
    requires PairsReordered(a, b)
    ensures |a| == |b| && Sort(CodePairs(a)) == Sort(CodePairs(b))
    decreases a, 1
  {
    hide EachGoes, EachComes, CodePairs, Dictionary, PairsEncodable, KeysDiffer, Ascending, Sort;
    CodesGo(a, b);
    CodesCome(a, b);
    DictionaryKeysDiffer(a);
    DictionaryKeysDiffer(b);
    SortAscends(CodePairs(a));
    SortAscends(CodePairs(b));
    AscendingIsUnique(Sort(CodePairs(a)), Sort(CodePairs(b)));
  }

  // ---- and nothing else is lost ---------------------------------------------------

  lemma {:induction false} SameCanonReordered(a: Item, b: Item)
    requires Encodable(a) && Encodable(b) && Canon(a) == Canon(b)
    ensures Reordered(a, b)
    decreases a, 2
  {
    hide SortPairs, CanonPairs, CanonAll, Dictionary, ValidUtf8, PairsReordered, AllReordered;
    match a
    case Array(items) => SameCanonReorderedAll(items, b.items);
    case Map(pairs) =>
      SameCanonReorderedPairs(pairs, b.pairs);
    case Tag(tag, item) => SameCanonReordered(item, b.item);
    case _ =>
  }

  lemma {:induction false} SameCanonReorderedAll(a: seq<Item>, b: seq<Item>)
    requires AllEncodable(a) && AllEncodable(b) && CanonAll(a) == CanonAll(b)
    ensures AllReordered(a, b)
    decreases a, 0
  {
    hide Encodable, Canon, Reordered;
    if a != [] {
      assert CanonAll(a)[1..] == CanonAll(a[1..]) && CanonAll(b)[1..] == CanonAll(b[1..]);
      assert CanonAll(a)[0] == Canon(a[0]) && CanonAll(b)[0] == Canon(b[0]);
      SameCanonReordered(a[0], b[0]);
      SameCanonReorderedAll(a[1..], b[1..]);
    }
  }

  lemma {:induction false} CanonPairsAt(pairs: seq<Pair>, i: nat)
    requires PairsEncodable(pairs) && i < |pairs|
    ensures PairEncodable(pairs[i]) && CanonPairs(pairs)[i] == CanonPair(pairs[i])
  {
    hide Canon, Encodable;
    if i > 0 {
      CanonPairsAt(pairs[1..], i - 1);
      assert pairs[1..][i - 1] == pairs[i];
    }
  }

  lemma {:induction false} CanonsGo(a: seq<Pair>, b: seq<Pair>)
    requires PairsEncodable(a) && PairsEncodable(b) && forall p :: p in CanonPairs(a) ==> p in CanonPairs(b)
    ensures EachGoes(a, b)
    decreases a, 0
  {
    hide Canon, Encodable, CanonPairs, KeysEncodable;
    forall i | 0 <= i < |a|
      ensures exists j :: 0 <= j < |b| && PairReordered(a[i], b[j])
    {
      CanonPairsAt(a, i);
      assert CanonPairs(a)[i] in CanonPairs(b);
      var j :| 0 <= j < |b| && CanonPairs(b)[j] == CanonPairs(a)[i];
      CanonPairsAt(b, j);
      SameCanonReorderedPair(a[i], b[j]);
    }
  }

  lemma {:induction false} CanonsCome(a: seq<Pair>, b: seq<Pair>)
    requires PairsEncodable(a) && PairsEncodable(b) && forall p :: p in CanonPairs(b) ==> p in CanonPairs(a)
    ensures EachComes(a, b)
    decreases a, 0
  {
    hide Canon, Encodable, CanonPairs, KeysEncodable;
    forall j | 0 <= j < |b|
      ensures exists i :: 0 <= i < |a| && PairReordered(a[i], b[j])
    {
      CanonPairsAt(b, j);
      assert CanonPairs(b)[j] in CanonPairs(a);
      var i :| 0 <= i < |a| && CanonPairs(a)[i] == CanonPairs(b)[j];
      CanonPairsAt(a, i);
      SameCanonReorderedPair(a[i], b[j]);
    }
  }

  lemma {:induction false} SameCanonReorderedPairs(a: seq<Pair>, b: seq<Pair>)
    requires PairsEncodable(a) && PairsEncodable(b)
    requires SortPairs(CanonPairs(a)) == SortPairs(CanonPairs(b))
    ensures PairsReordered(a, b)
    decreases a, 1
  {
    hide EachGoes, EachComes, PairsEncodable, CanonPairs, SortPairs, KeysEncodable;
    SortPairsMembers(CanonPairs(a), Null);
    SortPairsMembers(CanonPairs(b), Null);
    CanonsGo(a, b);
    CanonsCome(a, b);
  }

  lemma {:induction false} SameCanonReorderedPair(p: Pair, q: Pair)
    requires PairEncodable(p) && PairEncodable(q) && CanonPair(p) == CanonPair(q)
    ensures PairReordered(p, q)
    decreases p, 0
  {
    SameCanonReordered(p.value, q.value);
  }

  /** With sorted keys the encoding is canonical: it is the same exactly for values that
      differ only in map order, and it decodes. */
  lemma {:induction false} SortedEncodingIsCanonical(a: Item, b: Item)
    requires Encodable(a) && Encodable(b)
    ensures EncSorted(a) == EncSorted(b) <==> Reordered(a, b)
    ensures Loads(EncSorted(a), false) == Ok(Canon(a))
  {
    SortedEncodesCanon(a);
    SortedEncodesCanon(b);
    LoadsInvertsDumps(Canon(a), []);
    if EncSorted(a) == EncSorted(b) {
      EncodingsArePrefixFree(Canon(a), Canon(b));
      SameCanonReordered(a, b);
    }
    if Reordered(a, b) {
      ReorderedSameCode(a, b);
    }
  }
}
