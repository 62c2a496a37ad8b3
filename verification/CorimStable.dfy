/**
 rats/appraise.py: decoding and then encoding again, for everything that decodes. Every name
 the decoder gives has the label it came from, whether or not it is the name that was meant,
 so the bytes come back unless CBOR had something to say that JSON has not.
 */
module CorimStable {
  import opened Bytes
  import Cbor
  import opened CborRoundTrip
  import CborShortest
  import opened Corim
  import opened CorimDocuments
  import opened CorimRoundTrip
  import opened CorimTables

  /** What JSON can say under this key: no byte string, no tag, no boolean for a map's label, and
      in a list no boolean that Python takes for a label and no text that spells one. */
  ghost predicate Stable(v: Cbor.Item, key: Name)
    decreases v, 1
  {
    match v
    case Array(items) => AllStable(items, key)
    case Map(pairs) => PairsStable(pairs, TableFor(key, pairs))
    case ByteString(_) => false
    case Tag(_, _) => false
    case _ => true
  }

  ghost predicate ItemStable(v: Cbor.Item, key: Name)
    decreases v, 2
  {
    var t := LogicMap(key);
    if t.Some? && v.Bool? then !Has(t.value, if v.value then 1 else 0)
    else if t.Some? && v.Text? then TextLabel(t.value, v.utf8).None?
    else Stable(v, key)
  }

  ghost predicate AllStable(items: seq<Cbor.Item>, key: Name)
    decreases items, 0
  {
    items == [] || (ItemStable(items[0], key) && AllStable(items[1..], key))
  }

  ghost predicate PairStable(p: Cbor.Pair, t: Option<Table>)
    decreases p, 0
  {
    p.key.Int? && NameUnder(t, p.key).Some? && Stable(p.value, NameUnder(t, p.key).value)
  }

  ghost predicate PairsStable(pairs: seq<Cbor.Pair>, t: Option<Table>)
    decreases pairs, 0
  {
    pairs == [] || (PairStable(pairs[0], t) && PairsStable(pairs[1..], t))
  }

  /** `v` decodes under the key, and encoding the result gives it back. */
  ghost predicate ComesBack(v: Cbor.Item, key: Name)
    requires ToJson(v, key).Ok?
  {
    ToCbor(ToJson(v, key).value, key) == Ok(v)
  }

  // ---- names ------------------------------------------------------------------------------

  /** A name that decoding gives under a key has there the label it was given for. */
  lemma {:induction false} LabelsLeadBack(key: Name, pairs: seq<Cbor.Pair>, n: int)
    requires NameUnder(TableFor(key, pairs), Cbor.Int(n)).Some?
    ensures LabelUnder(key, NameUnder(TableFor(key, pairs), Cbor.Int(n)).value) == Some(n)
  {
    hide Has, LogicMap, Cbor.Holds;
  }

  // ---- lists --------------------------------------------------------------------------------

  lemma {:induction false} ItemComesBack(v: Cbor.Item, key: Name)
    requires Cbor.Encodable(v) && ToJsonItem(v, key).Ok?
    ensures ToCborItem(ToJsonItem(v, key).value, key) == Ok(v) <==> ItemStable(v, key)
    decreases v, 2
  {
    hide LogicMap, Has, TextLabel, Ascii, Word, ToCborItems, ToCborMembers, ToJsonItems, ToJsonPairs, AllStable,
         PairsStable;
    var t := LogicMap(key);
    if t.Some? && IsInt(v) && Has(t.value, Cbor.KeyClass(v).n) {
      var n := Cbor.KeyClass(v).n;
      SpellingsInvert(t.value, Ascii(Word(t.value, n)), n);
    } else {
      ItemsComeBackExactly(v, key);
    }
  }

  lemma {:induction false} AllComeBack(items: seq<Cbor.Item>, key: Name)
    requires Cbor.AllEncodable(items) && ToJsonItems(items, key).Ok?
    ensures ToCborItems(ToJsonItems(items, key).value, key) == Ok(items) <==> AllStable(items, key)
    decreases items, 0
  {
    hide ToCborItem, ToJsonItem, ItemStable, Cbor.Encodable;
    if items != [] {
      ItemComesBack(items[0], key);
      AllComeBack(items[1..], key);
      var x, xs := ToJsonItem(items[0], key).value, ToJsonItems(items[1..], key).value;
      assert ([x] + xs)[0] == x && ([x] + xs)[1..] == xs;
      if ToCborItems([x] + xs, key).Ok? {
        var y, ys := ToCborItem(x, key).value, ToCborItems(xs, key).value;
        assert items == [items[0]] + items[1..];
        if [y] + ys == items {
          ConsInjective(y, ys, items[0], items[1..]);
        }
      }
    }
  }

  // ---- maps -----------------------------------------------------------------------------------

  lemma {:induction false} PairComesBack(p: Cbor.Pair, n: Name)
    requires Cbor.PairEncodable(p) && ToJsonValue(p, n).Ok?
    ensures ToCborMember(Member(n, ToJsonValue(p, n).value)) == Ok(p.value) <==> Stable(p.value, n)
    decreases p, 0
  {
    hide ToCbor, ToJson, Stable, Cbor.Encodable;
    ItemsComeBackExactly(p.value, n);
  }

  /** For every pair of a map, as far as it decodes. */
  lemma {:induction false} EachComesBack(pairs: seq<Cbor.Pair>, t: Option<Table>, key: Name, out: seq<Member>)
    requires Cbor.PairsEncodable(pairs) && ToJsonPairs(pairs, t, key, out).Ok?
    ensures forall i :: 0 <= i < |pairs| ==> Decoded(pairs[i], t)
    ensures forall i :: 0 <= i < |pairs| && Decoded(pairs[i], t) ==>
              (ToCborMember(MemberOf(pairs[i], t)) == Ok(pairs[i].value) <==>
               Stable(pairs[i].value, MemberOf(pairs[i], t).name))
    decreases pairs, 0
  {
    hide NameUnder, ToJsonValue, PutMember, ToCborMember, Stable, Cbor.Encodable;
    if pairs != [] {
      var n := NameUnder(t, pairs[0].key).value;
      PairComesBack(pairs[0], n);
      EachComesBack(pairs[1..], t, key, PutMember(out, n, ToJsonValue(pairs[0], n).value));
      assert pairs == [pairs[0]] + pairs[1..];
    }
  }

  /** The pair has a name and its value decodes. */
  ghost predicate Decoded(p: Cbor.Pair, t: Option<Table>) {
    NameUnder(t, p.key).Some? && ToJsonValue(p, NameUnder(t, p.key).value).Ok?
  }

  ghost function MemberOf(p: Cbor.Pair, t: Option<Table>): Member
    requires Decoded(p, t)
  {
    var n := NameUnder(t, p.key).value;
    Member(n, ToJsonValue(p, n).value)
  }

  lemma {:induction false} PairsStableAt(pairs: seq<Cbor.Pair>, t: Option<Table>)
    ensures PairsStable(pairs, t) <==> forall i :: 0 <= i < |pairs| ==> PairStable(pairs[i], t)
  {
    hide PairStable;
    if pairs != [] {
      PairsStableAt(pairs[1..], t);
      assert pairs == [pairs[0]] + pairs[1..];
    }
  }

  lemma {:induction false} KeysDiffer(pairs: seq<Cbor.Pair>, i: nat, j: nat)
    requires Cbor.Dictionary(pairs) && i < j < |pairs|
    ensures pairs[i].key != pairs[j].key
  {
    if i > 0 {
      KeysDiffer(pairs[1..], i - 1, j - 1);
    } else {
      HeldAt(pairs[1..], j - 1);
    }
  }

  lemma {:induction false} HeldAt(pairs: seq<Cbor.Pair>, i: nat)
    requires i < |pairs|
    ensures Cbor.Holds(pairs, pairs[i].key)
  {
    if i > 0 {
      HeldAt(pairs[1..], i - 1);
    }
  }

  /** If all pairs are stable each stays in its place. */
  lemma {:induction false} StableMapComesBack(pairs: seq<Cbor.Pair>, key: Name)
    requires Cbor.Dictionary(pairs) && Cbor.PairsEncodable(pairs)
    requires ToJsonPairs(pairs, TableFor(key, pairs), key, []).Ok? && PairsStable(pairs, TableFor(key, pairs))
    ensures ToCborMembers(ToJsonPairs(pairs, TableFor(key, pairs), key, []).value, key, []) == Ok(pairs)
    decreases pairs, 1
  {
    hide NameUnder, ToJsonValue, LabelUnder, ToCborMember, TableFor, Stable, Cbor.Dictionary, Cbor.PairsEncodable,
         PairsStable, ToJsonPairs, PairsOf, Cbor.Holds;
    var t := TableFor(key, pairs);
    EachComesBack(pairs, t, key, []);
    PairsStableAt(pairs, t);
    var ms := seq(|pairs|, i requires 0 <= i < |pairs| => MemberOf(pairs[i], t));
    forall i | 0 <= i < |pairs|
      ensures LabelUnder(key, ms[i].name) == Some(pairs[i].key.n) && ToCborMember(ms[i]) == Ok(pairs[i].value)
      ensures ReadsBack(t, ms[i].name, key)
    {
      assert PairStable(pairs[i], t);
      LabelsLeadBack(key, pairs, pairs[i].key.n);
    }
    forall i, j | 0 <= i < j < |ms|
      ensures ms[i].name != ms[j].name
    {
      KeysDiffer(pairs, i, j);
      assert PairStable(pairs[i], t) && PairStable(pairs[j], t);
    }
    assert [] + ms == ms;
    DecodesTo(pairs, t, key, [], ms);
    FaithfulEncoding(ms, key, t);
    forall i | 0 <= i < |pairs|
      ensures PairsOf(ms, key)[i] == pairs[i]
    {
      assert PairStable(pairs[i], t);
      PairsAre(ms, key, i);
    }
    assert PairsOf(ms, key) == pairs;
  }

  /** And if encoding gives them back they are stable. */
  lemma {:induction false} MapThatComesBack(pairs: seq<Cbor.Pair>, key: Name)
    requires Cbor.PairsEncodable(pairs) && ToJsonPairs(pairs, TableFor(key, pairs), key, []).Ok?
    requires ToCborMembers(ToJsonPairs(pairs, TableFor(key, pairs), key, []).value, key, []) == Ok(pairs)
    ensures PairsStable(pairs, TableFor(key, pairs))
    decreases pairs, 1
  {
    hide NameUnder, ToJsonValue, LabelUnder, ToCborMember, TableFor, Stable, Cbor.PairsEncodable, PairsStable,
         ToJsonPairs, PairsOf, ToCborMembers;
    var t := TableFor(key, pairs);
    var ms := ToJsonPairs(pairs, t, key, []).value;
    EachComesBack(pairs, t, key, []);
    MembersEncode(ms, key, []);
    PairsDecode(pairs, t, key, []);
    assert [] + PairsOf(ms, key) == PairsOf(ms, key) && ms[0..] == ms;
    forall i | 0 <= i < |pairs|
      ensures PairStable(pairs[i], t)
    {
      PairsAre(ms, key, i);
      assert MemberOf(pairs[i], t) == ms[i];
    }
    PairsStableAt(pairs, t);
  }

  /** Whatever decodes comes back exactly when it is stable. */
  lemma {:induction false} ItemsComeBackExactly(v: Cbor.Item, key: Name)
    requires Cbor.Encodable(v) && ToJson(v, key).Ok?
    ensures ComesBack(v, key) <==> Stable(v, key)
    decreases v, 1
  {
    hide TableFor, ToCborItems, ToCborMembers, ToJsonItems, ToJsonPairs, AllStable, PairsStable, TagName,
         Cbor.ValidUtf8, Cbor.Dictionary, Cbor.AllEncodable, Cbor.PairsEncodable;
    match v
    case Array(items) => AllComeBack(items, key);
    case Map(pairs) => MapComesBack(pairs, key);
    case _ =>
  }

  lemma {:induction false} MapComesBack(pairs: seq<Cbor.Pair>, key: Name)
    requires Cbor.Dictionary(pairs) && Cbor.PairsEncodable(pairs)
    requires ToJsonPairs(pairs, TableFor(key, pairs), key, []).Ok?
    ensures ToCborMembers(ToJsonPairs(pairs, TableFor(key, pairs), key, []).value, key, []) == Ok(pairs) <==>
            PairsStable(pairs, TableFor(key, pairs))
    decreases pairs, 2
  {
    hide ToJsonPairs, ToCborMembers, TableFor, PairsStable, Cbor.Dictionary, Cbor.PairsEncodable;
    if PairsStable(pairs, TableFor(key, pairs)) {
      StableMapComesBack(pairs, key);
    }
    if ToCborMembers(ToJsonPairs(pairs, TableFor(key, pairs), key, []).value, key, []) == Ok(pairs) {
      MapThatComesBack(pairs, key);
    }
  }

  // ---- whole documents --------------------------------------------------------------------------

  /** The body of a document without the mark that its tags are tagged. */
  ghost function Unmarked(body: seq<Cbor.Pair>): seq<Cbor.Pair> {
    match Cbor.Get(body, Cbor.Int(CORIM_TAGS_LABEL))
    case Some(Tag(tag, x)) =>
      if tag == MID_TAG && x != Cbor.Null then Cbor.Put(body, Cbor.Int(CORIM_TAGS_LABEL), x) else body
    case _ => body
  }

  /** Its tags are absent, null, or marked as the encoder marks them. */
  ghost predicate Marked(body: seq<Cbor.Pair>) {
    match Cbor.Get(body, Cbor.Int(CORIM_TAGS_LABEL))
    case None => true
    case Some(x) => x == Cbor.Null || (x.Tag? && x.tag == MID_TAG && x.item != Cbor.Null)
  }

  ghost predicate StableBody(body: seq<Cbor.Pair>) {
    Marked(body) && Stable(Cbor.Map(Unmarked(body)), UNSIGNED_CORIM_MAP)
  }

  ghost function MarkedBody(body: seq<Cbor.Pair>): seq<Cbor.Pair> {
    Tagged(body).item.item.pairs
  }

  /** Marking and unmarking undo each other on bodies marked as the encoder marks them. */
  lemma {:induction false} MarksInvert(body: seq<Cbor.Pair>, bare: seq<Cbor.Pair>)
    ensures Marked(body) && bare == Unmarked(body) ==> MarkedBody(bare) == body
    ensures MarkedBody(bare) == body ==> Marked(body) && Unmarked(body) == bare
  {
    hide Cbor.Get, Cbor.Put;
    var k := Cbor.Int(CORIM_TAGS_LABEL);
    if Cbor.Get(body, k).Some? && Cbor.Get(body, k).value.Tag? {
      GetAfterPut(body, k, Cbor.Get(body, k).value.item);
    }
    if Cbor.Get(bare, k).Some? {
      GetAfterPut(bare, k, Cbor.Tag(MID_TAG, Cbor.Get(bare, k).value));
    }
  }

  lemma {:induction false} UnmarkedEncodable(body: seq<Cbor.Pair>)
    requires Cbor.Encodable(Cbor.Map(body))
    ensures Cbor.Encodable(Cbor.Map(Unmarked(body)))
  {
    hide Cbor.Get, Cbor.Put, Cbor.Dictionary;
    var k := Cbor.Int(CORIM_TAGS_LABEL);
    var tags := Cbor.Get(body, k);
    if tags.Some? && tags.value.Tag? {
      CborShortest.GetEncodable(body, k);
      CborShortest.PutKeeps(body, k, tags.value.item);
      CborShortest.PutInPlace(body, k, tags.value.item);
    }
  }

  /** The mark does not show in the JSON. */
  lemma {:induction false} UnmarkedReads(body: seq<Cbor.Pair>)
    ensures ToJson(Cbor.Map(Unmarked(body)), UNSIGNED_CORIM_MAP) == ToJson(Cbor.Map(body), UNSIGNED_CORIM_MAP)
  {
    hide Cbor.Get, Cbor.Put, ToJsonPairs;
    var k := Cbor.Int(CORIM_TAGS_LABEL);
    var tags := Cbor.Get(body, k);
    if Unmarked(body) != body {
      GetAfterPut(body, k, tags.value.item);
      TaggedTagsRead(Unmarked(body), LogicMap(UNSIGNED_CORIM_MAP), UNSIGNED_CORIM_MAP, k, []);
    }
  }

  lemma {:induction false} AnyContainersRead(body: seq<Cbor.Pair>)
    ensures var r := ToJson(Cbor.Map(body), UNSIGNED_CORIM_MAP);
            ToJson(Cbor.Tag(CORIM_TAG, Cbor.Tag(UNSIGNED_TAG, Cbor.Map(body))), Other([])) ==
            if r.Ok? then Ok(Object(Wrap(r.value))) else r
  {
    hide ToJsonPairs;
    var inner := Cbor.Tag(UNSIGNED_TAG, Cbor.Map(body));
    assert ToJson(inner, CORIM) ==
           match ToJson(Cbor.Map(body), UNSIGNED_CORIM_MAP) {
             case Err(f) => Err(f)
             case Ok(x) => Ok(Object([Member(UNSIGNED_CORIM_MAP, x)]))
           };
    assert ToJson(Cbor.Tag(CORIM_TAG, inner), Other([])) ==
           match ToJson(inner, CORIM) { case Err(f) => Err(f) case Ok(x) => Ok(Object([Member(CORIM, x)])) };
  }

  /** The body of a document that decodes. */
  ghost function BodyOf(blob: seq<byte>): seq<Cbor.Pair>
    requires CborToJson(blob).Ok?
  {
    Cbor.Loads(blob, false).value.item.item.pairs
  }

  /** For every input that decodes: encoding the result gives the same bytes exactly when they
      are the encoding of what they hold and the body is stable. */
  lemma {:induction false} ReencodingGivesTheBytesExactly(blob: seq<byte>)
    requires CborToJson(blob).Ok?
    ensures CborToJson(blob).value.Object?
    ensures JsonToCbor(CborToJson(blob).value.members) == Ok(blob) <==>
            Cbor.Dumps(Cbor.Loads(blob, false).value) == Cbor.Ok(blob) && StableBody(BodyOf(blob))
  {
    hide ToCbor, ToJson, Cbor.Loads, Cbor.Enc, Cbor.Encodable, Unmarked, Marked, Tagged, Stable;
    var item, body := Cbor.Loads(blob, false).value, BodyOf(blob);
    assert item == Cbor.Tag(CORIM_TAG, Cbor.Tag(UNSIGNED_TAG, Cbor.Map(body)));
    AnyContainersRead(body);
    UnmarkedReads(body);
    var v := ToJson(Cbor.Map(body), UNSIGNED_CORIM_MAP).value;
    assert Unwrap(Wrap(v)) == v;
    CborShortest.ReencodingNeverLengthens(blob);
    BodyEncodable(body);
    UnmarkedEncodable(body);
    ItemsComeBackExactly(Cbor.Map(Unmarked(body)), UNSIGNED_CORIM_MAP);
    MarksInvert(body, Unmarked(body));
    TaggedShape(Unmarked(body));
    if JsonToCbor(Wrap(v)) == Ok(blob) {
      var again := ToCbor(v, UNSIGNED_CORIM_MAP).value.pairs;
      TaggedShape(again);
      LoadsInvertsDumps(Tagged(again), []);
      MarksInvert(body, again);
    }
  }

  lemma {:induction false} BodyEncodable(body: seq<Cbor.Pair>)
    requires Cbor.Encodable(Cbor.Tag(CORIM_TAG, Cbor.Tag(UNSIGNED_TAG, Cbor.Map(body))))
    ensures Cbor.Encodable(Cbor.Map(body))
  {
    var inner := Cbor.Tag(UNSIGNED_TAG, Cbor.Map(body));
    assert Cbor.Encodable(inner);
  }

  /** And for every document that was encoded and decodes, whether its names came back or not. */
  lemma {:induction false} EncodedDocumentsAreStableExactly(doc: seq<Member>)
    requires JsonToCbor(doc).Ok? && CborToJson(JsonToCbor(doc).value).Ok?
    ensures CborToJson(JsonToCbor(doc).value).value.Object?
    ensures JsonToCbor(CborToJson(JsonToCbor(doc).value).value.members) == JsonToCbor(doc) <==>
            StableBody(BodyOf(JsonToCbor(doc).value))
  {
    hide ToCbor, ToJson, Cbor.Loads, Cbor.Enc, Cbor.Encodable, Tagged, StableBody;
    var body := ToCbor(Unwrap(doc), UNSIGNED_CORIM_MAP).value.pairs;
    LoadsInvertsDumps(Tagged(body), []);
    ReencodingGivesTheBytesExactly(JsonToCbor(doc).value);
  }
}
