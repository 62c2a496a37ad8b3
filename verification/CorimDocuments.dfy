/**
 Whole reference documents: what comes back from CBOR, and when encoding that again gives
 the same bytes.
 */
module CorimDocuments {
  import opened Bytes
  import Cbor
  import opened CborRoundTrip
  import opened Corim
  import opened CorimTables
  import opened CorimRoundTrip

  // ---- encoding the renamed document ----------------------------------------------------

  /** No list has a boolean that Python would take for a label of the key's table. */
  ghost predicate Plain(v: Json, key: Name)
    decreases v, 1
  {
    match v
    case List(items) => AllPlain(items, key)
    case Object(members) => AllMembersPlain(members)
    case _ => true
  }

  ghost predicate PlainItem(v: Json, key: Name)
    decreases v, 2
  {
    var t := LogicMap(key);
    if v.Flag? && t.Some? then !Has(t.value, if v.b then 1 else 0) else Plain(v, key)
  }

  ghost predicate AllPlain(items: seq<Json>, key: Name)
    decreases items, 0
  {
    items == [] || (PlainItem(items[0], key) && AllPlain(items[1..], key))
  }

  ghost predicate MemberPlain(m: Member)
    decreases m, 0
  {
    Plain(m.value, m.name)
  }

  ghost predicate AllMembersPlain(members: seq<Member>)
    decreases members, 0
  {
    members == [] || (MemberPlain(members[0]) && AllMembersPlain(members[1..]))
  }

  ghost predicate Reencodes(v: Json, key: Name) {
    ToCbor(Renamed(v, key), key) == ToCbor(v, key)
  }

  lemma {:induction false} ItemReencodes(v: Json, key: Name)
    requires IsDoc(v) && Faithful(v, key) && ToCborItem(v, key).Ok?
    ensures ToCborItem(RenamedItem(v, key), key).Ok?
    ensures ToCborItem(RenamedItem(v, key), key) == ToCborItem(v, key) <==> PlainItem(v, key)
    decreases v, 2
  {
    hide Ascii, Word, Has, TextLabel, LogicMap, ToCborItems, ToCborMembers, RenamedItems, RenamedMembers, AllPlain,
         AllMembersPlain;
    var t := LogicMap(key);
    if t.Some? && (v.Number? || v.Flag?) {
      var n := if v.Number? then v.n else if v.b then 1 else 0;
      if Has(t.value, n) {
        SpellingsInvert(t.value, Ascii(Word(t.value, n)), n);
      }
    } else if !(v.Str? && t.Some?) {
      ReencodesExactly(v, key);
    }
  }

  lemma {:induction false} ItemsReencode(items: seq<Json>, key: Name)
    requires AllDocs(items) && AllFaithful(items, key) && ToCborItems(items, key).Ok?
    ensures ToCborItems(RenamedItems(items, key), key).Ok?
    ensures ToCborItems(RenamedItems(items, key), key) == ToCborItems(items, key) <==> AllPlain(items, key)
    decreases items, 0
  {
    hide ToCborItem, RenamedItem, Faithful, IsDoc, PlainItem;
    if items != [] {
      ItemReencodes(items[0], key);
      ItemsReencode(items[1..], key);
      var r := RenamedItems(items, key);
      assert r[0] == RenamedItem(items[0], key) && r[1..] == RenamedItems(items[1..], key);
      var a, as_ := ToCborItem(items[0], key).value, ToCborItems(items[1..], key).value;
      var b, bs := ToCborItem(r[0], key).value, ToCborItems(r[1..], key).value;
      if [a] + as_ == [b] + bs {
        ConsInjective(a, as_, b, bs);
      }
    }
  }

  lemma {:induction false} MemberReencodes(m: Member)
    requires MemberDoc(m) && MemberFaithful(m) && ToCborMember(m).Ok?
    ensures ToCborMember(RenamedMember(m)).Ok?
    ensures ToCborMember(RenamedMember(m)) == ToCborMember(m) <==> MemberPlain(m)
    decreases m, 0
  {
    hide ToCbor, Renamed, Faithful, IsDoc, Plain;
    ReencodesExactly(m.value, m.name);
  }

  lemma {:induction false} LabelledEncodes(members: seq<Member>, key: Name, out: seq<Cbor.Pair>)
    requires Labelled(members, key)
    ensures ToCborMembers(members, key, out).Ok?
    decreases |members|
  {
    hide LabelUnder, ToCborMember, Cbor.Put;
    if members != [] {
      LabelledEncodes(members[1..], key,
                      Cbor.Put(out, Cbor.Int(LabelUnder(key, members[0].name).value), ToCborMember(members[0]).value));
    }
  }

  lemma {:induction false} PlainMembers(members: seq<Member>)
    ensures AllMembersPlain(members) <==> forall i :: 0 <= i < |members| ==> MemberPlain(members[i])
  {
    hide MemberPlain;
    if members != [] {
      PlainMembers(members[1..]);
      assert members == [members[0]] + members[1..];
    }
  }

  /** An object whose names lead back keeps each member in its place. */
  lemma {:induction false} FaithfulEncoding(members: seq<Member>, key: Name, t: Option<Table>)
    requires Unique(members) && Labelled(members, key)
    requires forall i :: 0 <= i < |members| ==> ReadsBack(t, members[i].name, key)
    ensures ToCborMembers(members, key, []) == Ok(PairsOf(members, key))
  {
    hide LabelUnder, ToCborMember, ReadsBack, ToCborMembers, PairsOf, Labelled;
    LabelledEncodes(members, key, []);
    MembersEncode(members, key, []);
    NoPairs(PairsOf(members, key), key);
    assert [] + members == members;
    LabelsDiffer(members, key, t, [], []);
  }

  lemma {:induction false} ObjectReencodes(members: seq<Member>, key: Name)
    requires Unique(members) && AllMembersDocs(members) && AllMembersFaithful(members, key, ReadTable(members, key))
    requires ToCborMembers(members, key, []).Ok?
    ensures ToCborMembers(RenamedMembers(members), key, []).Ok?
    ensures ToCborMembers(RenamedMembers(members), key, []) == ToCborMembers(members, key, []) <==>
            AllMembersPlain(members)
    decreases members, 2
  {
    hide LabelUnder, ToCborMember, MemberFaithful, MemberDoc, MemberPlain, ReadsBack, ReadTable, ToCborMembers,
         AllMembersFaithful, AllMembersPlain, RenamedMembers, PairsOf, AllMembersDocs;
    var t, r := ReadTable(members, key), RenamedMembers(members);
    FaithfulMembers(members, key, t);
    PlainMembers(members);
    MembersEncode(members, key, []);
    forall i: nat | i < |members|
      ensures r[i].name == members[i].name && ToCborMember(r[i]).Ok?
      ensures ToCborMember(r[i]) == ToCborMember(members[i]) <==> MemberPlain(members[i])
    {
      RenamedAt(members, i);
      DocsAt(members, i);
      assert members[i] in members;
      MemberReencodes(members[i]);
    }
    FaithfulEncoding(members, key, t);
    FaithfulEncoding(r, key, t);
    SamePairs(members, r, key);
  }

  lemma {:induction false} SamePairs(a: seq<Member>, b: seq<Member>, key: Name)
    requires Labelled(a, key) && Labelled(b, key) && |a| == |b|
    requires forall i :: 0 <= i < |a| ==> a[i].name == b[i].name
    ensures PairsOf(a, key) == PairsOf(b, key) <==>
            forall i :: 0 <= i < |a| ==> ToCborMember(b[i]) == ToCborMember(a[i])
  {
    hide LabelUnder, ToCborMember;
    forall i: nat | i < |a|
      ensures PairsOf(a, key)[i] == PairOf(a[i], key) && PairsOf(b, key)[i] == PairOf(b[i], key)
      ensures PairOf(a[i], key) == PairOf(b[i], key) <==> ToCborMember(b[i]) == ToCborMember(a[i])
    {
      PairsAre(a, key, i);
      PairsAre(b, key, i);
    }
  }

  /** A faithful document's renamed self encodes to the same item exactly when it is plain. */
  lemma {:induction false} ReencodesExactly(v: Json, key: Name)
    requires IsDoc(v) && Faithful(v, key) && ToCbor(v, key).Ok?
    ensures ToCbor(Renamed(v, key), key).Ok? && (Reencodes(v, key) <==> Plain(v, key))
    decreases v, 1
  {
    hide ToCborItems, ToCborMembers, RenamedItems, RenamedMembers, AllFaithful, AllMembersFaithful,
         AllDocs, AllMembersDocs, Unique, ReadTable, AllPlain, AllMembersPlain;
    match v
    case List(items) => ItemsReencode(items, key);
    case Object(members) => ObjectReencodes(members, key);
    case _ =>
  }

  // ---- the containers -----------------------------------------------------------------------

  lemma {:induction false} TagIsDropped(p: Cbor.Pair, q: Cbor.Pair, key: Name)
    requires p.value == Cbor.Tag(MID_TAG, q.value)
    ensures ToJsonValue(p, key) == ToJsonValue(q, key)
  {
  }

  lemma {:induction false} PutSteps(ps: seq<Cbor.Pair>, k: Cbor.Item, v: Cbor.Item)
    requires Cbor.Get(ps, k).Some?
    ensures ps != []
    ensures var r := Cbor.Put(ps, k, v);
            && r != []
            && if Cbor.KeyClass(ps[0].key) == Cbor.KeyClass(k)
               then r[0] == Cbor.Pair(ps[0].key, v) && r[1..] == ps[1..] && Cbor.Get(ps, k) == Some(ps[0].value)
               else r[0] == ps[0] && r[1..] == Cbor.Put(ps[1..], k, v) && Cbor.Get(ps, k) == Cbor.Get(ps[1..], k)
  {
    hide Cbor.KeyClass;
  }

  /** The mark that the tags are tagged does not show in the JSON. */
  lemma {:induction false} TaggedTagsRead(ps: seq<Cbor.Pair>, t: Option<Table>, key: Name, k: Cbor.Item,
                                          out: seq<Member>)
    requires Cbor.Get(ps, k).Some?
    ensures ToJsonPairs(Cbor.Put(ps, k, Cbor.Tag(MID_TAG, Cbor.Get(ps, k).value)), t, key, out) ==
            ToJsonPairs(ps, t, key, out)
    decreases |ps|
  {
    hide NameUnder, PutMember, Cbor.KeyClass, ToJsonValue, ToJson, Cbor.Put, Cbor.Get;
    PutSteps(ps, k, Cbor.Tag(MID_TAG, Cbor.Get(ps, k).value));
    var tagged := Cbor.Tag(MID_TAG, Cbor.Get(ps, k).value);
    var r := Cbor.Put(ps, k, tagged);
    if Cbor.KeyClass(ps[0].key) == Cbor.KeyClass(k) {
      if NameUnder(t, ps[0].key).Some? {
        TagIsDropped(r[0], ps[0], NameUnder(t, ps[0].key).value);
      }
    } else {
      if NameUnder(t, ps[0].key).Some? && ToJsonValue(ps[0], NameUnder(t, ps[0].key).value).Ok? {
        var n := NameUnder(t, ps[0].key).value;
        TaggedTagsRead(ps[1..], t, key, k, PutMember(out, n, ToJsonValue(ps[0], n).value));
      }
    }
  }

  lemma {:induction false} ContainersRead(body: seq<Cbor.Pair>, v: Json)
    ensures ToJson(Tagged(body), Other([])) == Ok(Object(Wrap(v))) <==>
            ToJson(Cbor.Map(body), UNSIGNED_CORIM_MAP) == Ok(v)
  {
    hide ToJsonPairs, Cbor.Get, Cbor.Put;
    var k := Cbor.Int(CORIM_TAGS_LABEL);
    if Cbor.Get(body, k).Some? {
      TaggedTagsRead(body, LogicMap(UNSIGNED_CORIM_MAP), UNSIGNED_CORIM_MAP, k, []);
    }
    var inner := Tagged(body).item;
    assert ToJson(inner.item, UNSIGNED_CORIM_MAP) == ToJson(Cbor.Map(body), UNSIGNED_CORIM_MAP);
    assert ToJson(Tagged(body), Other([])) ==
           match ToJson(inner, CORIM) { case Err(f) => Err(f) case Ok(x) => Ok(Object([Member(CORIM, x)])) };
  }

  lemma {:induction false} TaggedInjective(a: seq<Cbor.Pair>, b: seq<Cbor.Pair>)
    requires Tagged(a) == Tagged(b)
    ensures a == b
  {
    hide Cbor.Get, Cbor.Put;
    var k := Cbor.Int(CORIM_TAGS_LABEL);
    var (x, y) := (Cbor.Get(a, k), Cbor.Get(b, k));
    if x.Some? {
      GetAfterPut(a, k, Cbor.Tag(MID_TAG, x.value));
    }
    if y.Some? {
      GetAfterPut(b, k, Cbor.Tag(MID_TAG, y.value));
    }
  }

  // ---- whole documents ------------------------------------------------------------------------

  /** A document that can be encoded decodes to its two containers around its renamed self
      exactly when every name in it leads back to itself. */
  lemma {:induction false} DocumentsSurviveExactly(doc: seq<Member>)
    requires IsDoc(Unwrap(doc)) && JsonToCbor(doc).Ok?
    ensures CborToJson(JsonToCbor(doc).value) == Ok(Object(Wrap(Renamed(Unwrap(doc), UNSIGNED_CORIM_MAP)))) <==>
            Faithful(Unwrap(doc), UNSIGNED_CORIM_MAP)
  {
    hide ToCbor, ToJson, Tagged, Cbor.Loads, Cbor.Dumps, IsDoc, Faithful, Renamed;
    var v := Unwrap(doc);
    var body := ToCbor(v, UNSIGNED_CORIM_MAP).value.pairs;
    LoadsInvertsDumps(Tagged(body), []);
    ContainersRead(body, Renamed(v, UNSIGNED_CORIM_MAP));
    TranslationIsExact(v, UNSIGNED_CORIM_MAP);
    TaggedShape(body);
  }

  lemma {:induction false} TaggedShape(body: seq<Cbor.Pair>)
    ensures var item := Tagged(body);
            item.Tag? && item.tag == CORIM_TAG && item.item.Tag? && item.item.tag == UNSIGNED_TAG && item.item.item.Map?
  {
  }

  /** And encoding what came back gives the same bytes exactly when the document is plain. */
  lemma {:induction false} ReencodingIsStableExactly(doc: seq<Member>)
    requires IsDoc(Unwrap(doc)) && Faithful(Unwrap(doc), UNSIGNED_CORIM_MAP) && JsonToCbor(doc).Ok?
    ensures JsonToCbor(Wrap(Renamed(Unwrap(doc), UNSIGNED_CORIM_MAP))) == JsonToCbor(doc) <==>
            Plain(Unwrap(doc), UNSIGNED_CORIM_MAP)
  {
    hide ToCbor, Tagged, IsDoc, Faithful, Renamed, Plain, Cbor.Enc, Cbor.Encodable;
    var v := Unwrap(doc);
    var r := Renamed(v, UNSIGNED_CORIM_MAP);
    ReencodesExactly(v, UNSIGNED_CORIM_MAP);
    assert Unwrap(Wrap(r)) == r;
    if JsonToCbor(Wrap(r)) == JsonToCbor(doc) {
      var a, b := ToCbor(r, UNSIGNED_CORIM_MAP).value.pairs, ToCbor(v, UNSIGNED_CORIM_MAP).value.pairs;
      EncodingsArePrefixFree(Tagged(a), Tagged(b));
      TaggedInjective(a, b);
    }
  }
}
