/**
 rats/appraise.py: labels 0 and 1 in a reference triple. A measurement that has a key of its
 own (`comid_mkey`, label 0) is read back as an environment, whatever else it holds, so no
 document with one survives.
 */
module CorimKeyed {
  import opened Bytes
  import Cbor
  import opened Corim
  import opened CorimDocuments
  import opened CorimReference
  import opened CorimRoundTrip
  import opened CorimTables

  // ---- anywhere in a document -----------------------------------------------------------

  ghost predicate HasKey(members: seq<Member>) {
    exists i :: 0 <= i < |members| && members[i].name == COMID_MKEY
  }

  /** Somewhere under `comid_reference_triples` an object has a key of its own. */
  ghost predicate Keyed(v: Json, key: Name)
    decreases v, 1
  {
    match v
    case List(items) => AnyKeyed(items, key)
    case Object(members) => (key == COMID_REFERENCE_TRIPLES && HasKey(members)) || AnyMemberKeyed(members)
    case _ => false
  }

  ghost predicate AnyKeyed(items: seq<Json>, key: Name)
    decreases items, 0
  {
    items != [] && (Keyed(items[0], key) || AnyKeyed(items[1..], key))
  }

  ghost predicate MemberKeyed(m: Member)
    decreases m, 0
  {
    Keyed(m.value, m.name)
  }

  ghost predicate AnyMemberKeyed(members: seq<Member>)
    decreases members, 0
  {
    members != [] && (MemberKeyed(members[0]) || AnyMemberKeyed(members[1..]))
  }

  lemma {:induction false} FaithfulAt(members: seq<Member>, key: Name, t: Option<Table>, i: nat)
    requires i < |members| && AllMembersFaithful(members, key, t)
    ensures ReadsBack(t, members[i].name, key)
  {
    hide ReadsBack, MemberFaithful;
    if i > 0 {
      FaithfulAt(members[1..], key, t, i - 1);
    }
  }

  /** The key reads back as a class, so the object is not faithful. */
  lemma {:induction false} KeyedObjectIsUnfaithful(members: seq<Member>)
    requires HasKey(members)
    ensures !Faithful(Object(members), COMID_REFERENCE_TRIPLES)
  {
    hide LabelUnder, NameUnder, AllMembersFaithful;
    var key := COMID_REFERENCE_TRIPLES;
    var i :| 0 <= i < |members| && members[i].name == COMID_MKEY;
    TripleLabels();
    assert HasZero(members, key);
    assert ReadTable(members, key) == Some(Environment);
    if Faithful(Object(members), key) {
      FaithfulAt(members, key, Some(Environment), i);
    }
  }

  lemma {:induction false} ItemsUnfaithful(items: seq<Json>, key: Name)
    requires AnyKeyed(items, key)
    ensures !AllFaithful(items, key)
    decreases items, 0
  {
    hide Keyed, Faithful;
    if Keyed(items[0], key) {
      KeyedIsUnfaithful(items[0], key);
    } else {
      ItemsUnfaithful(items[1..], key);
    }
  }

  lemma {:induction false} MemberUnfaithful(m: Member)
    requires MemberKeyed(m)
    ensures !MemberFaithful(m)
    decreases m, 0
  {
    hide Keyed, Faithful;
    KeyedIsUnfaithful(m.value, m.name);
  }

  lemma {:induction false} MembersUnfaithful(members: seq<Member>, key: Name, t: Option<Table>)
    requires AnyMemberKeyed(members)
    ensures !AllMembersFaithful(members, key, t)
    decreases members, 0
  {
    hide MemberKeyed, MemberFaithful, ReadsBack;
    if MemberKeyed(members[0]) {
      MemberUnfaithful(members[0]);
    } else {
      MembersUnfaithful(members[1..], key, t);
    }
  }

  lemma {:induction false} KeyedIsUnfaithful(v: Json, key: Name)
    requires Keyed(v, key)
    ensures !Faithful(v, key)
    decreases v, 1
  {
    hide AnyKeyed, AnyMemberKeyed, AllFaithful, AllMembersFaithful, HasKey, ReadTable;
    match v
    case List(items) => ItemsUnfaithful(items, key);
    case Object(members) =>
      if AnyMemberKeyed(members) {
        MembersUnfaithful(members, key, ReadTable(members, key));
      } else {
        KeyedObjectIsUnfaithful(members);
      }
  }

  /** No document with a keyed measurement comes back. */
  lemma {:induction false} KeyedDocumentsAreLost(doc: seq<Member>)
    requires IsDoc(Unwrap(doc)) && JsonToCbor(doc).Ok? && Keyed(Unwrap(doc), UNSIGNED_CORIM_MAP)
    ensures CborToJson(JsonToCbor(doc).value) != Ok(Object(Wrap(Renamed(Unwrap(doc), UNSIGNED_CORIM_MAP))))
  {
    hide JsonToCbor, CborToJson, Keyed, Faithful, Renamed, IsDoc;
    KeyedIsUnfaithful(Unwrap(doc), UNSIGNED_CORIM_MAP);
    DocumentsSurviveExactly(doc);
  }

  // ---- what comes back instead ------------------------------------------------------------

  lemma {:induction false} TwoMembers(a: Member, b: Member, key: Name, m: int, n: int, x: Cbor.Item, y: Cbor.Item)
    requires LabelUnder(key, a.name) == Some(m) && LabelUnder(key, b.name) == Some(n) && m != n
    requires ToCborMember(a) == Ok(x) && ToCborMember(b) == Ok(y)
    ensures ToCborMembers([a, b], key, []) == Ok([Cbor.Pair(Cbor.Int(m), x), Cbor.Pair(Cbor.Int(n), y)])
  {
    hide LabelUnder, ToCborMember;
    var (p, q) := (Cbor.Pair(Cbor.Int(m), x), Cbor.Pair(Cbor.Int(n), y));
    assert [a, b][1..] == [b] && [b][1..] == [];
    assert Cbor.Put([], p.key, x) == [p] && [p][1..] == [] && Cbor.Put([p], q.key, y) == [p] + [q] == [p, q];
    assert ToCborMembers([], key, [p, q]) == Ok([p, q]);
    assert ToCborMembers([b], key, [p]) == Ok([p, q]);
  }

  lemma {:induction false} TwoPairs(p: Cbor.Pair, q: Cbor.Pair, t: Option<Table>, key: Name, m: Name, n: Name)
    requires NameUnder(t, p.key) == Some(m) && NameUnder(t, q.key) == Some(n) && m != n
    ensures ToJsonPairs([p, q], t, key, []) ==
            match ToJsonValue(p, m)
            case Err(f) => Err(f)
            case Ok(x) =>
              match ToJsonValue(q, n)
              case Err(f) => Err(f)
              case Ok(y) => Ok([Member(m, x), Member(n, y)])
  {
    hide NameUnder, ToJsonValue;
    assert [p, q][1..] == [q] && [q][1..] == [];
    if ToJsonValue(p, m).Ok? {
      var first := Member(m, ToJsonValue(p, m).value);
      assert PutMember([], m, first.value) == [first] && [first][1..] == [];
      if ToJsonValue(q, n).Ok? {
        var second := Member(n, ToJsonValue(q, n).value);
        assert PutMember([first], n, second.value) == [first] + [second] == [first, second];
        assert ToJsonPairs([], t, key, [first, second]) == Ok([first, second]);
      }
    }
  }

  /** A measurement of a key and values, whatever they are: it is read as an environment, the key
      as its class and the values as its instance, or not at all if those cannot be read so. */
  lemma {:induction false} KeyedMeasurementIsMisread(mkey: Json, mval: Json)
    requires ToCbor(mkey, COMID_MKEY).Ok? && ToCbor(mval, COMID_MVAL).Ok?
    ensures var m := Object([Member(COMID_MKEY, mkey), Member(COMID_MVAL, mval)]);
            && ToCbor(m, COMID_REFERENCE_TRIPLES).Ok? && !Faithful(m, COMID_REFERENCE_TRIPLES)
            && ToJson(ToCbor(m, COMID_REFERENCE_TRIPLES).value, COMID_REFERENCE_TRIPLES) ==
               match ToJson(ToCbor(mkey, COMID_MKEY).value, COMID_CLASS)
               case Err(f) => Err(f)
               case Ok(x) =>
                 match ToJson(ToCbor(mval, COMID_MVAL).value, COMID_INSTANCE)
                 case Err(f) => Err(f)
                 case Ok(y) => Ok(Object([Member(COMID_CLASS, x), Member(COMID_INSTANCE, y)]))
  {
    hide LabelUnder, NameUnder, ToCborMembers, ToJsonPairs, Faithful;
    var key := COMID_REFERENCE_TRIPLES;
    var id, val := Member(COMID_MKEY, mkey), Member(COMID_MVAL, mval);
    var p, q := Cbor.Pair(Cbor.Int(0), ToCbor(mkey, COMID_MKEY).value),
                Cbor.Pair(Cbor.Int(1), ToCbor(mval, COMID_MVAL).value);
    TripleLabels();
    assert [id, val][0] == id;
    KeyedObjectIsUnfaithful([id, val]);
    TwoMembers(id, val, key, 0, 1, p.value, q.value);
    assert TableFor(key, [p, q]) == Some(Environment);
    TwoPairs(p, q, Some(Environment), key, COMID_CLASS, COMID_INSTANCE);
  }

  // ---- a document that is lost and does not look it ---------------------------------------------

  /** `a` is keyed, `b` survives as it is, and the two encode to the same. */
  ghost predicate TakenFor(a: Json, b: Json, key: Name) {
    && (a.List? || a.Object?) && (b.List? || b.Object?) && IsDoc(a) && Keyed(a, key)
    && ToCbor(a, key) == ToCbor(b, key) && Becomes(b, key, b) && ItemBecomes(b, key, b)
  }

  lemma {:induction false} TakenForInList(a: Json, b: Json, key: Name)
    requires TakenFor(a, b, key)
    ensures TakenFor(List([a]), List([b]), key)
  {
    hide Becomes, ItemBecomes, Keyed, IsDoc, ToCbor, LogicMap;
    ListBecomes([b], key, [b]);
    KeyedItem(a, key);
    assert [a][1..] == [] && [b][1..] == [];
    OneItem(a, key);
    OneItem(b, key);
    assert AllDocs([]) && AllDocs([a]);
    ListDoc([a]);
  }

  lemma {:induction false} ListDoc(items: seq<Json>)
    ensures IsDoc(List(items)) <==> AllDocs(items)
  {
    hide AllDocs;
  }

  lemma {:induction false} KeyedItem(a: Json, key: Name)
    requires Keyed(a, key)
    ensures Keyed(List([a]), key)
  {
    assert AnyKeyed([a], key);
  }

  lemma {:induction false} OneItem(a: Json, key: Name)
    requires a.List? || a.Object?
    ensures ToCbor(List([a]), key) ==
            if ToCbor(a, key).Ok? then Ok(Cbor.Array([ToCbor(a, key).value])) else Err(ToCbor(a, key).fault)
  {
    assert [a][1..] == [] && ToCborItems([], key) == Ok([]);
    assert ToCborItem(a, key) == ToCbor(a, key);
    if ToCbor(a, key).Ok? {
      var x := ToCbor(a, key).value;
      assert [x] + [] == [x];
      assert ToCborItems([a], key) == Ok([x]);
    } else {
      assert ToCborItems([a], key) == Err(ToCbor(a, key).fault);
    }
  }

  lemma {:induction false} OneMember(n: Name, a: Json, key: Name)
    requires LabelUnder(key, n).Some?
    ensures ToCbor(Object([Member(n, a)]), key) ==
            if ToCbor(a, n).Ok? then Ok(Cbor.Map([Cbor.Pair(Cbor.Int(LabelUnder(key, n).value), ToCbor(a, n).value)]))
            else Err(ToCbor(a, n).fault)
  {
    hide LabelUnder, Cbor.KeyClass;
    var m := Member(n, a);
    assert [m][1..] == [];
    assert ToCborMember(m) == ToCbor(a, n);
    if ToCbor(a, n).Ok? {
      var p := Cbor.Pair(Cbor.Int(LabelUnder(key, n).value), ToCbor(a, n).value);
      assert Cbor.Put([], p.key, p.value) == [p];
      assert ToCborMembers([], key, [p]) == Ok([p]);
      assert ToCborMembers([m], key, []) == Ok([p]);
    }
  }

  lemma {:induction false} OneMemberDoc(n: Name, a: Json)
    requires IsDoc(a)
    ensures IsDoc(Object([Member(n, a)]))
  {
    assert [Member(n, a)][1..] == [] && MemberDoc(Member(n, a));
    assert AllMembersDocs([]) && AllMembersDocs([Member(n, a)]);
  }

  lemma {:induction false} KeyedMember(n: Name, a: Json, key: Name)
    requires Keyed(a, n)
    ensures Keyed(Object([Member(n, a)]), key)
  {
    assert MemberKeyed(Member(n, a));
    assert AnyMemberKeyed([Member(n, a)]);
  }

  lemma {:induction false} TakenForInObject(n: Name, a: Json, b: Json, key: Name, t: Table)
    requires TakenFor(a, b, n) && LogicMap(key) == Some(t) && Label(t, n).Some? && key != COMID_REFERENCE_TRIPLES
    ensures TakenFor(Object([Member(n, a)]), Object([Member(n, b)]), key)
  {
    hide Becomes, ItemBecomes, Keyed, IsDoc, ToCbor, LabelUnder, LogicMap;
    UnderBecomes([Member(n, b)], key, t, [Member(n, b)]);
    OwnLabel(key, t, n, Label(t, n).value);
    OneMember(n, a, key);
    OneMember(n, b, key);
    OneMemberDoc(n, a);
    KeyedMember(n, a, key);
  }

  /** A document whose one reference triple holds one number under this name. */
  function OneTriple(n: Name, number: int): seq<Member> {
    var triples := List([List([Object([Member(n, Number(number))])])]);
    [Member(CORIM_TAGS, List([Object([Member(COMID_TRIPLES, Object([Member(COMID_REFERENCE_TRIPLES, triples)]))])]))]
  }

  lemma {:induction false} KeyTakenForClass(number: int)
    requires -Cbor.LIMIT <= number < Cbor.LIMIT
    ensures TakenFor(Object([Member(COMID_MKEY, Number(number))]), Object([Member(COMID_CLASS, Number(number))]),
                     COMID_REFERENCE_TRIPLES)
  {
    hide Becomes, ItemBecomes, LabelUnder, NameUnder;
    var key := COMID_REFERENCE_TRIPLES;
    var a, b := [Member(COMID_MKEY, Number(number))], [Member(COMID_CLASS, Number(number))];
    TripleLabels();
    ClassNames();
    OwnLabel(key, Environment, COMID_CLASS, 0);
    NumberBecomes(number, COMID_CLASS);
    assert HasZero(b, key) by {
      assert LabelUnder(key, b[0].name) == Some(0);
    }
    ObjectBecomes(b, key, b);
    OneMember(COMID_MKEY, Number(number), key);
    OneMember(COMID_CLASS, Number(number), key);
    OneMemberDoc(COMID_MKEY, Number(number));
    assert HasKey(a) by {
      assert a[0].name == COMID_MKEY;
    }
  }

  lemma {:induction false} ShellNames()
    ensures Label(Triples, COMID_REFERENCE_TRIPLES).Some? && Label(ConciseMid, COMID_TRIPLES).Some?
    ensures Label(UnsignedCorim, CORIM_TAGS).Some?
    ensures LogicMap(COMID_TRIPLES) == Some(Triples) && LogicMap(CORIM_TAGS) == Some(ConciseMid)
    ensures LogicMap(UNSIGNED_CORIM_MAP) == Some(UnsignedCorim)
  {
  }

  lemma {:induction false} DocumentTakenFor(number: int)
    requires -Cbor.LIMIT <= number < Cbor.LIMIT
    ensures TakenFor(Object(OneTriple(COMID_MKEY, number)), Object(OneTriple(COMID_CLASS, number)), UNSIGNED_CORIM_MAP)
  {
    hide TakenFor, LogicMap, Label;
    var a, b := Object([Member(COMID_MKEY, Number(number))]), Object([Member(COMID_CLASS, Number(number))]);
    ShellNames();
    KeyTakenForClass(number);
    TakenForInList(a, b, COMID_REFERENCE_TRIPLES);
    TakenForInList(List([a]), List([b]), COMID_REFERENCE_TRIPLES);
    TakenForInObject(COMID_REFERENCE_TRIPLES, List([List([a])]), List([List([b])]), COMID_TRIPLES, Triples);
    var c, d := Object([Member(COMID_REFERENCE_TRIPLES, List([List([a])]))]),
                Object([Member(COMID_REFERENCE_TRIPLES, List([List([b])]))]);
    TakenForInObject(COMID_TRIPLES, c, d, CORIM_TAGS, ConciseMid);
    var e, f := Object([Member(COMID_TRIPLES, c)]), Object([Member(COMID_TRIPLES, d)]);
    TakenForInList(e, f, CORIM_TAGS);
    TakenForInObject(CORIM_TAGS, List([e]), List([f]), UNSIGNED_CORIM_MAP, UnsignedCorim);
  }

  /** A document whose measurement has a key of its own: it can be written, and what is read is the
      document with a class in the key's place. That encodes to the very bytes that were read, so
      encoding again does not show that anything was lost. */
  lemma {:induction false} AKeyIsLostUnseen(number: int)
    requires -Cbor.LIMIT <= number < Cbor.LIMIT
    ensures var doc, read := OneTriple(COMID_MKEY, number), Wrap(Object(OneTriple(COMID_CLASS, number)));
            && IsDoc(Unwrap(doc)) && Keyed(Unwrap(doc), UNSIGNED_CORIM_MAP) && JsonToCbor(doc).Ok?
            && CborToJson(JsonToCbor(doc).value) == Ok(Object(read))
            && read != Wrap(Renamed(Unwrap(doc), UNSIGNED_CORIM_MAP))
            && JsonToCbor(read) == JsonToCbor(doc)
  {
    hide ToCbor, ToJson, CborToJson, IsDoc, Keyed, Faithful, Plain, Renamed, Small, Cbor.Encodable, Cbor.Loads, Tagged,
         OneTriple;
    DocumentTakenFor(number);
    var doc, lost := OneTriple(COMID_MKEY, number), OneTriple(COMID_CLASS, number);
    BareTriple(number);
    SmallIsEncodable(Object(lost), UNSIGNED_CORIM_MAP);
    BodyIsMap(lost);
    TaggedEncodable(ToCbor(Object(lost), UNSIGNED_CORIM_MAP).value.pairs);
    DocumentsSurviveExactly(lost);
    KeyedDocumentsAreLost(doc);
    assert Unwrap(Wrap(Object(lost))) == Object(lost);
  }

  lemma {:induction false} BareTriple(number: int)
    ensures Unwrap(OneTriple(COMID_MKEY, number)) == Object(OneTriple(COMID_MKEY, number))
    ensures Unwrap(OneTriple(COMID_CLASS, number)) == Object(OneTriple(COMID_CLASS, number))
  {
  }
}
