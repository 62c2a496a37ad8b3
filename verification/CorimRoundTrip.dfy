/**
 Which documents survive translation to CBOR and back, exactly, and what becomes of them.
 */
module CorimRoundTrip {
  import opened Bytes
  import Cbor
  import opened Corim
  import opened CorimTables

  // ---- what a document becomes ------------------------------------------------------------

  /** The document with every number that stands in a list for a name of the key's table
      replaced by that name; everything else as it is. */
  ghost function Renamed(v: Json, key: Name): Json
    decreases v, 1
  {
    match v
    case List(items) => List(RenamedItems(items, key))
    case Object(members) => Object(RenamedMembers(members))
    case _ => v
  }

  ghost function RenamedItem(v: Json, key: Name): Json
    decreases v, 2
  {
    var t := LogicMap(key);
    if t.Some? && v.Number? && Has(t.value, v.n) then Str(Ascii(Word(t.value, v.n)))
    else if t.Some? && v.Flag? && Has(t.value, if v.b then 1 else 0)
    then Str(Ascii(Word(t.value, if v.b then 1 else 0)))
    else Renamed(v, key)
  }

  ghost function RenamedItems(items: seq<Json>, key: Name): (r: seq<Json>)
    ensures |r| == |items|
    decreases items, 0
  {
    if items == [] then [] else [RenamedItem(items[0], key)] + RenamedItems(items[1..], key)
  }

  ghost function RenamedMember(m: Member): Member
    decreases m, 0
  {
    Member(m.name, Renamed(m.value, m.name))
  }

  ghost function RenamedMembers(members: seq<Member>): (r: seq<Member>)
    ensures |r| == |members|
    decreases members, 0
  {
    if members == [] then [] else [RenamedMember(members[0])] + RenamedMembers(members[1..])
  }

  // ---- which documents survive --------------------------------------------------------------

  /** Objects are dicts: no name twice. */
  ghost predicate Unique(members: seq<Member>) {
    forall i, j :: 0 <= i < j < |members| ==> members[i].name != members[j].name
  }

  ghost predicate IsDoc(v: Json)
    decreases v, 1
  {
    match v
    case List(items) => AllDocs(items)
    case Object(members) => Unique(members) && AllMembersDocs(members)
    case _ => true
  }

  ghost predicate AllDocs(items: seq<Json>)
    decreases items, 0
  {
    items == [] || (IsDoc(items[0]) && AllDocs(items[1..]))
  }

  ghost predicate MemberDoc(m: Member)
    decreases m, 0
  {
    IsDoc(m.value)
  }

  ghost predicate AllMembersDocs(members: seq<Member>)
    decreases members, 0
  {
    members == [] || (MemberDoc(members[0]) && AllMembersDocs(members[1..]))
  }

  /** Some name of the object has label 0: in a reference triple it is the environment. */
  ghost predicate HasZero(members: seq<Member>, key: Name) {
    exists i :: 0 <= i < |members| && LabelUnder(key, members[i].name) == Some(0)
  }

  ghost function ReadTable(members: seq<Member>, key: Name): Option<Table> {
    if key == COMID_REFERENCE_TRIPLES && !HasZero(members, key) then Some(Measurement) else LogicMap(key)
  }

  /** The label of the name leads back to the name. */
  ghost predicate ReadsBack(t: Option<Table>, n: Name, key: Name) {
    && LabelUnder(key, n).Some?
    && NameUnder(t, Cbor.Int(LabelUnder(key, n).value)) == Some(n)
  }

  /** Every name of every object leads back to itself under the key it stands under. */
  ghost predicate Faithful(v: Json, key: Name)
    decreases v, 1
  {
    match v
    case List(items) => AllFaithful(items, key)
    case Object(members) => AllMembersFaithful(members, key, ReadTable(members, key))
    case _ => true
  }

  ghost predicate AllFaithful(items: seq<Json>, key: Name)
    decreases items, 0
  {
    items == [] || (Faithful(items[0], key) && AllFaithful(items[1..], key))
  }

  ghost predicate MemberFaithful(m: Member)
    decreases m, 0
  {
    Faithful(m.value, m.name)
  }

  ghost predicate AllMembersFaithful(members: seq<Member>, key: Name, t: Option<Table>)
    decreases members, 0
  {
    members == []
    || (ReadsBack(t, members[0].name, key) && MemberFaithful(members[0]) && AllMembersFaithful(members[1..], key, t))
  }

  // ---- lists ----------------------------------------------------------------------------------

  /** A list item on its own comes back as `RenamedItem`, or survives exactly when it is
      faithful. */
  lemma {:induction false} ItemExactly(v: Json, key: Name)
    requires IsDoc(v) && ToCborItem(v, key).Ok?
    ensures ToJsonItem(ToCborItem(v, key).value, key) == Ok(RenamedItem(v, key)) <==> Faithful(v, key)
    decreases v, 2
  {
    hide Ascii, Word, Has, TextLabel, LogicMap, ToCborItems, ToCborMembers, ToJsonItems, ToJsonPairs, RenamedItems,
         RenamedMembers;
    var t := LogicMap(key);
    if v.Str? && t.Some? {
      if TextLabel(t.value, v.text).Some? {
        SpellingsInvert(t.value, v.text, TextLabel(t.value, v.text).value);
      }
    } else {
      TranslationIsExact(v, key);
    }
  }

  lemma {:induction false} ItemsExactly(items: seq<Json>, key: Name)
    requires AllDocs(items) && ToCborItems(items, key).Ok?
    ensures ToJsonItems(ToCborItems(items, key).value, key) == Ok(RenamedItems(items, key)) <==> AllFaithful(items, key)
    decreases items, 0
  {
    hide ToCborItem, ToJsonItem, RenamedItem, Faithful, IsDoc;
    if items != [] {
      ItemExactly(items[0], key);
      ItemsExactly(items[1..], key);
      var first, rest := ToCborItem(items[0], key).value, ToCborItems(items[1..], key).value;
      assert ([first] + rest)[0] == first && ([first] + rest)[1..] == rest;
      ItemsCons(first, rest, key, RenamedItem(items[0], key), RenamedItems(items[1..], key));
    }
  }

  lemma {:induction false} ItemsCons(first: Cbor.Item, rest: seq<Cbor.Item>, key: Name, x: Json, xs: seq<Json>)
    ensures ToJsonItems([first] + rest, key) == Ok([x] + xs) <==>
            ToJsonItem(first, key) == Ok(x) && ToJsonItems(rest, key) == Ok(xs)
  {
    hide ToJsonItem;
    assert ([first] + rest)[0] == first && ([first] + rest)[1..] == rest;
    if ToJsonItems([first] + rest, key) == Ok([x] + xs) {
      var y, ys := ToJsonItem(first, key).value, ToJsonItems(rest, key).value;
      ConsInjective(x, xs, y, ys);
    }
  }

  // ---- objects ----------------------------------------------------------------------------------

  ghost function PairOf(m: Member, key: Name): Cbor.Pair
    requires LabelUnder(key, m.name).Some? && ToCborMember(m).Ok?
  {
    Cbor.Pair(Cbor.Int(LabelUnder(key, m.name).value), ToCborMember(m).value)
  }

  /** What encoding makes of a list of members, before any label is put on top of another. */
  ghost function PairsOf(members: seq<Member>, key: Name): (ps: seq<Cbor.Pair>)
    requires Labelled(members, key)
    ensures |ps| == |members|
  {
    if members == [] then []
    else [PairOf(members[0], key)] + PairsOf(members[1..], key)
  }

  ghost predicate Labelled(members: seq<Member>, key: Name) {
    forall i :: 0 <= i < |members| ==> LabelUnder(key, members[i].name).Some? && ToCborMember(members[i]).Ok?
  }

  lemma {:induction false} NoPairs(out: seq<Cbor.Pair>, key: Name)
    ensures Labelled([], key) && PairsOf([], key) == []
    ensures out + [] == out && [] + out == out
  {
  }

  lemma {:induction false} LabelledCons(members: seq<Member>, key: Name)
    requires members != [] && LabelUnder(key, members[0].name).Some? && ToCborMember(members[0]).Ok?
    ensures Labelled(members, key) <==> Labelled(members[1..], key)
  {
    hide LabelUnder, ToCborMember;
    assert members == [members[0]] + members[1..];
  }

  lemma {:induction false} PutGrows(out: seq<Cbor.Pair>, k: Cbor.Item, v: Cbor.Item)
    ensures |Cbor.Put(out, k, v)| == |out| + (if Cbor.Holds(out, k) then 0 else 1)
    ensures !Cbor.Holds(out, k) ==> Cbor.Put(out, k, v) == out + [Cbor.Pair(k, v)]
  {
    if out != [] {
      PutGrows(out[1..], k, v);
    }
  }

  /** Encoding an object loses members or keeps each in its place. */
  lemma {:induction false} MembersEncode(members: seq<Member>, key: Name, out: seq<Cbor.Pair>)
    requires ToCborMembers(members, key, out).Ok?
    ensures Labelled(members, key)
    ensures var ps := ToCborMembers(members, key, out).value;
            |ps| <= |out| + |members| && (|ps| == |out| + |members| ==> ps == out + PairsOf(members, key))
  {
    hide LabelUnder, ToCborMember, Cbor.Put, Cbor.Holds, Labelled;
    if members == [] {
      NoPairs(out, key);
    } else {
      var k, x := Cbor.Int(LabelUnder(key, members[0].name).value), ToCborMember(members[0]).value;
      MembersEncode(members[1..], key, Cbor.Put(out, k, x));
      PutGrows(out, k, x);
      LabelledCons(members, key);
      assert Cbor.Pair(k, x) == PairOf(members[0], key);
      if !Cbor.Holds(out, k) {
        Assoc(out, [Cbor.Pair(k, x)], PairsOf(members[1..], key));
      }
    }
  }

  lemma {:induction false} HoldsExactly(out: seq<Cbor.Pair>, n: int)
    requires forall i :: 0 <= i < |out| ==> out[i].key.Int?
    ensures Cbor.Holds(out, Cbor.Int(n)) <==> exists i :: 0 <= i < |out| && out[i].key == Cbor.Int(n)
  {
    if out != [] {
      HoldsExactly(out[1..], n);
      assert out == [out[0]] + out[1..];
    }
  }

  lemma {:induction false} PairsAre(members: seq<Member>, key: Name, i: nat)
    requires Labelled(members, key) && i < |members|
    ensures PairsOf(members, key)[i] == PairOf(members[i], key)
  {
    hide LabelUnder, ToCborMember;
    if i > 0 {
      PairsAre(members[1..], key, i - 1);
    }
  }

  lemma {:induction false} PutMemberGrows(out: seq<Member>, n: Name, v: Json)
    ensures |PutMember(out, n, v)| <= |out| + 1
    ensures |PutMember(out, n, v)| == |out| + 1 ==> PutMember(out, n, v) == out + [Member(n, v)]
    ensures (forall i :: 0 <= i < |out| ==> out[i].name != n) ==> PutMember(out, n, v) == out + [Member(n, v)]
  {
    if out != [] {
      PutMemberGrows(out[1..], n, v);
      if |PutMember(out, n, v)| == |out| + 1 {
        assert PutMember(out, n, v) == [out[0]] + (out[1..] + [Member(n, v)]);
      }
      if forall i :: 0 <= i < |out| ==> out[i].name != n {
        assert PutMember(out, n, v) == [out[0]] + (out[1..] + [Member(n, v)]);
      }
    }
  }

  /** Decoding a map gives these members, one for each pair. */
  ghost predicate Gives(pairs: seq<Cbor.Pair>, t: Option<Table>, ms: seq<Member>) {
    |ms| == |pairs| && forall i :: 0 <= i < |pairs| ==>
      NameUnder(t, pairs[i].key) == Some(ms[i].name) && ToJsonValue(pairs[i], ms[i].name) == Ok(ms[i].value)
  }

  lemma {:induction false} PairsDecode(pairs: seq<Cbor.Pair>, t: Option<Table>, key: Name, out: seq<Member>)
    requires ToJsonPairs(pairs, t, key, out).Ok?
    ensures var r := ToJsonPairs(pairs, t, key, out).value;
            |r| <= |out| + |pairs| && (|r| == |out| + |pairs| ==> r[..|out|] == out && Gives(pairs, t, r[|out|..]))
  {
    hide NameUnder, ToJsonValue, PutMember;
    if pairs != [] {
      var n := NameUnder(t, pairs[0].key).value;
      var x := ToJsonValue(pairs[0], n).value;
      PairsDecode(pairs[1..], t, key, PutMember(out, n, x));
      PutMemberGrows(out, n, x);
      var r := ToJsonPairs(pairs, t, key, out).value;
      if |r| == |out| + |pairs| {
        var next := out + [Member(n, x)];
        assert r[..|out|] == r[..|out| + 1][..|out|] == next[..|out|] == out;
        assert r[|out|] == r[..|out| + 1][|out|] == Member(n, x);
        assert r[|out|..][1..] == r[|out| + 1..];
        GivesCons(pairs, t, r[|out|..]);
      }
    }
  }

  lemma {:induction false} GivesCons(pairs: seq<Cbor.Pair>, t: Option<Table>, ms: seq<Member>)
    requires pairs != [] && ms != [] && Gives(pairs[1..], t, ms[1..])
    requires NameUnder(t, pairs[0].key) == Some(ms[0].name) && ToJsonValue(pairs[0], ms[0].name) == Ok(ms[0].value)
    ensures Gives(pairs, t, ms)
  {
    hide NameUnder, ToJsonValue;
    forall i | 0 < i < |pairs|
      ensures NameUnder(t, pairs[i].key) == Some(ms[i].name) && ToJsonValue(pairs[i], ms[i].name) == Ok(ms[i].value)
    {
      assert pairs[i] == pairs[1..][i - 1] && ms[i] == ms[1..][i - 1];
    }
  }

  /** And if the names it gives are all different, it does give them. */
  lemma {:induction false} DecodesTo(pairs: seq<Cbor.Pair>, t: Option<Table>, key: Name, out: seq<Member>,
                                     ms: seq<Member>)
    requires Gives(pairs, t, ms) && Unique(out + ms)
    ensures ToJsonPairs(pairs, t, key, out) == Ok(out + ms)
    decreases |pairs|
  {
    hide NameUnder, ToJsonValue, PutMember;
    if pairs == [] {
      assert out + ms == out;
    } else {
      var all := out + ms;
      forall i | 0 <= i < |out|
        ensures out[i].name != ms[0].name
      {
        assert all[i].name != all[|out|].name;
      }
      PutMemberGrows(out, ms[0].name, ms[0].value);
      assert out + ms == (out + [ms[0]]) + ms[1..];
      DecodesTo(pairs[1..], t, key, out + [ms[0]], ms[1..]);
    }
  }

  lemma {:induction false} RenamedAt(members: seq<Member>, i: nat)
    requires i < |members|
    ensures RenamedMembers(members)[i] == RenamedMember(members[i])
  {
    hide RenamedMember;
    if i > 0 {
      RenamedAt(members[1..], i - 1);
    }
  }

  lemma {:induction false} DocsAt(members: seq<Member>, i: nat)
    requires i < |members| && AllMembersDocs(members)
    ensures MemberDoc(members[i])
  {
    hide MemberDoc;
    if i > 0 {
      DocsAt(members[1..], i - 1);
    }
  }

  lemma {:induction false} FaithfulMembers(members: seq<Member>, key: Name, t: Option<Table>)
    ensures AllMembersFaithful(members, key, t) <==>
            forall i :: 0 <= i < |members| ==> ReadsBack(t, members[i].name, key) && MemberFaithful(members[i])
  {
    hide ReadsBack, MemberFaithful;
    if members != [] {
      FaithfulMembers(members[1..], key, t);
      assert members == [members[0]] + members[1..];
    }
  }

  /** Members with the same label overwrite one another; when each label leads back to its
      name they differ, because the names do. */
  lemma {:induction false} LabelsDiffer(members: seq<Member>, key: Name, t: Option<Table>, out: seq<Cbor.Pair>,
                                        done: seq<Member>)
    requires Unique(done + members) && ToCborMembers(members, key, out).Ok?
    requires forall i :: 0 <= i < |done| ==> ReadsBack(t, done[i].name, key)
    requires forall i :: 0 <= i < |members| ==> ReadsBack(t, members[i].name, key)
    requires Labelled(done, key) && out == PairsOf(done, key)
    ensures |ToCborMembers(members, key, out).value| == |out| + |members|
    decreases |members|
  {
    hide LabelUnder, ToCborMember, Cbor.Put, Cbor.Holds, NameUnder;
    if members != [] {
      var n := LabelUnder(key, members[0].name).value;
      forall i | 0 <= i < |out|
        ensures out[i].key.Int? && out[i].key != Cbor.Int(n)
      {
        PairsAre(done, key, i);
        assert (done + members)[i].name != (done + members)[|done|].name;
      }
      HoldsExactly(out, n);
      PutGrows(out, Cbor.Int(n), ToCborMember(members[0]).value);
      assert done + members == (done + [members[0]]) + members[1..];
      PairsAppend(done, members[0], key);
      LabelsDiffer(members[1..], key, t, PairsOf(done + [members[0]], key), done + [members[0]]);
    }
  }

  lemma {:induction false} LabelledAppend(done: seq<Member>, m: Member, key: Name)
    requires Labelled(done, key) && LabelUnder(key, m.name).Some? && ToCborMember(m).Ok?
    ensures Labelled(done + [m], key)
  {
    hide LabelUnder, ToCborMember;
  }

  lemma {:induction false} PairsAppend(done: seq<Member>, m: Member, key: Name)
    requires Labelled(done, key) && LabelUnder(key, m.name).Some? && ToCborMember(m).Ok?
    ensures Labelled(done + [m], key)
    ensures PairsOf(done + [m], key) == PairsOf(done, key) + [PairOf(m, key)]
  {
    hide LabelUnder, ToCborMember, PairOf;
    LabelledAppend(done, m, key);
    var all := done + [m];
    if done == [] {
      assert all == [m] && PairsOf([], key) + [PairOf(m, key)] == [PairOf(m, key)];
      assert PairsOf(all, key) == [PairOf(m, key)] + PairsOf([], key);
    } else {
      PairsAppend(done[1..], m, key);
      assert all[1..] == done[1..] + [m];
      assert PairsOf(all, key) == [PairOf(done[0], key)] + PairsOf(all[1..], key);
    }
  }

  lemma {:induction false} SameTable(members: seq<Member>, key: Name)
    requires Labelled(members, key)
    ensures TableFor(key, PairsOf(members, key)) == ReadTable(members, key)
  {
    hide LabelUnder, ToCborMember, Cbor.Holds;
    var ps := PairsOf(members, key);
    forall i | 0 <= i < |members|
      ensures ps[i].key == Cbor.Int(LabelUnder(key, members[i].name).value)
    {
      PairsAre(members, key, i);
    }
    HoldsExactly(ps, 0);
    if HasZero(members, key) {
      var i :| 0 <= i < |members| && LabelUnder(key, members[i].name) == Some(0);
      assert ps[i].key == Cbor.Int(0);
    }
  }

  lemma {:induction false} MemberExactly(m: Member)
    requires MemberDoc(m) && ToCborMember(m).Ok?
    ensures ToJson(ToCborMember(m).value, m.name) == Ok(RenamedMember(m).value) <==> MemberFaithful(m)
    decreases m, 0
  {
    hide ToJson, ToCbor, Renamed, Faithful, IsDoc;
    TranslationIsExact(m.value, m.name);
  }

  /** Pair `i` of an object's encoding, read back. */
  lemma {:induction false} PairExactly(members: seq<Member>, key: Name, t: Option<Table>, i: nat)
    requires Labelled(members, key) && AllMembersDocs(members) && i < |members|
    ensures var p, r := PairsOf(members, key)[i], RenamedMembers(members)[i];
            && r.name == members[i].name
            && (NameUnder(t, p.key) == Some(r.name) && ToJsonValue(p, r.name) == Ok(r.value) <==>
                ReadsBack(t, members[i].name, key) && MemberFaithful(members[i]))
    decreases members, 1
  {
    hide LabelUnder, NameUnder, ToJson, ToCborMember, MemberFaithful, MemberDoc, Renamed;
    PairsAre(members, key, i);
    RenamedAt(members, i);
    DocsAt(members, i);
    assert members[i] in members;
    MemberExactly(members[i]);
  }

  lemma {:induction false} ObjectExactly(members: seq<Member>, key: Name)
    requires Unique(members) && AllMembersDocs(members) && ToCborMembers(members, key, []).Ok?
    ensures var ps := ToCborMembers(members, key, []).value;
            ToJsonPairs(ps, TableFor(key, ps), key, []) == Ok(RenamedMembers(members)) <==>
            AllMembersFaithful(members, key, ReadTable(members, key))
    decreases members, 2
  {
    hide LabelUnder, NameUnder, ToJsonValue, ToCborMember, MemberFaithful, MemberDoc, ReadsBack, TableFor, ReadTable,
         ToCborMembers, ToJsonPairs, AllMembersFaithful, RenamedMembers, PairsOf, Labelled, AllMembersDocs;
    var ps := ToCborMembers(members, key, []).value;
    var t, r := ReadTable(members, key), RenamedMembers(members);
    MembersEncode(members, key, []);
    FaithfulMembers(members, key, t);
    SameTable(members, key);
    NoPairs(PairsOf(members, key), key);
    forall i: nat | i < |members|
      ensures r[i].name == members[i].name
      ensures var p := PairsOf(members, key)[i];
              NameUnder(t, p.key) == Some(r[i].name) && ToJsonValue(p, r[i].name) == Ok(r[i].value) <==>
              ReadsBack(t, members[i].name, key) && MemberFaithful(members[i])
    {
      PairExactly(members, key, t, i);
    }
    if AllMembersFaithful(members, key, t) {
      assert [] + members == members;
      LabelsDiffer(members, key, t, [], []);
      assert [] + r == r;
      DecodesTo(ps, t, key, [], r);
    } else if ToJsonPairs(ps, TableFor(key, ps), key, []) == Ok(r) {
      PairsDecode(ps, TableFor(key, ps), key, []);
    }
  }

  /** A document that can be encoded comes back as its renamed self exactly when every name in
      it leads back to itself. */
  lemma {:induction false} TranslationIsExact(v: Json, key: Name)
    requires IsDoc(v) && ToCbor(v, key).Ok?
    ensures ToJson(ToCbor(v, key).value, key) == Ok(Renamed(v, key)) <==> Faithful(v, key)
    decreases v, 1
  {
    hide ToCborItems, ToCborMembers, ToJsonItems, ToJsonPairs, RenamedItems, RenamedMembers, AllFaithful,
         AllMembersFaithful,
         AllDocs, AllMembersDocs, Unique, TableFor, ReadTable;
    match v
    case List(items) => ItemsExactly(items, key);
    case Object(members) => ObjectExactly(members, key);
    case _ =>
  }
}
