/**
 rats/appraise.py: the evidence and the reference document one measurement record gives, and
 that the reference document always survives its translation.
 */
module CorimReference {
  import opened Bytes
  import Cbor
  import opened CborRoundTrip
  import CborShortest
  import opened Corim
  import opened CorimTables
  import opened CorimRoundTrip
  import opened CorimDocuments
  import Records = RecordReaders
  import Fields = Measurements

  // ---- what a record claims ---------------------------------------------------------------

  function HexDigit(d: nat): byte
    requires d < 16
  {
    if d < 10 then 0x30 + d else 0x57 + d
  }

  /** `value.hex()`, as text */
  function Hex(b: seq<byte>): (h: seq<byte>)
    ensures |h| == 2 * |b| && forall i :: 0 <= i < |h| ==> h[i] < 0x80
  {
    if b == [] then [] else [HexDigit(b[0] / 16), HexDigit(b[0] % 16)] + Hex(b[1..])
  }

  /** The value of a digit: 0 to 9 and a to f. */
  function DigitValue(c: byte): Option<nat> {
    if 0x30 <= c <= 0x39 then Some(c - 0x30) else if 0x61 <= c <= 0x66 then Some(c - 0x61 + 10) else None
  }

  /** It is hexadecimal: two digits a byte, the higher first. */
  lemma {:induction false} HexIsHexadecimal(b: seq<byte>, i: nat)
    requires i < |b|
    ensures var (high, low) := (DigitValue(Hex(b)[2 * i]), DigitValue(Hex(b)[2 * i + 1]));
            high.Some? && low.Some? && high.value < 16 && low.value < 16 && 16 * high.value + low.value == b[i]
  {
    if i > 0 {
      HexIsHexadecimal(b[1..], i - 1);
      assert Hex(b)[2..] == Hex(b[1..]);
    }
  }

  /** `walk["blocks"][key]`: of several blocks with one index the last was kept. */
  function Stored(walked: seq<Records.Entry>, index: byte): (e: Records.Entry)
    requires exists e :: e in walked && e.index == index
    ensures e in walked && e.index == index
    decreases |walked|
  {
    var n := |walked| - 1;
    if walked[n].index == index then walked[n] else Stored(walked[..n], index)
  }

  /** What a block says that the formats can carry. */
  datatype Claim = Digest(index: byte, value: seq<byte>) | Version(index: byte, svn: nat)

  function ClaimOf(b: Records.Entry): Option<Claim> {
    if !b.RawBitStream() then Some(Digest(b.index, b.value))
    else if b.IsSvn() then Some(Version(b.index, LE(b.value)))
    else None
  }

  /** A digest is what bit 7 of its type marks as one; of the raw values only a secure version number
      of eight bytes is claimed, and nothing is made of the others. */
  lemma {:induction false} ClaimExactly(b: Records.Entry)
    ensures ClaimOf(b) == if b.kind < 128 then Some(Digest(b.index, b.value))
                          else if b.kind == 128 + 7 && |b.value| == 8 then Some(Version(b.index, LE(b.value)))
                          else None
  {
    hide LE;
  }

  /** The claims of the record from its `i`-th block on. */
  function ClaimsFrom(walked: seq<Records.Entry>, i: nat): (cs: seq<Claim>)
    requires i <= |walked|
    ensures |cs| <= |walked| - i
    decreases |walked| - i
  {
    if i == |walked| then []
    else match ClaimOf(Stored(walked, walked[i].index))
      case None => ClaimsFrom(walked, i + 1)
      case Some(c) => [c] + ClaimsFrom(walked, i + 1)
  }

  /** The indices of the blocks no claim was made of, from the `i`-th on. */
  function DroppedFrom(walked: seq<Records.Entry>, i: nat): (ds: seq<byte>)
    requires i <= |walked|
    ensures |ds| + |ClaimsFrom(walked, i)| == |walked| - i
    decreases |walked| - i
  {
    if i == |walked| then []
    else match ClaimOf(Stored(walked, walked[i].index))
      case None => [walked[i].index] + DroppedFrom(walked, i + 1)
      case Some(c) => DroppedFrom(walked, i + 1)
  }

  // ---- evidence ---------------------------------------------------------------------------

  const EVIDENCES := Other(Ascii("evidences"))
  const EVIDENCE := Other(Ascii("evidence"))
  const INDEX := Other(Ascii("index"))
  const DIGEST := Other(Ascii("digest"))
  const SVN := Other(Ascii("svn"))

  function EvidenceOf(c: Claim, alg: int): Json {
    Object([Member(EVIDENCE, Object(
      match c
      case Digest(i, v) => [Member(INDEX, Number(i)), Member(DIGEST, List([Number(alg), Str(Hex(v))]))]
      case Version(i, n) => [Member(INDEX, Number(i)), Member(SVN, Number(n))]))])
  }

  function Evidences(cs: seq<Claim>, alg: int): (r: seq<Json>)
    ensures |r| == |cs| && forall i :: 0 <= i < |r| ==> r[i] == EvidenceOf(cs[i], alg)
  {
    seq(|cs|, i requires 0 <= i < |cs| => EvidenceOf(cs[i], alg))
  }

  lemma {:induction false} EvidencesAppend(cs: seq<Claim>, c: Claim, alg: int)
    ensures Evidences(cs + [c], alg) == Evidences(cs, alg) + [EvidenceOf(c, alg)]
  {
    hide EvidenceOf;
  }

  /** `evidence_from_walk`, of a walk that closed: every block is reported as the last one with its
      index, as evidence or as dropped. */
  method EvidenceFromWalk(w: Records.Walk, alg: int) returns (evidence: seq<Member>, dropped: seq<byte>)
    requires w.Closes()
    ensures evidence == [Member(EVIDENCES, List(Evidences(ClaimsFrom(w.walked, 0), alg)))]
    ensures dropped == DroppedFrom(w.walked, 0)
    ensures |ClaimsFrom(w.walked, 0)| + |dropped| == |w.walked|
  {
    hide EvidenceOf, LE, Stored;
    var evidences: seq<Json> := [];
    dropped := [];
    ghost var made: seq<Claim> := [];
    for i := 0 to |w.walked|
      invariant evidences == Evidences(made, alg) && ClaimsFrom(w.walked, 0) == made + ClaimsFrom(w.walked, i)
      invariant DroppedFrom(w.walked, 0) == dropped + DroppedFrom(w.walked, i)
    {
      var b := Stored(w.walked, w.walked[i].index);
      ghost var c := ClaimOf(b);
      if c.Some? {
        Assoc(made, [c.value], ClaimsFrom(w.walked, i + 1));
        EvidencesAppend(made, c.value, alg);
        made := made + [c.value];
      } else {
        Assoc(dropped, [w.walked[i].index], DroppedFrom(w.walked, i + 1));
      }
      if !b.RawBitStream() {
        evidences := evidences + [EvidenceOf(Digest(b.index, b.value), alg)];
      } else if b.kind % 0x80 == Records.SVN_TYPE && |b.value| == 8 {
        evidences := evidences + [EvidenceOf(Version(b.index, LE(b.value)), alg)];
      } else {
        dropped := dropped + [w.walked[i].index];
      }
    }
    assert made + [] == made && dropped + [] == dropped;
    evidence := [Member(EVIDENCES, List(evidences))];
  }

  // ---- the reference document -----------------------------------------------------------------

  const CLASS_ID := Ascii("3F8E1C4A5B7D46A29E03C81D2F6B4A70")
  const VENDOR := Ascii("mctp-spdm-pqc")
  const MODEL := Ascii("spdm-emu responder, measurements from device/")
  const REG_ID := Ascii("https://github.com/Jhongwe1/mctp-spdm-pqc")
  const LAYER := 1

  function EnvironmentOf(index: byte): Json {
    Object([Member(COMID_CLASS, Object([
      Member(COMID_CLASS_ID, Str(CLASS_ID)), Member(COMID_VENDOR, Str(VENDOR)), Member(COMID_MODEL, Str(MODEL)),
      Member(COMID_LAYER, Number(LAYER)), Member(COMID_INDEX, Number(index))]))])
  }

  function MeasurementOf(c: Claim, alg: Json): Json {
    Object([Member(COMID_MVAL, Object([
      match c
      case Digest(_, v) => Member(COMID_DIGESTS, List([List([alg, Str(Hex(v))])]))
      case Version(_, n) => Member(COMID_SVN, Number(n))]))])
  }

  function TripleOf(c: Claim, alg: Json): Json {
    List([EnvironmentOf(c.index), MeasurementOf(c, alg)])
  }

  function TriplesOf(cs: seq<Claim>, alg: Json): (r: seq<Json>)
    ensures |r| == |cs| && forall i :: 0 <= i < |r| ==> r[i] == TripleOf(cs[i], alg)
  {
    seq(|cs|, i requires 0 <= i < |cs| => TripleOf(cs[i], alg))
  }

  function TagOf(triples: seq<Json>, roles: seq<Json>, tagId: seq<byte>): Json {
    Object([
      Member(COMID_TAG_IDENTITY, Object([Member(COMID_TAG_ID, Str(tagId))])),
      Member(COMID_ENTITY, Object([
        Member(COMID_ENTITY_NAME, Str(VENDOR)), Member(COMID_REG_ID, Str(REG_ID)), Member(COMID_ROLE, List(roles))])),
      Member(COMID_TRIPLES, Object([Member(COMID_REFERENCE_TRIPLES, List(triples))]))])
  }

  function DocumentOf(triples: seq<Json>, roles: seq<Json>, corimId: seq<byte>, tagId: seq<byte>): seq<Member> {
    [Member(CORIM_ID, Str(corimId)), Member(CORIM_TAGS, List([TagOf(triples, roles, tagId)]))]
  }

  /** The document as authored: numbers for the hash and the roles. */
  function Reference(cs: seq<Claim>, alg: int, corimId: seq<byte>, tagId: seq<byte>): seq<Member> {
    DocumentOf(TriplesOf(cs, Number(alg)), [Number(0), Number(1)], corimId, tagId)
  }

  /** The hash as the document names it once decoded. */
  function HashName(alg: int): Json {
    if Has(Hash, alg) then Str(Ascii(Word(Hash, alg))) else Number(alg)
  }

  /** The document as decoded: names for both. */
  function Named(cs: seq<Claim>, alg: int, corimId: seq<byte>, tagId: seq<byte>): seq<Member> {
    DocumentOf(TriplesOf(cs, HashName(alg)), [Str(Ascii("comid_tag_creator")), Str(Ascii("comid_creator"))],
               corimId, tagId)
  }

  lemma {:induction false} TriplesAppend(cs: seq<Claim>, c: Claim, alg: Json)
    ensures TriplesOf(cs + [c], alg) == TriplesOf(cs, alg) + [TripleOf(c, alg)]
  {
    hide TripleOf;
  }

  /** `reference_from_walk`, of a walk that closed. */
  method ReferenceFromWalk(w: Records.Walk, alg: int, corimId: seq<byte>, tagId: seq<byte>) returns (doc: seq<Member>)
    requires w.Closes()
    ensures doc == Reference(ClaimsFrom(w.walked, 0), alg, corimId, tagId)
  {
    hide EnvironmentOf, MeasurementOf, LE, Stored, TagOf;
    var triples: seq<Json> := [];
    ghost var made: seq<Claim> := [];
    for i := 0 to |w.walked|
      invariant triples == TriplesOf(made, Number(alg)) && ClaimsFrom(w.walked, 0) == made + ClaimsFrom(w.walked, i)
    {
      var b := Stored(w.walked, w.walked[i].index);
      ghost var c := ClaimOf(b);
      if c.Some? {
        Assoc(made, [c.value], ClaimsFrom(w.walked, i + 1));
        TriplesAppend(made, c.value, Number(alg));
        made := made + [c.value];
      }
      var env := EnvironmentOf(b.index);
      if !b.RawBitStream() {
        triples := triples + [List([env, MeasurementOf(Digest(b.index, b.value), Number(alg))])];
      } else if b.kind % 0x80 == Records.SVN_TYPE && |b.value| == 8 {
        triples := triples + [List([env, MeasurementOf(Version(b.index, LE(b.value)), Number(alg))])];
      }
    }
    assert made + [] == made;
    doc := DocumentOf(triples, [Number(0), Number(1)], corimId, tagId);
  }

  // ---- the document survives ------------------------------------------------------------------

  /** Strings that are UTF-8 and numbers and sizes that fit a CBOR head. */
  ghost predicate Small(v: Json)
    decreases v, 1
  {
    match v
    case Number(n) => -Cbor.LIMIT <= n < Cbor.LIMIT
    case Str(u) => |u| < Cbor.LIMIT && Cbor.ValidUtf8(u)
    case List(items) => |items| < Cbor.LIMIT && AllSmall(items)
    case Object(members) => |members| < Cbor.LIMIT && AllMembersSmall(members)
    case _ => true
  }

  ghost predicate AllSmall(items: seq<Json>)
    decreases items, 0
  {
    items == [] || (Small(items[0]) && AllSmall(items[1..]))
  }

  ghost predicate MemberSmall(m: Member)
    decreases m, 0
  {
    Small(m.value)
  }

  ghost predicate AllMembersSmall(members: seq<Member>)
    decreases members, 0
  {
    members == [] || (MemberSmall(members[0]) && AllMembersSmall(members[1..]))
  }

  lemma {:induction false} LabelsUnderAreSmall(key: Name, n: Name)
    ensures LabelUnder(key, n).Some? ==> 0 <= LabelUnder(key, n).value < MOST_LABELS
  {
    hide LogicMap;
  }

  lemma {:induction false} PutKeeps(ps: seq<Cbor.Pair>, n: int, v: Cbor.Item)
    requires Cbor.Dictionary(ps) && Cbor.PairsEncodable(ps) && 0 <= n < 24 && Cbor.Encodable(v)
    ensures var r := Cbor.Put(ps, Cbor.Int(n), v);
            && Cbor.Dictionary(r) && Cbor.PairsEncodable(r) && |r| <= |ps| + 1
    ensures forall k :: Cbor.Holds(Cbor.Put(ps, Cbor.Int(n), v), k) <==>
              Cbor.Holds(ps, k) || Cbor.KeyClass(k) == Cbor.Int(n)
  {
    if ps != [] && Cbor.KeyClass(ps[0].key) != Cbor.Int(n) {
      PutKeeps(ps[1..], n, v);
    }
  }

  lemma {:induction false} SmallItem(v: Json, key: Name)
    requires Small(v) && ToCborItem(v, key).Ok?
    ensures Cbor.Encodable(ToCborItem(v, key).value)
    decreases v, 2
  {
    hide ToCbor, Small, LogicMap;
    if !(v.Str? && LogicMap(key).Some? && TextLabel(LogicMap(key).value, v.text).Some?) {
      SmallIsEncodable(v, key);
    }
  }

  lemma {:induction false} SmallItems(items: seq<Json>, key: Name)
    requires AllSmall(items) && ToCborItems(items, key).Ok?
    ensures var out := ToCborItems(items, key).value; Cbor.AllEncodable(out) && |out| == |items|
    decreases items, 0
  {
    hide ToCborItem, Small, Cbor.Encodable;
    if items != [] {
      SmallItem(items[0], key);
      SmallItems(items[1..], key);
      var first, rest := ToCborItem(items[0], key).value, ToCborItems(items[1..], key).value;
      assert ([first] + rest)[0] == first && ([first] + rest)[1..] == rest;
    }
  }

  lemma {:induction false} SmallMember(m: Member)
    requires MemberSmall(m) && ToCborMember(m).Ok?
    ensures Cbor.Encodable(ToCborMember(m).value)
    decreases m, 0
  {
    hide ToCbor, Small, Cbor.Encodable;
    SmallIsEncodable(m.value, m.name);
  }

  lemma {:induction false} SmallMembers(members: seq<Member>, key: Name, out: seq<Cbor.Pair>)
    requires AllMembersSmall(members) && ToCborMembers(members, key, out).Ok?
    requires Cbor.Dictionary(out) && Cbor.PairsEncodable(out)
    ensures var r := ToCborMembers(members, key, out).value;
            Cbor.Dictionary(r) && Cbor.PairsEncodable(r) && |r| <= |out| + |members|
    decreases members, 0
  {
    hide ToCborMember, MemberSmall, LabelUnder, Cbor.Put, Cbor.Encodable, Cbor.PairsEncodable, Cbor.Dictionary;
    if members != [] {
      var number, x := LabelUnder(key, members[0].name).value, ToCborMember(members[0]).value;
      LabelsUnderAreSmall(key, members[0].name);
      SmallMember(members[0]);
      PutKeeps(out, number, x);
      SmallMembers(members[1..], key, Cbor.Put(out, Cbor.Int(number), x));
    }
  }

  /** A small document encodes to an item CBOR can write. */
  lemma {:induction false} SmallIsEncodable(v: Json, key: Name)
    requires Small(v) && ToCbor(v, key).Ok?
    ensures Cbor.Encodable(ToCbor(v, key).value)
    decreases v, 1
  {
    hide ToCborItems, ToCborMembers, AllSmall, AllMembersSmall, Cbor.ValidUtf8;
    match v
    case List(items) => SmallItems(items, key);
    case Object(members) => SmallMembers(members, key, []);
    case _ =>
  }

  // ---- documents with every virtue --------------------------------------------------------------

  /** All that the translation can ask of a document under a key. */
  ghost predicate Good(v: Json, key: Name) {
    IsDoc(v) && Faithful(v, key) && Plain(v, key) && Small(v) && ToCbor(v, key).Ok?
  }

  lemma {:induction false} GoodList(items: seq<Json>, key: Name)
    requires |items| < Cbor.LIMIT && forall i :: 0 <= i < |items| ==> !items[i].Flag? && Good(items[i], key)
    ensures Good(List(items), key)
  {
    GoodItems(items, key);
  }

  lemma {:induction false} GoodItems(items: seq<Json>, key: Name)
    requires forall i :: 0 <= i < |items| ==> !items[i].Flag? && Good(items[i], key)
    ensures AllDocs(items) && AllFaithful(items, key) && AllPlain(items, key) && AllSmall(items)
    ensures ToCborItems(items, key).Ok?
  {
    hide IsDoc, Faithful, Plain, Small, ToCbor, TextLabel, LogicMap;
    if items != [] {
      GoodItems(items[1..], key);
      assert Good(items[0], key);
    }
  }

  lemma {:induction false} GoodObject(members: seq<Member>, key: Name)
    requires |members| < Cbor.LIMIT && Unique(members)
    requires forall i :: 0 <= i < |members| ==>
               ReadsBack(ReadTable(members, key), members[i].name, key) && Good(members[i].value, members[i].name)
    ensures Good(Object(members), key)
  {
    hide ReadTable, LabelUnder, NameUnder, IsDoc, Faithful, Plain, Small, ToCbor, ToCborMembers, AllMembersFaithful,
         AllMembersPlain, AllMembersDocs, AllMembersSmall, Unique;
    FaithfulMembers(members, key, ReadTable(members, key));
    PlainMembers(members);
    GoodMembers(members);
    LabelledEncodes(members, key, []);
    GoodParts(members, key);
  }

  lemma {:induction false} GoodParts(members: seq<Member>, key: Name)
    requires |members| < Cbor.LIMIT && Unique(members) && AllMembersDocs(members) && AllMembersSmall(members)
    requires AllMembersFaithful(members, key, ReadTable(members, key)) && AllMembersPlain(members)
    requires ToCborMembers(members, key, []).Ok?
    ensures Good(Object(members), key)
  {
    hide Unique, AllMembersFaithful, AllMembersPlain, AllMembersDocs, AllMembersSmall, ToCborMembers, ReadTable;
  }

  lemma {:induction false} GoodMembers(members: seq<Member>)
    requires forall i :: 0 <= i < |members| ==> Good(members[i].value, members[i].name)
    ensures AllMembersDocs(members) && AllMembersSmall(members)
    ensures forall i :: 0 <= i < |members| ==>
              MemberFaithful(members[i]) && MemberPlain(members[i]) && ToCborMember(members[i]).Ok?
  {
    hide IsDoc, Faithful, Plain, Small, ToCbor;
    if members != [] {
      GoodMembers(members[1..]);
      assert members == [members[0]] + members[1..];
    }
  }

  // ---- what each piece becomes ------------------------------------------------------------------

  ghost predicate Becomes(v: Json, key: Name, w: Json) {
    Good(v, key) && Renamed(v, key) == w
  }

  ghost predicate ItemBecomes(v: Json, key: Name, w: Json) {
    !v.Flag? && Good(v, key) && RenamedItem(v, key) == w
  }

  lemma {:induction false} ListBecomes(items: seq<Json>, key: Name, out: seq<Json>)
    requires |items| < Cbor.LIMIT && |out| == |items|
    requires forall i :: 0 <= i < |items| ==> ItemBecomes(items[i], key, out[i])
    ensures Becomes(List(items), key, List(out)) && ItemBecomes(List(items), key, List(out))
  {
    hide Good, RenamedItems, LogicMap, Has;
    GoodList(items, key);
    ItemsBecome(items, key, out);
  }

  lemma {:induction false} ItemsBecome(items: seq<Json>, key: Name, out: seq<Json>)
    requires |out| == |items| && forall i :: 0 <= i < |items| ==> RenamedItem(items[i], key) == out[i]
    ensures RenamedItems(items, key) == out
  {
    hide RenamedItem;
    if items != [] {
      ItemsBecome(items[1..], key, out[1..]);
      assert out == [out[0]] + out[1..];
    }
  }

  lemma {:induction false} ObjectBecomes(members: seq<Member>, key: Name, out: seq<Member>)
    requires |members| < Cbor.LIMIT && Unique(members) && |out| == |members|
    requires forall i :: 0 <= i < |members| ==>
               && ReadsBack(ReadTable(members, key), members[i].name, key) && out[i].name == members[i].name
               && Becomes(members[i].value, members[i].name, out[i].value)
    ensures Becomes(Object(members), key, Object(out)) && ItemBecomes(Object(members), key, Object(out))
  {
    hide Good, RenamedMembers, LogicMap, Has, ReadsBack, ReadTable, Unique, Renamed;
    GoodObject(members, key);
    forall i | 0 <= i < |members|
      ensures RenamedMembers(members)[i] == out[i]
    {
      RenamedAt(members, i);
      assert members[i] in members;
    }
    assert RenamedMembers(members) == out;
    RenamedObject(members, key);
  }

  lemma {:induction false} RenamedObject(members: seq<Member>, key: Name)
    ensures Renamed(Object(members), key) == Object(RenamedMembers(members))
    ensures RenamedItem(Object(members), key) == Object(RenamedMembers(members))
  {
    hide RenamedMembers, LogicMap, Has;
  }

  /** The usual object: all its names are in the table of the key it stands under. */
  lemma {:induction false} UnderBecomes(members: seq<Member>, key: Name, t: Table, out: seq<Member>)
    requires LogicMap(key) == Some(t) && key != COMID_REFERENCE_TRIPLES
    requires |members| < Cbor.LIMIT && Unique(members) && |out| == |members|
    requires forall i :: 0 <= i < |members| ==>
               && Label(t, members[i].name).Some? && out[i].name == members[i].name
               && Becomes(members[i].value, members[i].name, out[i].value)
    ensures Becomes(Object(members), key, Object(out)) && ItemBecomes(Object(members), key, Object(out))
  {
    hide LogicMap, Becomes, ItemBecomes, Unique, LabelUnder, NameUnder;
    forall i | 0 <= i < |members|
      ensures ReadsBack(ReadTable(members, key), members[i].name, key)
    {
      OwnLabel(key, t, members[i].name, Label(t, members[i].name).value);
    }
    ObjectBecomes(members, key, out);
  }

  lemma {:induction false} TextBecomes(u: seq<byte>, key: Name)
    requires Cbor.ValidUtf8(u) && |u| < Cbor.LIMIT
    ensures Becomes(Str(u), key, Str(u)) && ItemBecomes(Str(u), key, Str(u))
  {
    hide Cbor.ValidUtf8, LogicMap, Has;
  }

  lemma {:induction false} NumberBecomes(n: int, key: Name)
    requires -Cbor.LIMIT <= n < Cbor.LIMIT
    ensures Becomes(Number(n), key, Number(n))
    ensures LogicMap(key).Some? ==>
              ItemBecomes(Number(n), key,
                          if Has(LogicMap(key).value, n) then Str(Ascii(Word(LogicMap(key).value, n))) else Number(n))
  {
    hide LogicMap, Has, Word, Ascii;
  }

  // ---- the pieces ---------------------------------------------------------------------------------

  lemma {:induction false} EnvironmentBecomes(index: byte)
    ensures ItemBecomes(EnvironmentOf(index), COMID_REFERENCE_TRIPLES, EnvironmentOf(index))
  {
    hide Label, Becomes, ItemBecomes, NameUnder, LabelUnder;
    forall u, key | u in [CLASS_ID, VENDOR, MODEL]
      ensures Becomes(Str(u), key, Str(u))
    {
      AsciiIsUtf8(u);
      TextBecomes(u, key);
    }
    NumberBecomes(LAYER, COMID_LAYER);
    NumberBecomes(index, COMID_INDEX);
    var about := [Member(COMID_CLASS_ID, Str(CLASS_ID)), Member(COMID_VENDOR, Str(VENDOR)),
                  Member(COMID_MODEL, Str(MODEL)),
                  Member(COMID_LAYER, Number(LAYER)), Member(COMID_INDEX, Number(index))];
    ClassNames();
    UnderBecomes(about, COMID_CLASS, Class, about);
    var env := [Member(COMID_CLASS, Object(about))];
    OwnLabel(COMID_REFERENCE_TRIPLES, Environment, COMID_CLASS, 0);
    assert HasZero(env, COMID_REFERENCE_TRIPLES) by {
      assert LabelUnder(COMID_REFERENCE_TRIPLES, env[0].name) == Some(0);
    }
    ObjectBecomes(env, COMID_REFERENCE_TRIPLES, env);
  }

  lemma {:induction false} ClassNames()
    ensures forall n :: n in [COMID_CLASS_ID, COMID_VENDOR, COMID_MODEL, COMID_LAYER, COMID_INDEX] ==>
              Label(Class, n).Some?
    ensures Label(Environment, COMID_CLASS) == Some(0)
  {
  }

  ghost predicate SmallClaim(c: Claim) {
    match c
    case Digest(_, v) => 2 * |v| < Cbor.LIMIT
    case Version(_, n) => n < Cbor.LIMIT
  }

  lemma {:induction false} MeasurementBecomes(c: Claim, alg: int)
    requires SmallClaim(c) && -Cbor.LIMIT <= alg < Cbor.LIMIT
    ensures ItemBecomes(MeasurementOf(c, Number(alg)), COMID_REFERENCE_TRIPLES, MeasurementOf(c, HashName(alg)))
  {
    hide Becomes, ItemBecomes, NameUnder, LabelUnder, Word, Ascii;
    var (a, b) := match c
      case Digest(_, v) =>
        (Member(COMID_DIGESTS, List([List([Number(alg), Str(Hex(v))])])),
         Member(COMID_DIGESTS, List([List([HashName(alg), Str(Hex(v))])])))
      case Version(_, n) => (Member(COMID_SVN, Number(n)), Member(COMID_SVN, Number(n)));
    match c {
      case Digest(_, v) =>
        AsciiIsUtf8(Hex(v));
        TextBecomes(Hex(v), COMID_DIGESTS);
        NumberBecomes(alg, COMID_DIGESTS);
        ListBecomes([Number(alg), Str(Hex(v))], COMID_DIGESTS, [HashName(alg), Str(Hex(v))]);
        ListBecomes(a.value.items, COMID_DIGESTS, b.value.items);
      case Version(_, n) => NumberBecomes(n, COMID_SVN);
    }
    ValueNames();
    UnderBecomes([a], COMID_MVAL, MeasurementValue, [b]);
    var m, w := [Member(COMID_MVAL, Object([a]))], [Member(COMID_MVAL, Object([b]))];
    TripleLabels();
    assert !HasZero(m, COMID_REFERENCE_TRIPLES);
    ObjectBecomes(m, COMID_REFERENCE_TRIPLES, w);
  }

  lemma {:induction false} ValueNames()
    ensures Label(MeasurementValue, COMID_DIGESTS).Some? && Label(MeasurementValue, COMID_SVN).Some?
  {
  }

  lemma {:induction false} TripleBecomes(c: Claim, alg: int)
    requires SmallClaim(c) && -Cbor.LIMIT <= alg < Cbor.LIMIT
    ensures ItemBecomes(TripleOf(c, Number(alg)), COMID_REFERENCE_TRIPLES, TripleOf(c, HashName(alg)))
  {
    hide ItemBecomes, EnvironmentOf, MeasurementOf, HashName;
    EnvironmentBecomes(c.index);
    MeasurementBecomes(c, alg);
    ListBecomes([EnvironmentOf(c.index), MeasurementOf(c, Number(alg))], COMID_REFERENCE_TRIPLES,
                [EnvironmentOf(c.index), MeasurementOf(c, HashName(alg))]);
  }

  lemma {:induction false} RolesBecome()
    ensures Becomes(List([Number(0), Number(1)]), COMID_ROLE,
                    List([Str(Ascii("comid_tag_creator")), Str(Ascii("comid_creator"))]))
  {
    hide Becomes, ItemBecomes, Ascii;
    NumberBecomes(0, COMID_ROLE);
    NumberBecomes(1, COMID_ROLE);
    ListBecomes([Number(0), Number(1)], COMID_ROLE, [Str(Ascii("comid_tag_creator")), Str(Ascii("comid_creator"))]);
  }

  lemma {:induction false} TagBecomes(triples: seq<Json>, named: seq<Json>, tagId: seq<byte>)
    requires Becomes(List(triples), COMID_REFERENCE_TRIPLES, List(named))
    requires Cbor.ValidUtf8(tagId) && |tagId| < Cbor.LIMIT
    ensures ItemBecomes(TagOf(triples, [Number(0), Number(1)], tagId), CORIM_TAGS,
                        TagOf(named, [Str(Ascii("comid_tag_creator")), Str(Ascii("comid_creator"))], tagId))
  {
    hide Becomes, ItemBecomes, Ascii, Cbor.ValidUtf8;
    TextBecomes(tagId, COMID_TAG_ID);
    var identity := [Member(COMID_TAG_ID, Str(tagId))];
    UnderBecomes(identity, COMID_TAG_IDENTITY, TagIdentity, identity);
    AsciiIsUtf8(VENDOR);
    AsciiIsUtf8(REG_ID);
    TextBecomes(VENDOR, COMID_ENTITY_NAME);
    TextBecomes(REG_ID, COMID_REG_ID);
    RolesBecome();
    var creators := List([Str(Ascii("comid_tag_creator")), Str(Ascii("comid_creator"))]);
    var name, id := Member(COMID_ENTITY_NAME, Str(VENDOR)), Member(COMID_REG_ID, Str(REG_ID));
    var a, b := [name, id, Member(COMID_ROLE, List([Number(0), Number(1)]))], [name, id, Member(COMID_ROLE, creators)];
    UnderBecomes(a, COMID_ENTITY, Entity, b);
    var t, u := [Member(COMID_REFERENCE_TRIPLES, List(triples))], [Member(COMID_REFERENCE_TRIPLES, List(named))];
    UnderBecomes(t, COMID_TRIPLES, Triples, u);
    UnderBecomes([Member(COMID_TAG_IDENTITY, Object(identity)), Member(COMID_ENTITY, Object(a)),
                  Member(COMID_TRIPLES, Object(t))],
                 CORIM_TAGS, ConciseMid,
                 [Member(COMID_TAG_IDENTITY, Object(identity)), Member(COMID_ENTITY, Object(b)),
                  Member(COMID_TRIPLES, Object(u))]);
  }

  lemma {:induction false} ReferenceBecomes(cs: seq<Claim>, alg: int, corimId: seq<byte>, tagId: seq<byte>)
    requires |cs| < Cbor.LIMIT && (forall i :: 0 <= i < |cs| ==> SmallClaim(cs[i])) && -Cbor.LIMIT <= alg < Cbor.LIMIT
    requires Cbor.ValidUtf8(corimId) && |corimId| < Cbor.LIMIT && Cbor.ValidUtf8(tagId) && |tagId| < Cbor.LIMIT
    ensures Becomes(Object(Reference(cs, alg, corimId, tagId)), UNSIGNED_CORIM_MAP,
                    Object(Named(cs, alg, corimId, tagId)))
  {
    hide Becomes, ItemBecomes, Ascii, Cbor.ValidUtf8, TagOf, TripleOf, HashName;
    var triples, named := TriplesOf(cs, Number(alg)), TriplesOf(cs, HashName(alg));
    forall i | 0 <= i < |cs|
      ensures ItemBecomes(triples[i], COMID_REFERENCE_TRIPLES, named[i])
    {
      TripleBecomes(cs[i], alg);
    }
    ListBecomes(triples, COMID_REFERENCE_TRIPLES, named);
    TagBecomes(triples, named, tagId);
    var roles := [Str(Ascii("comid_tag_creator")), Str(Ascii("comid_creator"))];
    var a, b := TagOf(triples, [Number(0), Number(1)], tagId), TagOf(named, roles, tagId);
    ListBecomes([a], CORIM_TAGS, [b]);
    TextBecomes(corimId, CORIM_ID);
    UnderBecomes([Member(CORIM_ID, Str(corimId)), Member(CORIM_TAGS, List([a]))], UNSIGNED_CORIM_MAP, UnsignedCorim,
                 [Member(CORIM_ID, Str(corimId)), Member(CORIM_TAGS, List([b]))]);
  }

  // ---- for every record ---------------------------------------------------------------------------

  ghost predicate Fits(walked: seq<Records.Entry>) {
    forall e :: e in walked ==> |e.value| < 0x1_0000
  }

  lemma {:induction false} ClaimsAreSmall(walked: seq<Records.Entry>, i: nat)
    requires Fits(walked) && i <= |walked|
    ensures forall c :: c in ClaimsFrom(walked, i) ==> SmallClaim(c)
    decreases |walked| - i
  {
    hide LE, ToLE, Stored, Pow256;
    if i < |walked| {
      ClaimsAreSmall(walked, i + 1);
      var b := Stored(walked, walked[i].index);
      Widths();
      ToLERoundTrip(b.value);
    }
  }

  lemma {:induction false} WalkFits(raw: seq<byte>, off: nat, end: nat, declared: Option<nat>, w: Records.Walk)
    requires off <= end <= |raw| && Fits(w.walked)
    ensures var r := Records.FieldsFrom(raw, off, end, declared, w).walked;
            Fits(r) && |r| <= |w.walked| + end - off
    decreases end - off
  {
    hide LE, Fits;
    if off + 4 <= end && 3 <= Fields.U16(raw, off + 2) <= end - off - 4
       && Fields.U16(raw, off + 2) == 3 + Fields.U16(raw, off + 5) {
      var size, valueSize := Fields.U16(raw, off + 2), Fields.U16(raw, off + 5);
      var e := Records.Entry(raw[off], raw[off + 1], size, raw[off + 4], raw[off + 7..off + 7 + valueSize]);
      FitsAppend(w.walked, e);
      WalkFits(raw, off + 4 + size, end, declared,
               Records.Walk(w.walked + [e], if e.IsSvn() then Some(LE(e.value)) else w.svn, None));
    }
  }

  lemma {:induction false} FitsAppend(walked: seq<Records.Entry>, e: Records.Entry)
    requires Fits(walked) && |e.value| < 0x1_0000
    ensures Fits(walked + [e])
  {
  }

  /** The reference document of every record whose walk closes can be written, is read back as
      itself with the hash and the roles named, and is then written as the same bytes. */
  lemma {:induction false} EveryReferenceSurvives(raw: seq<byte>, offset: nat, length: nat, declared: Option<nat>,
                                                  alg: int, corimId: seq<byte>, tagId: seq<byte>)
    requires Records.FieldsSpec(raw, offset, length, declared).Closes() && length < Cbor.LIMIT
    requires -Cbor.LIMIT <= alg < Cbor.LIMIT
    requires Cbor.ValidUtf8(corimId) && |corimId| < Cbor.LIMIT && Cbor.ValidUtf8(tagId) && |tagId| < Cbor.LIMIT
    ensures var cs := ClaimsFrom(Records.FieldsSpec(raw, offset, length, declared).walked, 0);
            var doc, named := Reference(cs, alg, corimId, tagId), Object(Named(cs, alg, corimId, tagId));
            && JsonToCbor(doc).Ok?
            && CborToJson(JsonToCbor(doc).value) == Ok(Object(Wrap(named)))
            && JsonToCbor(Wrap(named)) == JsonToCbor(doc)
  {
    hide Cbor.ValidUtf8, Reference, Named, CborToJson, ToCbor, IsDoc, Faithful, Plain, Renamed, Small,
         Records.FieldsFrom, ClaimsFrom, Cbor.Encodable;
    var walked := Records.FieldsSpec(raw, offset, length, declared).walked;
    WalkFits(raw, offset, offset + length, declared, Records.Walk([], None, None));
    ClaimsAreSmall(walked, 0);
    var cs := ClaimsFrom(walked, 0);
    var doc := Reference(cs, alg, corimId, tagId);
    ReferenceBecomes(cs, alg, corimId, tagId);
    BareDocument(cs, alg, corimId, tagId);
    SmallIsEncodable(Object(doc), UNSIGNED_CORIM_MAP);
    BodyIsMap(doc);
    TaggedEncodable(ToCbor(Object(doc), UNSIGNED_CORIM_MAP).value.pairs);
    DocumentsSurviveExactly(doc);
    ReencodingIsStableExactly(doc);
  }

  lemma {:induction false} BareDocument(cs: seq<Claim>, alg: int, corimId: seq<byte>, tagId: seq<byte>)
    ensures Unwrap(Reference(cs, alg, corimId, tagId)) == Object(Reference(cs, alg, corimId, tagId))
  {
    hide TriplesOf, TagOf;
  }

  lemma {:induction false} BodyIsMap(doc: seq<Member>)
    requires ToCbor(Object(doc), UNSIGNED_CORIM_MAP).Ok?
    ensures ToCbor(Object(doc), UNSIGNED_CORIM_MAP).value.Map?
  {
    hide ToCborMembers;
  }

  lemma {:induction false} TaggedEncodable(body: seq<Cbor.Pair>)
    requires Cbor.Encodable(Cbor.Map(body))
    ensures Cbor.Encodable(Tagged(body))
  {
    hide Cbor.Get, Cbor.Put, Cbor.Dictionary;
    var k := Cbor.Int(CORIM_TAGS_LABEL);
    if Cbor.Get(body, k).Some? {
      CborShortest.GetEncodable(body, k);
      var v := Cbor.Tag(MID_TAG, Cbor.Get(body, k).value);
      PutKeeps(body, CORIM_TAGS_LABEL, v);
      CborShortest.PutInPlace(body, k, v);
    }
    var inner := Tagged(body).item;
    assert Cbor.Encodable(inner.item) && Cbor.Encodable(inner);
  }

  // ---- evidence and reference tell the same story ---------------------------------------------------

  lemma {:induction false} HexInjective(a: seq<byte>, b: seq<byte>)
    requires Hex(a) == Hex(b)
    ensures a == b
  {
    if a != [] && b != [] {
      var (x, y) := (Hex(a), Hex(b));
      assert x[0] == y[0] && x[1] == y[1] && x[2..] == Hex(a[1..]) && y[2..] == Hex(b[1..]);
      HexInjective(a[1..], b[1..]);
      assert a[0] / 16 == b[0] / 16 && a[0] % 16 == b[0] % 16;
    }
  }

  lemma {:induction false} ClaimsInjective(c: Claim, d: Claim, alg: int)
    ensures EvidenceOf(c, alg) == EvidenceOf(d, alg) ==> c == d
    ensures TripleOf(c, Number(alg)) == TripleOf(d, Number(alg)) ==> c == d
  {
    hide Hex;
    if EvidenceOf(c, alg) == EvidenceOf(d, alg) {
      var (x, y) := (EvidenceOf(c, alg).members[0].value.members, EvidenceOf(d, alg).members[0].value.members);
      assert x[0] == y[0] && x[1] == y[1];
      if c.Digest? && d.Digest? {
        assert x[1].value.items[1] == y[1].value.items[1];
        HexInjective(c.value, d.value);
      }
    }
    if TripleOf(c, Number(alg)) == TripleOf(d, Number(alg)) {
      var (t, u) := (TripleOf(c, Number(alg)).items, TripleOf(d, Number(alg)).items);
      assert t[0].members[0].value.members[4] == u[0].members[0].value.members[4];
      var (x, y) := (t[1].members[0].value.members[0], u[1].members[0].value.members[0]);
      assert x == y;
      if c.Digest? && d.Digest? {
        assert x.value.items[0].items[1] == y.value.items[0].items[1];
        HexInjective(c.value, d.value);
      }
    }
  }

  /** Two records give the same evidence exactly when they give the same reference document:
      what one format cannot tell apart the other cannot either. */
  lemma {:induction false} SameEvidenceSameReference(cs: seq<Claim>, ds: seq<Claim>, alg: int, corimId: seq<byte>,
                                                     tagId: seq<byte>)
    ensures Evidences(cs, alg) == Evidences(ds, alg) <==>
            Reference(cs, alg, corimId, tagId) == Reference(ds, alg, corimId, tagId)
  {
    hide EvidenceOf, TripleOf;
    var (a, b) := (Evidences(cs, alg), Evidences(ds, alg));
    var (t, u) := (TriplesOf(cs, Number(alg)), TriplesOf(ds, Number(alg)));
    if a == b || t == u {
      assert |cs| == |ds|;
      forall i | 0 <= i < |cs|
        ensures cs[i] == ds[i]
      {
        assert a == b ==> a[i] == b[i];
        assert t == u ==> t[i] == u[i];
        ClaimsInjective(cs[i], ds[i], alg);
      }
      assert cs == ds;
    }
    if Reference(cs, alg, corimId, tagId) == Reference(ds, alg, corimId, tagId) {
      TriplesIn(t, u, corimId, tagId);
    }
  }

  lemma {:induction false} TriplesIn(t: seq<Json>, u: seq<Json>, corimId: seq<byte>, tagId: seq<byte>)
    requires DocumentOf(t, [Number(0), Number(1)], corimId, tagId) ==
             DocumentOf(u, [Number(0), Number(1)], corimId, tagId)
    ensures t == u
  {
    var (x, y) := (DocumentOf(t, [Number(0), Number(1)], corimId, tagId),
                   DocumentOf(u, [Number(0), Number(1)], corimId, tagId));
    assert x[1].value.items[0] == y[1].value.items[0];
    assert x[1].value.items[0].members[2] == y[1].value.items[0].members[2];
    assert x[1].value.items[0].members[2].value.members[0] == y[1].value.items[0].members[2].value.members[0];
  }
}
