/**
 rats/appraise.py: the reference document as the CBOR that is written, with every label and tag
 a number: CoRIM's own numbers, not the tables the encoder and the decoder share.
 */
module CorimBytes {
  import opened Bytes
  import Cbor
  import opened Corim
  import opened CorimReference

  function Entries(keys: seq<int>, values: seq<Cbor.Item>): (ps: seq<Cbor.Pair>)
    requires |keys| == |values|
    ensures |ps| == |keys|
  {
    seq(|keys|, i requires 0 <= i < |keys| => Cbor.Pair(Cbor.Int(keys[i]), values[i]))
  }

  /** A map whose labels are these numbers. */
  function Labelled(keys: seq<int>, values: seq<Cbor.Item>): Cbor.Item
    requires |keys| == |values|
  {
    Cbor.Map(Entries(keys, values))
  }

  function Words(s: string): Cbor.Item { Cbor.Text(Ascii(s)) }

  /** environment-map, with its class-map: class-id, vendor, model, layer and index. */
  function EnvironmentItem(index: byte): Cbor.Item {
    Labelled([0], [Labelled([0, 1, 2, 3, 4],
      [Words("3F8E1C4A5B7D46A29E03C81D2F6B4A70"), Words("mctp-spdm-pqc"),
       Words("spdm-emu responder, measurements from device/"), Cbor.Int(1), Cbor.Int(index)])])
  }

  /** measurement-map, with its measurement-values-map: a security version or the digests. */
  function MeasurementItem(c: Claim, alg: int): Cbor.Item {
    Labelled([1], [match c
      case Digest(_, v) => Labelled([2], [Cbor.Array([Cbor.Array([Cbor.Int(alg), Cbor.Text(Hex(v))])])])
      case Version(_, n) => Labelled([1], [Cbor.Int(n)])])
  }

  function TripleItem(c: Claim, alg: int): Cbor.Item {
    Cbor.Array([EnvironmentItem(c.index), MeasurementItem(c, alg)])
  }

  function TripleItems(cs: seq<Claim>, alg: int): (r: seq<Cbor.Item>)
    ensures |r| == |cs| && forall i :: 0 <= i < |r| ==> r[i] == TripleItem(cs[i], alg)
  {
    seq(|cs|, i requires 0 <= i < |cs| => TripleItem(cs[i], alg))
  }

  /** concise-mid-tag: tag-identity, entities and triples. */
  function MidItem(cs: seq<Claim>, alg: int, tagId: seq<byte>): Cbor.Item {
    Labelled([1, 2, 4],
      [Labelled([0], [Cbor.Text(tagId)]),
       Labelled([0, 1, 2], [Words("mctp-spdm-pqc"), Words("https://github.com/Jhongwe1/mctp-spdm-pqc"),
                            Cbor.Array([Cbor.Int(0), Cbor.Int(1)])]),
       Labelled([0], [Cbor.Array(TripleItems(cs, alg))])])
  }

  /** corim inside its two tags, and the tag of the concise MID inside the list of tags. */
  function CorimItem(cs: seq<Claim>, alg: int, corimId: seq<byte>, tagId: seq<byte>): Cbor.Item {
    Cbor.Tag(500, Cbor.Tag(501,
      Labelled([0, 1], [Cbor.Text(corimId), Cbor.Tag(506, Cbor.Array([MidItem(cs, alg, tagId)]))])))
  }

  // ---- an object becomes a map ------------------------------------------------------------------

  /** Member `i` is labelled `keys[i]` and becomes `values[i]`. */
  ghost predicate Translates(members: seq<Member>, key: Name, keys: seq<int>, values: seq<Cbor.Item>) {
    && |keys| == |values| == |members|
    && forall i :: 0 <= i < |members| ==>
         LabelUnder(key, members[i].name) == Some(keys[i]) && ToCbor(members[i].value, members[i].name) == Ok(values[i])
  }

  lemma {:induction false} PutNew(out: seq<Cbor.Pair>, n: int, v: Cbor.Item)
    requires forall i :: 0 <= i < |out| ==> Cbor.KeyClass(out[i].key) != Cbor.Int(n)
    ensures Cbor.Put(out, Cbor.Int(n), v) == out + [Cbor.Pair(Cbor.Int(n), v)]
  {
    if out != [] {
      PutNew(out[1..], n, v);
      assert out == [out[0]] + out[1..];
      Assoc([out[0]], out[1..], [Cbor.Pair(Cbor.Int(n), v)]);
    }
  }

  lemma {:induction false} MembersTranslate(members: seq<Member>, key: Name, keys: seq<int>, values: seq<Cbor.Item>,
                                            done: nat)
    requires done <= |members| && Translates(members, key, keys, values)
    requires forall i, j :: 0 <= i < j < |keys| ==> keys[i] != keys[j]
    ensures ToCborMembers(members[done..], key, Entries(keys[..done], values[..done])) == Ok(Entries(keys, values))
    decreases |members| - done
  {
    hide LabelUnder, ToCbor, Cbor.Put;
    if done < |members| {
      var m, out := members[done], Entries(keys[..done], values[..done]);
      assert members[done..][0] == m && members[done..][1..] == members[done + 1..];
      PutNew(out, keys[done], values[done]);
      assert Entries(keys[..done + 1], values[..done + 1]) == out + [Cbor.Pair(Cbor.Int(keys[done]), values[done])];
      MembersTranslate(members, key, keys, values, done + 1);
    } else {
      assert keys[..done] == keys && values[..done] == values && members[done..] == [];
    }
  }

  lemma {:induction false} ObjectTranslates(members: seq<Member>, key: Name, keys: seq<int>, values: seq<Cbor.Item>)
    requires Translates(members, key, keys, values)
    requires forall i, j :: 0 <= i < j < |keys| ==> keys[i] != keys[j]
    ensures ToCbor(Object(members), key) == Ok(Labelled(keys, values))
  {
    hide Translates, ToCborMembers;
    MembersTranslate(members, key, keys, values, 0);
    assert members[0..] == members && Entries(keys[..0], values[..0]) == [];
  }

  lemma {:induction false} ListTranslates(items: seq<Json>, key: Name, values: seq<Cbor.Item>)
    requires |items| == |values| && forall i :: 0 <= i < |items| ==> ToCborItem(items[i], key) == Ok(values[i])
    ensures ToCborItems(items, key) == Ok(values) && ToCbor(List(items), key) == Ok(Cbor.Array(values))
  {
    hide ToCborItem, LogicMap;
    if items != [] {
      ListTranslates(items[1..], key, values[1..]);
      assert values == [values[0]] + values[1..];
    }
  }

  // ---- the pieces of a reference document ---------------------------------------------------------

  lemma {:induction false} EnvironmentTranslates(index: byte)
    ensures ToCbor(EnvironmentOf(index), COMID_REFERENCE_TRIPLES) == Ok(EnvironmentItem(index))
  {
    hide Ascii;
    var about := [Member(COMID_CLASS_ID, Str(CLASS_ID)), Member(COMID_VENDOR, Str(VENDOR)),
                  Member(COMID_MODEL, Str(MODEL)), Member(COMID_LAYER, Number(LAYER)),
                  Member(COMID_INDEX, Number(index))];
    var values := [Words("3F8E1C4A5B7D46A29E03C81D2F6B4A70"), Words("mctp-spdm-pqc"),
                   Words("spdm-emu responder, measurements from device/"), Cbor.Int(1), Cbor.Int(index)];
    ObjectTranslates(about, COMID_CLASS, [0, 1, 2, 3, 4], values);
    ObjectTranslates([Member(COMID_CLASS, Object(about))], COMID_REFERENCE_TRIPLES, [0],
                     [Labelled([0, 1, 2, 3, 4], values)]);
  }

  /** No name of a hash is spelled in hexadecimal. */
  lemma {:induction false} HexIsNoName(v: seq<byte>)
    ensures TextLabel(Hash, Hex(v)).None?
  {
    var h := Hex(v);
    if v != [] {
      assert h[0] == HexDigit(v[0] / 16) && h[0] != 0x73;
    }
    forall n | Has(Hash, n)
      ensures Ascii(HashWord(n)) != h
    {
      assert HashWord(n)[0] == 's' && Ascii(HashWord(n))[0] == 0x73;
    }
    NoneSpelled(Hash, 0, h);
  }

  lemma {:induction false} NoneSpelled(t: Table, number: nat, text: seq<byte>)
    requires forall n :: Has(t, n) ==> Ascii(Word(t, n)) != text
    ensures Spelled(t, number, text).None?
    decreases MOST_LABELS - number
  {
    hide Has, Word, Ascii;
    if number < MOST_LABELS {
      NoneSpelled(t, number + 1, text);
    }
  }

  lemma {:induction false} MeasurementTranslates(c: Claim, alg: int)
    ensures ToCbor(MeasurementOf(c, Number(alg)), COMID_REFERENCE_TRIPLES) == Ok(MeasurementItem(c, alg))
  {
    hide TextLabel, Hex;
    match c {
      case Digest(_, v) =>
        var pair, item := [Number(alg), Str(Hex(v))], Cbor.Array([Cbor.Int(alg), Cbor.Text(Hex(v))]);
        HexIsNoName(v);
        ListTranslates(pair, COMID_DIGESTS, [Cbor.Int(alg), Cbor.Text(Hex(v))]);
        ListTranslates([List(pair)], COMID_DIGESTS, [item]);
        ValueTranslates(Member(COMID_DIGESTS, List([List(pair)])), 2, Cbor.Array([item]));
      case Version(_, n) => ValueTranslates(Member(COMID_SVN, Number(n)), 1, Cbor.Int(n));
    }
  }

  lemma {:induction false} ValueTranslates(m: Member, number: int, x: Cbor.Item)
    requires LabelUnder(COMID_MVAL, m.name) == Some(number) && ToCbor(m.value, m.name) == Ok(x)
    ensures ToCbor(Object([Member(COMID_MVAL, Object([m]))]), COMID_REFERENCE_TRIPLES) ==
            Ok(Labelled([1], [Labelled([number], [x])]))
  {
    hide ToCbor;
    ObjectTranslates([m], COMID_MVAL, [number], [x]);
    ObjectTranslates([Member(COMID_MVAL, Object([m]))], COMID_REFERENCE_TRIPLES, [1], [Labelled([number], [x])]);
  }

  lemma {:induction false} NoString(v: Json, key: Name)
    requires !v.Str?
    ensures ToCborItem(v, key) == ToCbor(v, key)
  {
    hide ToCbor;
  }

  lemma {:induction false} TripleTranslates(c: Claim, alg: int)
    ensures ToCborItem(TripleOf(c, Number(alg)), COMID_REFERENCE_TRIPLES) == Ok(TripleItem(c, alg))
  {
    hide EnvironmentItem, MeasurementItem, ToCbor, TextLabel, Ascii, Hex;
    EnvironmentTranslates(c.index);
    MeasurementTranslates(c, alg);
    var (e, m) := (EnvironmentOf(c.index), MeasurementOf(c, Number(alg)));
    NoString(e, COMID_REFERENCE_TRIPLES);
    NoString(m, COMID_REFERENCE_TRIPLES);
    ListTranslates([e, m], COMID_REFERENCE_TRIPLES, [EnvironmentItem(c.index), MeasurementItem(c, alg)]);
  }

  lemma {:induction false} EntityTranslates()
    ensures ToCbor(Object([Member(COMID_ENTITY_NAME, Str(VENDOR)), Member(COMID_REG_ID, Str(REG_ID)),
                           Member(COMID_ROLE, List([Number(0), Number(1)]))]), COMID_ENTITY) ==
            Ok(Labelled([0, 1, 2], [Words("mctp-spdm-pqc"), Words("https://github.com/Jhongwe1/mctp-spdm-pqc"),
                                    Cbor.Array([Cbor.Int(0), Cbor.Int(1)])]))
  {
    hide Ascii;
    ListTranslates([Number(0), Number(1)], COMID_ROLE, [Cbor.Int(0), Cbor.Int(1)]);
    ObjectTranslates([Member(COMID_ENTITY_NAME, Str(VENDOR)), Member(COMID_REG_ID, Str(REG_ID)),
                      Member(COMID_ROLE, List([Number(0), Number(1)]))], COMID_ENTITY, [0, 1, 2],
                     [Words("mctp-spdm-pqc"), Words("https://github.com/Jhongwe1/mctp-spdm-pqc"),
                      Cbor.Array([Cbor.Int(0), Cbor.Int(1)])]);
  }

  lemma {:induction false} TagTranslates(cs: seq<Claim>, alg: int, tagId: seq<byte>)
    ensures ToCbor(TagOf(TriplesOf(cs, Number(alg)), [Number(0), Number(1)], tagId), CORIM_TAGS) ==
            Ok(MidItem(cs, alg, tagId))
  {
    hide Ascii, ToCbor, TripleOf, TripleItem;
    EntityTranslates();
    forall i | 0 <= i < |cs|
      ensures ToCborItem(TriplesOf(cs, Number(alg))[i], COMID_REFERENCE_TRIPLES) == Ok(TripleItems(cs, alg)[i])
    {
      TripleTranslates(cs[i], alg);
    }
    var triples := TriplesOf(cs, Number(alg));
    ListTranslates(triples, COMID_REFERENCE_TRIPLES, TripleItems(cs, alg));
    TextTranslates(tagId, COMID_TAG_ID);
    var identity := [Member(COMID_TAG_ID, Str(tagId))];
    ObjectTranslates(identity, COMID_TAG_IDENTITY, [0], [Cbor.Text(tagId)]);
    var listed := [Member(COMID_REFERENCE_TRIPLES, List(triples))];
    ObjectTranslates(listed, COMID_TRIPLES, [0], [Cbor.Array(TripleItems(cs, alg))]);
    var tag := TagOf(triples, [Number(0), Number(1)], tagId).members;
    ObjectTranslates(tag, CORIM_TAGS, [1, 2, 4],
      [Labelled([0], [Cbor.Text(tagId)]),
       Labelled([0, 1, 2], [Words("mctp-spdm-pqc"), Words("https://github.com/Jhongwe1/mctp-spdm-pqc"),
                            Cbor.Array([Cbor.Int(0), Cbor.Int(1)])]),
       Labelled([0], [Cbor.Array(TripleItems(cs, alg))])]);
  }

  lemma {:induction false} TextTranslates(u: seq<byte>, key: Name)
    ensures ToCbor(Str(u), key) == Ok(Cbor.Text(u))
  {
  }

  /** Any reference document is written as this item: CoRIM's labels and tags, in CoRIM's places,
      whatever was claimed. */
  lemma {:induction false} ReferenceIsWritten(cs: seq<Claim>, alg: int, corimId: seq<byte>, tagId: seq<byte>)
    ensures JsonToCbor(Reference(cs, alg, corimId, tagId)) ==
            match Cbor.Dumps(CorimItem(cs, alg, corimId, tagId))
            case Ok(blob) => Ok(blob)
            case Err(e) => Err(Codec(e))
  {
    hide Ascii, ToCbor, TagOf, MidItem, Cbor.Dumps, Unwrap;
    var doc := Reference(cs, alg, corimId, tagId);
    BareDocument(cs, alg, corimId, tagId);
    TagTranslates(cs, alg, tagId);
    TextTranslates(corimId, CORIM_ID);
    var tag, mid := TagOf(TriplesOf(cs, Number(alg)), [Number(0), Number(1)], tagId), MidItem(cs, alg, tagId);
    TagNoString(TriplesOf(cs, Number(alg)), tagId);
    NoString(tag, CORIM_TAGS);
    ListTranslates([tag], CORIM_TAGS, [mid]);
    ObjectTranslates(doc, UNSIGNED_CORIM_MAP, [0, 1], [Cbor.Text(corimId), Cbor.Array([mid])]);
    TaggedIs(Cbor.Text(corimId), mid);
  }

  lemma {:induction false} TagNoString(triples: seq<Json>, tagId: seq<byte>)
    ensures !TagOf(triples, [Number(0), Number(1)], tagId).Str?
  {
    hide Ascii;
  }

  lemma {:induction false} TaggedIs(id: Cbor.Item, mid: Cbor.Item)
    ensures Tagged(Entries([0, 1], [id, Cbor.Array([mid])])) ==
            Cbor.Tag(500, Cbor.Tag(501, Labelled([0, 1], [id, Cbor.Tag(506, Cbor.Array([mid]))])))
  {
    var body := Entries([0, 1], [id, Cbor.Array([mid])]);
    assert body[1..][0] == body[1] && body[1..][1..] == [];
    assert Cbor.Get(body, Cbor.Int(1)) == Some(Cbor.Array([mid]));
    assert Cbor.Put(body, Cbor.Int(1), Cbor.Tag(506, Cbor.Array([mid]))) ==
           Entries([0, 1], [id, Cbor.Tag(506, Cbor.Array([mid]))]);
  }
}
