/**
 rats/policy.rego: the appraisal of evidence against a decoded reference document, and what it
 decides about two measurement records.
 */
module Policy {
  import opened Bytes
  import Cbor
  import opened Corim
  import opened CorimReference
  import Repeats = CorimRepeats
  import Records = RecordReaders

  // ---- paths ------------------------------------------------------------------------------

  function MemberOf(members: seq<Member>, n: Name): Option<Json> {
    if members == [] then None else if members[0].name == n then Some(members[0].value) else MemberOf(members[1..], n)
  }

  /** `j.n`; undefined where there is no such thing. */
  function Dot(j: Option<Json>, n: Name): Option<Json> {
    if j.Some? && j.value.Object? then MemberOf(j.value.members, n) else None
  }

  /** `j[i]` */
  function Nth(j: Option<Json>, i: nat): Option<Json> {
    if j.Some? && j.value.List? && i < |j.value.items| then Some(j.value.items[i]) else None
  }

  /** `default x := []` around an array. */
  function ItemsOf(j: Option<Json>): seq<Json> {
    if j.Some? && j.value.List? then j.value.items else []
  }

  // ---- index -> value, on both sides ----------------------------------------------------------

  datatype DigestRow = DigestRow(index: int, alg: Json, value: seq<byte>)

  datatype SvnRow = SvnRow(index: int, svn: int)

  /** `hash_alg_name[id]` */
  function HashAlgName(id: Json): Option<Json> {
    if id == Number(1) then Some(Str(Ascii("sha256")))
    else if id == Number(7) then Some(Str(Ascii("sha384")))
    else if id == Number(8) then Some(Str(Ascii("sha512")))
    else None
  }

  function DigestRowOf(index: Option<Json>, alg: Option<Json>, value: Option<Json>): seq<DigestRow> {
    if index.Some? && index.value.Number? && alg.Some? && value.Some? && value.value.Str?
    then [DigestRow(index.value.n, alg.value, value.value.text)] else []
  }

  function SvnRowOf(index: Option<Json>, svn: Option<Json>): seq<SvnRow> {
    if index.Some? && index.value.Number? && svn.Some? && svn.value.Number?
    then [SvnRow(index.value.n, svn.value.n)] else []
  }

  /** `ev_digest` */
  function EvDigest(e: Json): seq<DigestRow> {
    var evidence := Dot(Some(e), Other(Ascii("evidence")));
    var digest := Dot(evidence, Other(Ascii("digest")));
    var id := Nth(digest, 0);
    DigestRowOf(Dot(evidence, Other(Ascii("index"))), if id.Some? then HashAlgName(id.value) else None, Nth(digest, 1))
  }

  /** `ev_svn` */
  function EvSvn(e: Json): seq<SvnRow> {
    var evidence := Dot(Some(e), Other(Ascii("evidence")));
    SvnRowOf(Dot(evidence, Other(Ascii("index"))), Dot(evidence, Other(Ascii("svn"))))
  }

  /** `ref_digest` */
  function RefDigest(triple: Json): seq<DigestRow> {
    var digest := Nth(Dot(Dot(Nth(Some(triple), 1), COMID_MVAL), COMID_DIGESTS), 0);
    DigestRowOf(Dot(Dot(Nth(Some(triple), 0), COMID_CLASS), COMID_INDEX), Nth(digest, 0), Nth(digest, 1))
  }

  /** `ref_svn` */
  function RefSvn(triple: Json): seq<SvnRow> {
    SvnRowOf(Dot(Dot(Nth(Some(triple), 0), COMID_CLASS), COMID_INDEX),
             Dot(Dot(Nth(Some(triple), 1), COMID_MVAL), COMID_SVN))
  }

  function Rows<T>(js: seq<Json>, f: Json -> seq<T>): seq<T> {
    if js == [] then [] else f(js[0]) + Rows(js[1..], f)
  }

  /** `evidence_arr` */
  function EvidenceArr(doc: Json): seq<Json> {
    ItemsOf(Dot(Some(doc), Other(Ascii("evidences"))))
  }

  /** `reference_arr` */
  function ReferenceArr(doc: Json): seq<Json> {
    var tags := Dot(Dot(Dot(Some(doc), CORIM), UNSIGNED_CORIM_MAP), CORIM_TAGS);
    ItemsOf(Dot(Dot(Nth(tags, 0), COMID_TRIPLES), COMID_REFERENCE_TRIPLES))
  }

  // ---- the checks ---------------------------------------------------------------------------------

  datatype Input = Input(evDigests: seq<DigestRow>, evSvns: seq<SvnRow>, refDigests: seq<DigestRow>,
                         refSvns: seq<SvnRow>)

  function InputOf(evidence: Json, reference: Json): Input {
    Input(Rows(EvidenceArr(evidence), EvDigest), Rows(EvidenceArr(evidence), EvSvn),
          Rows(ReferenceArr(reference), RefDigest), Rows(ReferenceArr(reference), RefSvn))
  }

  /** Two values for one key of an object rule, which OPA reports as an error. */
  ghost predicate DigestConflict(rows: seq<DigestRow>) {
    exists r, s :: r in rows && s in rows && r.index == s.index && r != s
  }

  ghost predicate SvnConflict(rows: seq<SvnRow>) {
    exists r, s :: r in rows && s in rows && r.index == s.index && r != s
  }

  ghost predicate Undecided(i: Input) {
    DigestConflict(i.evDigests) || SvnConflict(i.evSvns) || DigestConflict(i.refDigests) || SvnConflict(i.refSvns)
  }

  ghost predicate HashCheck(i: Input) {
    && i.refDigests != []
    && (forall r, e :: r in i.refDigests && e in i.evDigests && r.index == e.index ==>
          r.alg == e.alg && r.value == e.value)
    && (forall r :: r in i.refDigests ==> exists e :: e in i.evDigests && e.index == r.index)
    && forall e :: e in i.evDigests ==> exists r :: r in i.refDigests && r.index == e.index
  }

  ghost predicate SvnCheck(i: Input) {
    && i.refSvns != []
    && (forall r, e :: r in i.refSvns && e in i.evSvns && r.index == e.index ==> !(e.svn < r.svn))
    && (forall r :: r in i.refSvns ==> exists e :: e in i.evSvns && e.index == r.index)
    && forall e :: e in i.evSvns ==> exists r :: r in i.refSvns && r.index == e.index
  }

  ghost predicate Passes(i: Input) {
    !Undecided(i) && (i.refDigests != [] || i.refSvns != []) && HashCheck(i) && SvnCheck(i)
  }

  // ---- what the documents of two records say ---------------------------------------------------------

  function EvidenceDoc(cs: seq<Claim>, alg: int): Json {
    Object([Member(EVIDENCES, List(Evidences(cs, alg)))])
  }

  /** The reference as it is read back. */
  function ReferenceDoc(cs: seq<Claim>, alg: int, corimId: seq<byte>, tagId: seq<byte>): Json {
    Object(Wrap(Object(Named(cs, alg, corimId, tagId))))
  }

  function DigestRowFor(c: Claim, alg: Json): DigestRow
    requires c.Digest?
  {
    DigestRow(c.index, alg, Hex(c.value))
  }

  function DigestsOf(cs: seq<Claim>, alg: Json): seq<DigestRow> {
    if cs == [] then [] else (if cs[0].Digest? then [DigestRowFor(cs[0], alg)] else []) + DigestsOf(cs[1..], alg)
  }

  function VersionsOf(cs: seq<Claim>): seq<SvnRow> {
    if cs == [] then []
    else (if cs[0].Version? then [SvnRow(cs[0].index, cs[0].svn)] else []) + VersionsOf(cs[1..])
  }

  lemma {:induction false} NamesDiffer()
    ensures Other(Ascii("evidence")) == EVIDENCE && Other(Ascii("index")) == INDEX && Other(Ascii("digest")) == DIGEST
    ensures Other(Ascii("svn")) == SVN && Other(Ascii("evidences")) == EVIDENCES
    ensures INDEX != DIGEST && INDEX != SVN && DIGEST != SVN
  {
    assert |Ascii("index")| == 5 && |Ascii("svn")| == 3 && |Ascii("digest")| == 6;
  }

  lemma {:induction false} MemberFirst(m: Member, rest: seq<Member>, n: Name)
    ensures MemberOf([m] + rest, n) == if m.name == n then Some(m.value) else MemberOf(rest, n)
  {
    assert ([m] + rest)[1..] == rest;
  }

  lemma {:induction false} MemberOfOne(m: Member, n: Name)
    ensures MemberOf([m], n) == if m.name == n then Some(m.value) else None
  {
  }

  lemma {:induction false} MemberOfTwo(a: Member, b: Member, n: Name)
    ensures MemberOf([a, b], n) ==
            if a.name == n then Some(a.value) else if b.name == n then Some(b.value) else None
  {
    MemberFirst(a, [b], n);
    MemberOfOne(b, n);
    assert [a] + [b] == [a, b];
  }

  function Inner(c: Claim, alg: int): Option<Json> {
    Dot(Some(EvidenceOf(c, alg)), Other(Ascii("evidence")))
  }

  lemma {:induction false} EvidenceParts(c: Claim, alg: int)
    ensures Dot(Inner(c, alg), Other(Ascii("index"))) == Some(Number(c.index))
    ensures Dot(Inner(c, alg), Other(Ascii("digest"))) ==
            if c.Digest? then Some(List([Number(alg), Str(Hex(c.value))])) else None
    ensures Dot(Inner(c, alg), Other(Ascii("svn"))) == if c.Version? then Some(Number(c.svn)) else None
  {
    hide Ascii, Hex, MemberOf;
    NamesDiffer();
    var e := EvidenceOf(c, alg);
    var inner := e.members[0].value;
    MemberOfOne(e.members[0], EVIDENCE);
    assert Inner(c, alg) == Some(inner);
    MemberOfTwo(inner.members[0], inner.members[1], INDEX);
    MemberOfTwo(inner.members[0], inner.members[1], DIGEST);
    MemberOfTwo(inner.members[0], inner.members[1], SVN);
    assert inner.members == [inner.members[0], inner.members[1]];
    assert Dot(Some(inner), INDEX) == Some(Number(c.index));
    assert Dot(Some(inner), DIGEST) == if c.Digest? then Some(List([Number(alg), Str(Hex(c.value))])) else None;
    assert Dot(Some(inner), SVN) == if c.Version? then Some(Number(c.svn)) else None;
  }

  /** One piece of evidence is one row, of the claim it was made of. */
  lemma {:induction false} EvidenceReads(c: Claim, alg: int)
    ensures EvDigest(EvidenceOf(c, alg)) ==
            if c.Digest? && HashAlgName(Number(alg)).Some?
            then [DigestRow(c.index, HashAlgName(Number(alg)).value, Hex(c.value))] else []
    ensures EvSvn(EvidenceOf(c, alg)) == if c.Version? then [SvnRow(c.index, c.svn)] else []
  {
    hide Ascii, Hex, HashAlgName, Dot, EvidenceOf;
    EvidenceParts(c, alg);
    var digest := Dot(Inner(c, alg), Other(Ascii("digest")));
    assert Nth(digest, 0) == if c.Digest? then Some(Number(alg)) else None;
    assert Nth(digest, 1) == if c.Digest? then Some(Str(Hex(c.value))) else None;
  }

  lemma {:induction false} EnvironmentReads(index: byte)
    ensures Dot(Dot(Some(EnvironmentOf(index)), COMID_CLASS), COMID_INDEX) == Some(Number(index))
  {
    hide Ascii, MemberOf;
    var env := EnvironmentOf(index);
    MemberOfOne(env.members[0], COMID_CLASS);
    var about := env.members[0].value.members;
    MemberFirst(about[0], about[1..], COMID_INDEX);
    MemberFirst(about[1], about[2..], COMID_INDEX);
    MemberFirst(about[2], about[3..], COMID_INDEX);
    MemberFirst(about[3], about[4..], COMID_INDEX);
    MemberOfOne(about[4], COMID_INDEX);
    assert about == [about[0]] + about[1..] && about[1..] == [about[1]] + about[2..];
    assert about[2..] == [about[2]] + about[3..] && about[3..] == [about[3]] + about[4..] && about[4..] == [about[4]];
  }

  /** One triple is one row too. */
  lemma {:induction false} TripleReads(c: Claim, alg: Json)
    ensures RefDigest(TripleOf(c, alg)) == if c.Digest? then [DigestRow(c.index, alg, Hex(c.value))] else []
    ensures RefSvn(TripleOf(c, alg)) == if c.Version? then [SvnRow(c.index, c.svn)] else []
  {
    hide Hex, Ascii, MemberOf, EnvironmentOf;
    EnvironmentReads(c.index);
    var m := MeasurementOf(c, alg);
    MemberOfOne(m.members[0], COMID_MVAL);
    var said := m.members[0].value;
    assert Dot(Some(m), COMID_MVAL) == Some(said);
    MemberOfOne(said.members[0], COMID_DIGESTS);
    MemberOfOne(said.members[0], COMID_SVN);
    assert Nth(Some(TripleOf(c, alg)), 0) == Some(EnvironmentOf(c.index));
    assert Nth(Some(TripleOf(c, alg)), 1) == Some(m);
  }

  // ---- the rows of a list of claims ---------------------------------------------------------------

  /** The measurement hashes the policy has a name for. */
  predicate Known(alg: int) {
    alg == 1 || alg == 7 || alg == 8
  }

  lemma {:induction false} HashNames(alg: int)
    ensures HashAlgName(Number(alg)) == if Known(alg) then Some(HashName(alg)) else None
  {
  }

  lemma {:induction false} EvidenceRows(cs: seq<Claim>, alg: int)
    ensures Rows(Evidences(cs, alg), EvDigest) == if Known(alg) then DigestsOf(cs, HashName(alg)) else []
    ensures Rows(Evidences(cs, alg), EvSvn) == VersionsOf(cs)
  {
    hide EvDigest, EvSvn, EvidenceOf, HashName, HashAlgName, Hex;
    var es := Evidences(cs, alg);
    if cs != [] {
      EvidenceRows(cs[1..], alg);
      EvidenceReads(cs[0], alg);
      HashNames(alg);
      assert es[1..] == Evidences(cs[1..], alg);
    }
  }

  lemma {:induction false} TripleRows(cs: seq<Claim>, alg: Json)
    ensures Rows(TriplesOf(cs, alg), RefDigest) == DigestsOf(cs, alg)
    ensures Rows(TriplesOf(cs, alg), RefSvn) == VersionsOf(cs)
  {
    hide RefDigest, RefSvn, TripleOf, Hex;
    var ts := TriplesOf(cs, alg);
    if cs != [] {
      TripleRows(cs[1..], alg);
      TripleReads(cs[0], alg);
      assert ts[1..] == TriplesOf(cs[1..], alg);
    }
  }

  lemma {:induction false} EvidenceFound(cs: seq<Claim>, alg: int)
    ensures EvidenceArr(EvidenceDoc(cs, alg)) == Evidences(cs, alg)
  {
    hide Ascii, MemberOf, Evidences;
    NamesDiffer();
    MemberOfOne(EvidenceDoc(cs, alg).members[0], EVIDENCES);
  }

  lemma {:induction false} TriplesFound(cs: seq<Claim>, alg: int, corimId: seq<byte>, tagId: seq<byte>)
    ensures ReferenceArr(ReferenceDoc(cs, alg, corimId, tagId)) == TriplesOf(cs, HashName(alg))
  {
    hide Ascii, MemberOf, TriplesOf, HashName;
    var doc := ReferenceDoc(cs, alg, corimId, tagId);
    MemberOfOne(doc.members[0], CORIM);
    var boxed := doc.members[0].value;
    MemberOfOne(boxed.members[0], UNSIGNED_CORIM_MAP);
    var named := boxed.members[0].value;
    MemberOfTwo(named.members[0], named.members[1], CORIM_TAGS);
    assert Dot(Dot(Dot(Some(doc), CORIM), UNSIGNED_CORIM_MAP), CORIM_TAGS) == Some(named.members[1].value);
    var tag := named.members[1].value.items[0];
    MemberFirst(tag.members[0], tag.members[1..], COMID_TRIPLES);
    MemberOfTwo(tag.members[1], tag.members[2], COMID_TRIPLES);
    assert tag.members[1..] == [tag.members[1], tag.members[2]] && tag.members == [tag.members[0]] + tag.members[1..];
    MemberOfOne(tag.members[2].value.members[0], COMID_REFERENCE_TRIPLES);
  }

  lemma {:induction false} DigestIn(cs: seq<Claim>, alg: Json, c: Claim)
    requires c.Digest?
    ensures c in cs <==> DigestRowFor(c, alg) in DigestsOf(cs, alg)
  {
    hide Hex;
    if cs != [] {
      DigestIn(cs[1..], alg, c);
      assert cs == [cs[0]] + cs[1..];
      if cs[0].Digest? && DigestRowFor(cs[0], alg) == DigestRowFor(c, alg) {
        HexInjective(cs[0].value, c.value);
      }
    }
  }

  lemma {:induction false} DigestFrom(cs: seq<Claim>, alg: Json, r: DigestRow)
    requires r in DigestsOf(cs, alg)
    ensures exists c :: c in cs && c.Digest? && r == DigestRowFor(c, alg)
  {
    hide Hex;
    if cs[0].Digest? && r == DigestRowFor(cs[0], alg) {
    } else {
      DigestFrom(cs[1..], alg, r);
    }
  }

  lemma {:induction false} VersionIn(cs: seq<Claim>, index: byte, svn: nat)
    ensures Version(index, svn) in cs <==> SvnRow(index, svn) in VersionsOf(cs)
  {
    if cs != [] {
      VersionIn(cs[1..], index, svn);
      assert cs == [cs[0]] + cs[1..];
    }
  }

  lemma {:induction false} VersionFrom(cs: seq<Claim>, r: SvnRow)
    requires r in VersionsOf(cs)
    ensures exists c :: c in cs && c.Version? && r == SvnRow(c.index, c.svn)
  {
    if cs[0].Version? && r == SvnRow(cs[0].index, cs[0].svn) {
    } else {
      VersionFrom(cs[1..], r);
    }
  }

  // ---- what the policy decides ------------------------------------------------------------------------

  /** Two different digests, or two different versions, of one index. */
  ghost predicate Clash(cs: seq<Claim>) {
    exists c, d :: c in cs && d in cs && c.Digest? == d.Digest? && c.index == d.index && c != d
  }

  /** The reference has digests and the evidence has the same. */
  ghost predicate SameDigests(a: seq<Claim>, b: seq<Claim>) {
    (exists c :: c in b && c.Digest?) && forall c: Claim :: c.Digest? ==> (c in a <==> c in b)
  }

  ghost predicate Reached(a: seq<Claim>, c: Claim)
    requires c.Version?
  {
    exists d :: d in a && d.Version? && d.index == c.index && c.svn <= d.svn
  }

  ghost predicate Listed(b: seq<Claim>, index: byte) {
    exists c :: c in b && c.Version? && c.index == index
  }

  /** The reference has versions; the evidence has versions of the same indices, none of them lower. */
  ghost predicate Floors(a: seq<Claim>, b: seq<Claim>) {
    && (exists c :: c in b && c.Version?)
    && (forall c :: c in b && c.Version? ==> Reached(a, c))
    && (forall d :: d in a && d.Version? ==> Listed(b, d.index))
  }

  lemma {:induction false} DigestsClash(cs: seq<Claim>, alg: Json)
    ensures DigestConflict(DigestsOf(cs, alg)) <==>
              exists c, d :: c in cs && d in cs && c.Digest? && d.Digest? && c.index == d.index && c != d
  {
    hide Hex, DigestsOf;
    var rows := DigestsOf(cs, alg);
    if DigestConflict(rows) {
      var r, s :| r in rows && s in rows && r.index == s.index && r != s;
      DigestFrom(cs, alg, r);
      DigestFrom(cs, alg, s);
    }
    if c, d: Claim :| c in cs && d in cs && c.Digest? && d.Digest? && c.index == d.index && c != d {
      DigestIn(cs, alg, c);
      DigestIn(cs, alg, d);
      if DigestRowFor(c, alg) == DigestRowFor(d, alg) {
        HexInjective(c.value, d.value);
      }
    }
  }

  lemma {:induction false} VersionsClash(cs: seq<Claim>)
    ensures SvnConflict(VersionsOf(cs)) <==>
              exists c, d :: c in cs && d in cs && c.Version? && d.Version? && c.index == d.index && c != d
  {
    hide VersionsOf;
    var rows := VersionsOf(cs);
    if SvnConflict(rows) {
      var r, s :| r in rows && s in rows && r.index == s.index && r != s;
      VersionFrom(cs, r);
      VersionFrom(cs, s);
    }
    if c, d: Claim :| c in cs && d in cs && c.Version? && d.Version? && c.index == d.index && c != d {
      VersionIn(cs, c.index, c.svn);
      VersionIn(cs, d.index, d.svn);
    }
  }

  /** Rows of claims that do not clash pass the check of hashes exactly when the digests are the same. */
  lemma {:induction false} HashesAgree(i: Input, a: seq<Claim>, b: seq<Claim>, alg: Json)
    requires i.evDigests == DigestsOf(a, alg) && i.refDigests == DigestsOf(b, alg)
    requires !DigestConflict(i.evDigests) && !DigestConflict(i.refDigests)
    ensures HashCheck(i) <==> SameDigests(a, b)
    ensures HashCheck(i) ==> i.refDigests != []
  {
    hide Hex, DigestsOf;
    if HashCheck(i) {
      DigestFrom(b, alg, i.refDigests[0]);
      forall c: Claim | c.Digest?
        ensures c in a <==> c in b
      {
        SameRow(i, a, b, alg, c);
      }
    }
    if SameDigests(a, b) {
      var c: Claim :| c in b && c.Digest?;
      DigestIn(b, alg, c);
      forall r: DigestRow
        ensures r in i.refDigests <==> r in i.evDigests
      {
        SameDigest(a, b, alg, r);
        SameDigest(b, a, alg, r);
      }
    }
  }

  lemma {:induction false} SameRow(i: Input, a: seq<Claim>, b: seq<Claim>, alg: Json, c: Claim)
    requires i.evDigests == DigestsOf(a, alg) && i.refDigests == DigestsOf(b, alg) && HashCheck(i) && c.Digest?
    ensures c in a <==> c in b
  {
    hide Hex, DigestsOf;
    var r := DigestRowFor(c, alg);
    DigestIn(a, alg, c);
    DigestIn(b, alg, c);
    if r in i.evDigests {
      var s: DigestRow :| s in i.refDigests && s.index == r.index;
      DigestFrom(b, alg, s);
      assert s == r;
    }
    if r in i.refDigests {
      var s: DigestRow :| s in i.evDigests && s.index == r.index;
      DigestFrom(a, alg, s);
      assert s == r;
    }
  }

  lemma {:induction false} SameDigest(a: seq<Claim>, b: seq<Claim>, alg: Json, r: DigestRow)
    requires forall c: Claim :: c.Digest? && c in a ==> c in b
    ensures r in DigestsOf(a, alg) ==> r in DigestsOf(b, alg)
  {
    hide Hex, DigestsOf;
    if r in DigestsOf(a, alg) {
      DigestFrom(a, alg, r);
      var c: Claim :| c in a && c.Digest? && r == DigestRowFor(c, alg);
      DigestIn(b, alg, c);
    }
  }

  /** And the check of versions exactly when each reaches the reference's and none is extra or missing. */
  lemma {:induction false} VersionsReach(i: Input, a: seq<Claim>, b: seq<Claim>)
    requires i.evSvns == VersionsOf(a) && i.refSvns == VersionsOf(b)
    requires !SvnConflict(i.evSvns) && !SvnConflict(i.refSvns)
    ensures SvnCheck(i) <==> Floors(a, b)
  {
    hide VersionsOf, Floors, SvnCheck;
    if SvnCheck(i) {
      FloorsReached(i, a, b);
    }
    if Floors(a, b) {
      ReachesFloors(i, a, b);
    }
  }

  lemma {:induction false} FloorsReached(i: Input, a: seq<Claim>, b: seq<Claim>)
    requires i.evSvns == VersionsOf(a) && i.refSvns == VersionsOf(b) && SvnCheck(i)
    ensures Floors(a, b)
  {
    hide VersionsOf;
    VersionFrom(b, i.refSvns[0]);
    forall c: Claim | c in b && c.Version?
      ensures Reached(a, c)
    {
      VersionIn(b, c.index, c.svn);
      var e: SvnRow :| e in i.evSvns && e.index == c.index;
      VersionFrom(a, e);
    }
    forall d: Claim | d in a && d.Version?
      ensures Listed(b, d.index)
    {
      VersionIn(a, d.index, d.svn);
      var r: SvnRow :| r in i.refSvns && r.index == d.index;
      VersionFrom(b, r);
    }
  }

  lemma {:induction false} FloorRow(a: seq<Claim>, b: seq<Claim>, r: SvnRow) returns (e: SvnRow)
    requires r in VersionsOf(b) && Floors(a, b)
    ensures e in VersionsOf(a) && e.index == r.index && r.svn <= e.svn
  {
    hide VersionsOf;
    VersionFrom(b, r);
    var c: Claim :| c in b && c.Version? && r == SvnRow(c.index, c.svn);
    var d: Claim :| d in a && d.Version? && d.index == c.index && c.svn <= d.svn;
    VersionIn(a, d.index, d.svn);
    e := SvnRow(d.index, d.svn);
  }

  lemma {:induction false} NamedRow(a: seq<Claim>, b: seq<Claim>, e: SvnRow) returns (r: SvnRow)
    requires e in VersionsOf(a) && Floors(a, b)
    ensures r in VersionsOf(b) && r.index == e.index
  {
    hide VersionsOf;
    VersionFrom(a, e);
    var d: Claim :| d in a && d.Version? && e == SvnRow(d.index, d.svn);
    var c: Claim :| c in b && c.Version? && c.index == d.index;
    VersionIn(b, c.index, c.svn);
    r := SvnRow(c.index, c.svn);
  }

  lemma {:induction false} FirstVersion(a: seq<Claim>, b: seq<Claim>)
    requires Floors(a, b)
    ensures VersionsOf(b) != []
  {
    hide VersionsOf;
    var some: Claim :| some in b && some.Version?;
    VersionIn(b, some.index, some.svn);
  }

  lemma {:induction false} ReachesFloors(i: Input, a: seq<Claim>, b: seq<Claim>)
    requires i.evSvns == VersionsOf(a) && i.refSvns == VersionsOf(b)
    requires !SvnConflict(i.evSvns) && Floors(a, b)
    ensures SvnCheck(i)
  {
    hide VersionsOf, Floors;
    FirstVersion(a, b);
    forall r: SvnRow | r in i.refSvns
      ensures exists e :: e in i.evSvns && e.index == r.index
      ensures forall e :: e in i.evSvns && e.index == r.index ==> r.svn <= e.svn
    {
      var e := FloorRow(a, b, r);
      forall f: SvnRow | f in i.evSvns && f.index == r.index
        ensures f == e
      {
      }
    }
    forall e: SvnRow | e in i.evSvns
      ensures exists r :: r in i.refSvns && r.index == e.index
    {
      var r := NamedRow(a, b, e);
    }
  }

  lemma {:induction false} ClashesShow(cs: seq<Claim>, alg: Json)
    ensures Clash(cs) <==> DigestConflict(DigestsOf(cs, alg)) || SvnConflict(VersionsOf(cs))
  {
    hide DigestConflict, SvnConflict, DigestsOf, VersionsOf;
    DigestsClash(cs, alg);
    VersionsClash(cs);
  }

  lemma {:induction false} UnknownFails(i: Input)
    requires i.evDigests == []
    ensures !HashCheck(i) && !DigestConflict(i.evDigests)
  {
    assert i.refDigests != [] ==> i.refDigests[0] in i.refDigests;
  }

  /** The verdict over two lists of claims. With clashes nothing is decided; without, it is "pass"
      exactly when the reference says something of either kind and the evidence meets it. */
  lemma {:induction false} AppraisesExactly(a: seq<Claim>, b: seq<Claim>, alg: int, corimId: seq<byte>,
                                            tagId: seq<byte>)
    ensures var i := InputOf(EvidenceDoc(a, alg), ReferenceDoc(b, alg, corimId, tagId));
            && (Known(alg) ==> (Undecided(i) <==> Clash(a) || Clash(b)))
            && (!Clash(a) && !Clash(b) ==> !Undecided(i))
            && (!Undecided(i) ==> (Passes(i) <==> Known(alg) && SameDigests(a, b) && Floors(a, b)))
  {
    hide Hex, HashName, Rows, DigestsOf, VersionsOf, EvidenceDoc, ReferenceDoc, EvidenceArr, ReferenceArr, HashCheck,
         SvnCheck, DigestConflict, SvnConflict, SameDigests, Floors, Clash;
    EvidenceFound(a, alg);
    TriplesFound(b, alg, corimId, tagId);
    EvidenceRows(a, alg);
    TripleRows(b, HashName(alg));
    ClashesShow(a, HashName(alg));
    ClashesShow(b, HashName(alg));
    var i := InputOf(EvidenceDoc(a, alg), ReferenceDoc(b, alg, corimId, tagId));
    if !Known(alg) {
      UnknownFails(i);
    }
    if !Undecided(i) {
      VersionsReach(i, a, b);
      if Known(alg) {
        HashesAgree(i, a, b, HashName(alg));
      }
    }
  }

  // ---- verdicts over records ----------------------------------------------------------------------------

  /** A record never makes two claims about one index: repetitions were settled before. */
  lemma {:induction false} ClaimsNeverClash(walked: seq<Records.Entry>)
    ensures !Clash(ClaimsFrom(walked, 0))
  {
    hide ClaimOf, Stored, ClaimsFrom;
    forall c, d: Claim | c in ClaimsFrom(walked, 0) && d in ClaimsFrom(walked, 0) && c.index == d.index
      ensures c == d
    {
      var i := Repeats.SaidSomewhere(walked, 0, c);
      var j := Repeats.SaidSomewhere(walked, 0, d);
      Repeats.ClaimKeepsIndex(Stored(walked, walked[i].index));
      Repeats.ClaimKeepsIndex(Stored(walked, walked[j].index));
    }
  }

  /** The verdict on what one record says against what another says: always decided, and "pass"
      exactly when the hash is a known one, both say the same digests, and the first says a
      version for the same indices as the second, none of them lower. */
  lemma {:induction false} VerdictExactly(v: seq<Records.Entry>, w: seq<Records.Entry>, alg: int,
                                          corimId: seq<byte>, tagId: seq<byte>)
    ensures var (a, b) := (ClaimsFrom(v, 0), ClaimsFrom(w, 0));
            var i := InputOf(EvidenceDoc(a, alg), ReferenceDoc(b, alg, corimId, tagId));
            !Undecided(i) && (Passes(i) <==> Known(alg) && SameDigests(a, b) && Floors(a, b))
  {
    hide ClaimsFrom, Clash, InputOf, Undecided, Passes, SameDigests, Floors;
    ClaimsNeverClash(v);
    ClaimsNeverClash(w);
    AppraisesExactly(ClaimsFrom(v, 0), ClaimsFrom(w, 0), alg, corimId, tagId);
  }

  lemma {:induction false} MeetsItself(cs: seq<Claim>)
    ensures SameDigests(cs, cs) <==> exists c :: c in cs && c.Digest?
    ensures Floors(cs, cs) <==> exists c :: c in cs && c.Version?
  {
  }

  /** A record passes against the reference made of itself exactly when it says a digest and a version. */
  lemma {:induction false} OwnReferencePassesExactly(walked: seq<Records.Entry>, alg: int, corimId: seq<byte>,
                                                     tagId: seq<byte>)
    ensures var cs := ClaimsFrom(walked, 0);
            Passes(InputOf(EvidenceDoc(cs, alg), ReferenceDoc(cs, alg, corimId, tagId))) <==>
              Known(alg) && (exists c :: c in cs && c.Digest?) && (exists c :: c in cs && c.Version?)
  {
    hide ClaimsFrom, InputOf, Undecided, Passes, SameDigests, Floors;
    VerdictExactly(walked, walked, alg, corimId, tagId);
    MeetsItself(ClaimsFrom(walked, 0));
  }

  /** Passing is transitive: what meets a reference meets every reference that one met. */
  lemma {:induction false} PassingChains(u: seq<Records.Entry>, v: seq<Records.Entry>, w: seq<Records.Entry>, alg: int,
                                         corimId: seq<byte>, tagId: seq<byte>)
    requires Passes(InputOf(EvidenceDoc(ClaimsFrom(u, 0), alg), ReferenceDoc(ClaimsFrom(v, 0), alg, corimId, tagId)))
    requires Passes(InputOf(EvidenceDoc(ClaimsFrom(v, 0), alg), ReferenceDoc(ClaimsFrom(w, 0), alg, corimId, tagId)))
    ensures Passes(InputOf(EvidenceDoc(ClaimsFrom(u, 0), alg), ReferenceDoc(ClaimsFrom(w, 0), alg, corimId, tagId)))
  {
    hide ClaimsFrom, InputOf, Passes, Clash, SameDigests, Floors, Undecided;
    VerdictExactly(u, v, alg, corimId, tagId);
    VerdictExactly(v, w, alg, corimId, tagId);
    VerdictExactly(u, w, alg, corimId, tagId);
    ClaimsChain(ClaimsFrom(u, 0), ClaimsFrom(v, 0), ClaimsFrom(w, 0));
  }

  lemma {:induction false} ClaimsChain(a: seq<Claim>, b: seq<Claim>, c: seq<Claim>)
    requires SameDigests(a, b) && Floors(a, b) && SameDigests(b, c) && Floors(b, c)
    ensures SameDigests(a, c) && Floors(a, c)
  {
    hide Reached, Listed;
    forall x: Claim | x in c && x.Version?
      ensures Reached(a, x)
    {
      ReachedThrough(a, b, x);
    }
    forall x: Claim | x in a && x.Version?
      ensures Listed(c, x.index)
    {
      ListedThrough(b, c, x.index);
    }
  }

  lemma {:induction false} ReachedThrough(a: seq<Claim>, b: seq<Claim>, x: Claim)
    requires Floors(a, b) && x.Version? && Reached(b, x)
    ensures Reached(a, x)
  {
    var d: Claim :| d in b && d.Version? && d.index == x.index && x.svn <= d.svn;
    assert Reached(a, d);
  }

  lemma {:induction false} ListedThrough(b: seq<Claim>, c: seq<Claim>, index: byte)
    requires Floors(b, c) && Listed(b, index)
    ensures Listed(c, index)
  {
    var d: Claim :| d in b && d.Version? && d.index == index;
    assert Listed(c, d.index);
  }

  /** From records to verdict: the reference made of one record's walk, encoded, decoded and laid
      beside the evidence of another's. */
  lemma {:induction false} AppraisalOfRecords(v: Records.Walk, raw: seq<byte>, offset: nat, length: nat,
                                              declared: Option<nat>, alg: int, corimId: seq<byte>, tagId: seq<byte>)
    requires Records.FieldsSpec(raw, offset, length, declared).Closes() && length < Cbor.LIMIT
    requires -Cbor.LIMIT <= alg < Cbor.LIMIT
    requires Cbor.ValidUtf8(corimId) && |corimId| < Cbor.LIMIT && Cbor.ValidUtf8(tagId) && |tagId| < Cbor.LIMIT
    ensures var b := ClaimsFrom(Records.FieldsSpec(raw, offset, length, declared).walked, 0);
            var a, doc := ClaimsFrom(v.walked, 0), JsonToCbor(Reference(b, alg, corimId, tagId));
            && doc.Ok? && CborToJson(doc.value).Ok?
            && var i := InputOf(EvidenceDoc(a, alg), CborToJson(doc.value).value);
            && !Undecided(i) && (Passes(i) <==> Known(alg) && SameDigests(a, b) && Floors(a, b))
  {
    hide ClaimsFrom, InputOf, Undecided, Passes, SameDigests, Floors, Reference, Named, CborToJson, JsonToCbor,
         Cbor.ValidUtf8, EvidenceDoc, Records.FieldsSpec, Known;
    EveryReferenceSurvives(raw, offset, length, declared, alg, corimId, tagId);
    VerdictExactly(v.walked, Records.FieldsSpec(raw, offset, length, declared).walked, alg, corimId, tagId);
  }

  const DIGEST_AA := [1, 1, 4, 0, 0, 1, 0, 0xAA]
  const DIGEST_BB := [1, 1, 4, 0, 0, 1, 0, 0xBB]
  const VERSION_7 := [16, 1, 11, 0, 0x87, 8, 0, 7, 0, 0, 0, 0, 0, 0, 0]

  lemma {:induction false} LastBlock(raw: seq<byte>, off: nat, declared: nat, w: Records.Walk)
    requires off <= |raw| && raw[off..] == VERSION_7 && w.why.None? && declared == |w.walked| + 1
    ensures Records.FieldsFrom(raw, off, |raw|, Some(declared), w) ==
            Records.Walk(w.walked + [Records.Entry(16, 1, 11, 0x87, VERSION_7[7..])], Some(7), None)
  {
    hide LE;
    var v := VERSION_7;
    assert forall i :: 0 <= i < 15 ==> raw[off + i] == v[i];
    assert raw[off + 7..off + 15] == v[7..];
    SevenIsSeven();
  }

  lemma {:induction false} SevenIsSeven()
    ensures LE(VERSION_7[7..]) == 7
  {
    var z := VERSION_7[7..];
    assert LE(z[8..]) == 0 && LE(z[7..]) == 0 && LE(z[6..]) == 0 && LE(z[5..]) == 0 && LE(z[4..]) == 0;
    assert LE(z[3..]) == 0 && LE(z[2..]) == 0 && LE(z[1..]) == 0;
  }

  lemma {:induction false} DigestBlock(raw: seq<byte>, off: nat, declared: nat, x: byte, w: Records.Walk)
    requires off + 8 <= |raw| && raw[off..off + 8] == [1, 1, 4, 0, 0, 1, 0, x]
    ensures Records.FieldsFrom(raw, off, |raw|, Some(declared), w) ==
            Records.FieldsFrom(raw, off + 8, |raw|, Some(declared),
                               Records.Walk(w.walked + [Records.Entry(1, 1, 4, 0, [x])], w.svn, None))
  {
    hide LE;
    var b := raw[off..off + 8];
    assert forall i :: 0 <= i < 8 ==> raw[off + i] == b[i];
    assert raw[off + 7..off + 8] == [x];
  }

  lemma {:induction false} TheirClaims(walked: seq<Records.Entry>, x: byte, y: byte)
    requires walked == [Records.Entry(1, 1, 4, 0, [x]), Records.Entry(1, 1, 4, 0, [y]),
                        Records.Entry(16, 1, 11, 0x87, VERSION_7[7..])]
    ensures ClaimsFrom(walked, 0) == [Digest(1, [y]), Digest(1, [y]), Version(16, 7)]
  {
    SevenIsSeven();
    assert Stored(walked, 16) == walked[2] && walked[..2][1] == walked[1];
    assert Stored(walked, 1) == walked[1];
    var d, v := Digest(1, [y]), Version(16, 7);
    assert ClaimsFrom(walked, 3) == [] && ClaimsFrom(walked, 2) == [v];
    assert ClaimsFrom(walked, 1) == [d] + [v] && ClaimsFrom(walked, 0) == [d] + ([d] + [v]);
  }

  /** Two different digests under index 1: the record closes, and it passes against the reference
      of a device that has the second digest in both places. */
  lemma {:induction false} ARepeatedIndexPasses(alg: int, corimId: seq<byte>, tagId: seq<byte>)
    requires Known(alg)
    ensures var (one, two) := (DIGEST_AA + DIGEST_BB + VERSION_7, DIGEST_BB + DIGEST_BB + VERSION_7);
            var (v, w) := (Records.FieldsSpec(one, 0, |one|, Some(3)), Records.FieldsSpec(two, 0, |two|, Some(3)));
            && v.Closes() && w.Closes()
            && Passes(InputOf(EvidenceDoc(ClaimsFrom(v.walked, 0), alg),
                              ReferenceDoc(ClaimsFrom(w.walked, 0), alg, corimId, tagId)))
  {
    hide InputOf, Undecided, Passes, ClaimsFrom, Stored, LE, Records.FieldsFrom;
    forall x: byte | x == 0xAA || x == 0xBB
      ensures var raw := [1, 1, 4, 0, 0, 1, 0, x] + DIGEST_BB + VERSION_7;
              var w := Records.FieldsSpec(raw, 0, |raw|, Some(3));
              w.Closes() && ClaimsFrom(w.walked, 0) == [Digest(1, [0xBB]), Digest(1, [0xBB]), Version(16, 7)]
    {
      SaysTheSame(x);
    }
    var cs := [Digest(1, [0xBB]), Digest(1, [0xBB]), Version(16, 7)];
    var (one, two) := (DIGEST_AA + DIGEST_BB + VERSION_7, DIGEST_BB + DIGEST_BB + VERSION_7);
    var (v, w) := (Records.FieldsSpec(one, 0, |one|, Some(3)), Records.FieldsSpec(two, 0, |two|, Some(3)));
    VerdictExactly(v.walked, w.walked, alg, corimId, tagId);
    assert cs[0] in cs && cs[2] in cs;
    MeetsItself(cs);
  }

  lemma {:induction false} SaysTheSame(x: byte)
    ensures var raw := [1, 1, 4, 0, 0, 1, 0, x] + DIGEST_BB + VERSION_7;
            var w := Records.FieldsSpec(raw, 0, |raw|, Some(3));
            w.Closes() && ClaimsFrom(w.walked, 0) == [Digest(1, [0xBB]), Digest(1, [0xBB]), Version(16, 7)]
  {
    hide Records.FieldsFrom, ClaimsFrom, LE;
    var raw: seq<byte> := [1, 1, 4, 0, 0, 1, 0, x] + DIGEST_BB + VERSION_7;
    assert raw[0..8] == [1, 1, 4, 0, 0, 1, 0, x] && raw[8..16] == DIGEST_BB && raw[16..] == VERSION_7;
    var a, b := Records.Entry(1, 1, 4, 0, [x]), Records.Entry(1, 1, 4, 0, [0xBB]);
    DigestBlock(raw, 0, 3, x, Records.Walk([], None, None));
    DigestBlock(raw, 8, 3, 0xBB, Records.Walk([a], None, None));
    LastBlock(raw, 16, 3, Records.Walk([a, b], None, None));
    assert [] + [a] == [a] && [a] + [b] == [a, b];
    TheirClaims([a, b] + [Records.Entry(16, 1, 11, 0x87, VERSION_7[7..])], x, 0xBB);
  }
}
