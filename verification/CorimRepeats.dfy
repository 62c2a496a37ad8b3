/**
 rats/appraise.py and harness/fields.py: a record may repeat an index. `block_order` keeps
 the repetitions and the dict of blocks does not, so every repetition is reported as the last
 block with its index. When that still says what the blocks say, and a record where it does not.
 */
module CorimRepeats {
  import opened Bytes
  import opened CorimReference
  import Fields = Measurements
  import Records = RecordReaders

  /** The claims the blocks make themselves, from the `i`-th on. */
  function OwnClaimsFrom(walked: seq<Records.Entry>, i: nat): seq<Claim>
    requires i <= |walked|
    decreases |walked| - i
  {
    if i == |walked| then []
    else match ClaimOf(walked[i])
      case None => OwnClaimsFrom(walked, i + 1)
      case Some(c) => [c] + OwnClaimsFrom(walked, i + 1)
  }

  /** Any two blocks with one index make the same claim, or neither makes one. */
  ghost predicate OneClaimAnIndex(walked: seq<Records.Entry>) {
    forall i, j :: 0 <= i < |walked| && 0 <= j < |walked| && walked[i].index == walked[j].index ==>
      ClaimOf(walked[i]) == ClaimOf(walked[j])
  }

  function About(cs: seq<Claim>, x: byte): seq<Claim> {
    if cs == [] then [] else (if cs[0].index == x then [cs[0]] else []) + About(cs[1..], x)
  }

  function Count(walked: seq<Records.Entry>, i: nat, x: byte): nat
    requires i <= |walked|
    decreases |walked| - i
  {
    if i == |walked| then 0 else (if walked[i].index == x then 1 else 0) + Count(walked, i + 1, x)
  }

  lemma {:induction false} AboutCons(c: Claim, cs: seq<Claim>, x: byte)
    ensures About([c] + cs, x) == if c.index == x then [c] + About(cs, x) else About(cs, x)
  {
    assert ([c] + cs)[1..] == cs;
  }

  lemma {:induction false} ClaimKeepsIndex(b: Records.Entry)
    ensures ClaimOf(b).Some? ==> ClaimOf(b).value.index == b.index
  {
    hide LE;
  }

  /** `n` copies of the claim, if there is one. */
  ghost predicate Copies(cs: seq<Claim>, c: Option<Claim>, n: nat) {
    match c
    case None => cs == []
    case Some(d) => |cs| == n && forall k :: 0 <= k < n ==> cs[k] == d
  }

  /** What is reported under one index: its last block's claim, once for every block. */
  lemma {:induction false} ReportedAbout(walked: seq<Records.Entry>, i: nat, last: Records.Entry)
    requires i <= |walked| && last in walked && last == Stored(walked, last.index)
    ensures Copies(About(ClaimsFrom(walked, i), last.index), ClaimOf(last), Count(walked, i, last.index))
    decreases |walked| - i
  {
    hide Stored, ClaimOf, About;
    var x := last.index;
    if i == |walked| {
      assert About([], x) == [] by { NoClaims(x); }
    } else {
      ReportedAbout(walked, i + 1, last);
      var b := Stored(walked, walked[i].index);
      var rest := ClaimsFrom(walked, i + 1);
      ClaimKeepsIndex(b);
      if ClaimOf(b).Some? {
        AboutCons(ClaimOf(b).value, rest, x);
      }
    }
  }

  lemma {:induction false} NoClaims(x: byte)
    ensures About([], x) == []
  {
  }

  lemma {:induction false} OwnAtMost(walked: seq<Records.Entry>, i: nat, x: byte)
    requires i <= |walked|
    ensures |About(OwnClaimsFrom(walked, i), x)| <= Count(walked, i, x)
    decreases |walked| - i
  {
    hide ClaimOf, About;
    if i == |walked| {
      NoClaims(x);
    } else {
      OwnAtMost(walked, i + 1, x);
      ClaimKeepsIndex(walked[i]);
      if ClaimOf(walked[i]).Some? {
        AboutCons(ClaimOf(walked[i]).value, OwnClaimsFrom(walked, i + 1), x);
      }
    }
  }

  /** If the blocks' own claims under an index are such copies, every block there makes that claim. */
  lemma {:induction false} CopiesAreOwn(walked: seq<Records.Entry>, i: nat, x: byte, c: Option<Claim>)
    requires i <= |walked| && Copies(About(OwnClaimsFrom(walked, i), x), c, Count(walked, i, x))
    ensures forall j :: i <= j < |walked| && walked[j].index == x ==> ClaimOf(walked[j]) == c
    decreases |walked| - i
  {
    hide ClaimOf, About;
    if i < |walked| {
      var own, rest := ClaimOf(walked[i]), OwnClaimsFrom(walked, i + 1);
      ClaimKeepsIndex(walked[i]);
      OwnAtMost(walked, i + 1, x);
      if own.Some? {
        AboutCons(own.value, rest, x);
        assert own.value.index == x ==> About([own.value] + rest, x)[1..] == About(rest, x);
      }
      if walked[i].index == x {
        var all := About(OwnClaimsFrom(walked, i), x);
        assert own.Some? ==> all == [own.value] + About(rest, x) && all[0] == own.value;
        assert own.None? ==> all == About(rest, x);
        assert own == c;
      }
      assert Copies(About(rest, x), c, Count(walked, i + 1, x));
      CopiesAreOwn(walked, i + 1, x, c);
    }
  }

  lemma {:induction false} SameFrom(walked: seq<Records.Entry>, i: nat)
    requires i <= |walked| && OneClaimAnIndex(walked)
    ensures ClaimsFrom(walked, i) == OwnClaimsFrom(walked, i)
    decreases |walked| - i
  {
    hide Stored, ClaimOf;
    if i < |walked| {
      SameFrom(walked, i + 1);
      var b := Stored(walked, walked[i].index);
      var k :| 0 <= k < |walked| && walked[k] == b;
      assert ClaimOf(walked[i]) == ClaimOf(walked[k]);
    }
  }

  /** What is reported is what the blocks say exactly when blocks with one index agree. */
  lemma {:induction false} ReportedAreOwnExactly(walked: seq<Records.Entry>)
    ensures ClaimsFrom(walked, 0) == OwnClaimsFrom(walked, 0) <==> OneClaimAnIndex(walked)
  {
    hide ClaimOf, Stored, About, Copies;
    if OneClaimAnIndex(walked) {
      SameFrom(walked, 0);
    } else if ClaimsFrom(walked, 0) == OwnClaimsFrom(walked, 0) {
      var i, j :| 0 <= i < |walked| && 0 <= j < |walked| && walked[i].index == walked[j].index
                  && ClaimOf(walked[i]) != ClaimOf(walked[j]);
      var last := Stored(walked, walked[i].index);
      ReportedAbout(walked, 0, last);
      CopiesAreOwn(walked, 0, last.index, ClaimOf(last));
    }
  }

  /** And so for the two documents made of the claims. */
  lemma {:induction false} DocumentsTellExactly(walked: seq<Records.Entry>, alg: int, corimId: seq<byte>,
                                                tagId: seq<byte>)
    ensures var said, own := ClaimsFrom(walked, 0), OwnClaimsFrom(walked, 0);
            && (Evidences(said, alg) == Evidences(own, alg) <==> OneClaimAnIndex(walked))
            && (Reference(said, alg, corimId, tagId) == Reference(own, alg, corimId, tagId) <==>
                OneClaimAnIndex(walked))
  {
    hide EvidenceOf, TripleOf, ClaimOf, Stored, Reference;
    var said, own := ClaimsFrom(walked, 0), OwnClaimsFrom(walked, 0);
    ReportedAreOwnExactly(walked);
    SameEvidenceSameReference(said, own, alg, corimId, tagId);
    if Evidences(said, alg) == Evidences(own, alg) {
      forall k | 0 <= k < |said|
        ensures said[k] == own[k]
      {
        assert Evidences(said, alg)[k] == Evidences(own, alg)[k];
        ClaimsInjective(said[k], own[k], alg);
      }
      assert |said| == |own|;
      assert said == own;
    }
  }

  // ---- which blocks are heard ---------------------------------------------------------------

  /** No later block has its index. */
  ghost predicate IsLast(walked: seq<Records.Entry>, j: nat)
    requires j < |walked|
  {
    forall k :: j < k < |walked| ==> walked[k].index != walked[j].index
  }

  lemma {:induction false} StoredIsLast(walked: seq<Records.Entry>, index: byte) returns (j: nat)
    requires exists e :: e in walked && e.index == index
    ensures j < |walked| && walked[j].index == index && IsLast(walked, j) && Stored(walked, index) == walked[j]
    decreases |walked|
  {
    var n := |walked| - 1;
    if walked[n].index == index {
      j := n;
    } else {
      j := StoredIsLast(walked[..n], index);
      forall k | j < k < |walked|
        ensures walked[k].index != walked[j].index
      {
        assert k < n ==> walked[..n][k] == walked[k];
      }
    }
  }

  lemma {:induction false} StoredAtLast(walked: seq<Records.Entry>, j: nat)
    requires j < |walked| && IsLast(walked, j)
    ensures Stored(walked, walked[j].index) == walked[j]
  {
    assert walked[j] in walked;
    var k := StoredIsLast(walked, walked[j].index);
  }

  /** The claim reported at block `j`. */
  function SaidAt(walked: seq<Records.Entry>, j: nat): Option<Claim>
    requires j < |walked|
  {
    ClaimOf(Stored(walked, walked[j].index))
  }

  lemma {:induction false} SaidSomewhere(walked: seq<Records.Entry>, i: nat, c: Claim) returns (j: nat)
    requires i <= |walked| && c in ClaimsFrom(walked, i)
    ensures i <= j < |walked| && SaidAt(walked, j) == Some(c)
    decreases |walked| - i
  {
    hide Stored, ClaimOf;
    if SaidAt(walked, i) == Some(c) {
      j := i;
    } else {
      j := SaidSomewhere(walked, i + 1, c);
    }
  }

  lemma {:induction false} LostSomewhere(walked: seq<Records.Entry>, i: nat, x: byte) returns (j: nat)
    requires i <= |walked| && x in DroppedFrom(walked, i)
    ensures i <= j < |walked| && walked[j].index == x && SaidAt(walked, j).None?
    decreases |walked| - i
  {
    hide Stored, ClaimOf;
    if SaidAt(walked, i).None? && walked[i].index == x {
      j := i;
    } else {
      j := LostSomewhere(walked, i + 1, x);
    }
  }

  lemma {:induction false} EachIsHeard(walked: seq<Records.Entry>, i: nat, j: nat)
    requires i <= j < |walked|
    ensures match SaidAt(walked, j)
            case Some(c) => c in ClaimsFrom(walked, i)
            case None => walked[j].index in DroppedFrom(walked, i)
    decreases j - i
  {
    hide Stored, ClaimOf;
    if i < j {
      EachIsHeard(walked, i + 1, j);
    }
  }

  /** Heard are the last blocks of their indices and no others: a claim is reported exactly when
      one of them makes it, and an index is dropped exactly when its last block makes none. */
  lemma {:induction false} LastBlocksAreHeard(walked: seq<Records.Entry>, c: Claim, x: byte)
    ensures c in ClaimsFrom(walked, 0) <==>
              exists j :: 0 <= j < |walked| && IsLast(walked, j) && ClaimOf(walked[j]) == Some(c)
    ensures x in DroppedFrom(walked, 0) <==>
              exists j :: 0 <= j < |walked| && IsLast(walked, j) && walked[j].index == x && ClaimOf(walked[j]).None?
  {
    hide Stored, ClaimOf, IsLast, ClaimsFrom, DroppedFrom;
    forall j | 0 <= j < |walked| && IsLast(walked, j)
      ensures SaidAt(walked, j) == ClaimOf(walked[j])
      ensures match ClaimOf(walked[j])
              case Some(d) => d in ClaimsFrom(walked, 0)
              case None => walked[j].index in DroppedFrom(walked, 0)
    {
      StoredAtLast(walked, j);
      EachIsHeard(walked, 0, j);
    }
    if c in ClaimsFrom(walked, 0) {
      var j := SaidSomewhere(walked, 0, c);
      var k := StoredIsLast(walked, walked[j].index);
    }
    if x in DroppedFrom(walked, 0) {
      var j := LostSomewhere(walked, 0, x);
      var k := StoredIsLast(walked, x);
    }
  }

  /** A record of two digests under index 1 closes, and the first digest is in neither document. */
  lemma {:induction false} ARepeatedIndexHidesABlock()
    ensures var raw := [1, 1, 4, 0, 0, 1, 0, 0xAA, 1, 1, 4, 0, 0, 1, 0, 0xBB];
            var w := Records.FieldsSpec(raw, 0, 16, Some(2));
            && w.Closes() && OwnClaimsFrom(w.walked, 0) == [Digest(1, [0xAA]), Digest(1, [0xBB])]
            && ClaimsFrom(w.walked, 0) == [Digest(1, [0xBB]), Digest(1, [0xBB])] && DroppedFrom(w.walked, 0) == []
  {
    var raw: seq<byte> := [1, 1, 4, 0, 0, 1, 0, 0xAA, 1, 1, 4, 0, 0, 1, 0, 0xBB];
    var a, b := Records.Entry(1, 1, 4, 0, [0xAA]), Records.Entry(1, 1, 4, 0, [0xBB]);
    assert Fields.U16(raw, 2) == 4 && Fields.U16(raw, 5) == 1 && Fields.U16(raw, 10) == 4 && Fields.U16(raw, 13) == 1;
    assert raw[7..8] == [0xAA] && raw[15..16] == [0xBB];
    var none := Records.Walk([], None, None);
    var one, two := Records.Walk([a], None, None), Records.Walk([a, b], None, None);
    assert [] + [a] == [a] && [a] + [b] == [a, b];
    assert Records.FieldsFrom(raw, 16, 16, Some(2), two) == two;
    assert Records.FieldsFrom(raw, 8, 16, Some(2), one) == two;
    assert Records.FieldsFrom(raw, 0, 16, Some(2), none) == two;
    TwoDigests(two.walked);
  }

  lemma {:induction false} TwoDigests(walked: seq<Records.Entry>)
    requires walked == [Records.Entry(1, 1, 4, 0, [0xAA]), Records.Entry(1, 1, 4, 0, [0xBB])]
    ensures OwnClaimsFrom(walked, 0) == [Digest(1, [0xAA]), Digest(1, [0xBB])]
    ensures ClaimsFrom(walked, 0) == [Digest(1, [0xBB]), Digest(1, [0xBB])] && DroppedFrom(walked, 0) == []
  {
    var c, d := Digest(1, [0xAA]), Digest(1, [0xBB]);
    assert Stored(walked, 1) == walked[1];
    assert ClaimsFrom(walked, 2) == [] && ClaimsFrom(walked, 1) == [d] && ClaimsFrom(walked, 0) == [d] + [d];
    assert OwnClaimsFrom(walked, 2) == [] && OwnClaimsFrom(walked, 1) == [d] && OwnClaimsFrom(walked, 0) == [c] + [d];
    assert DroppedFrom(walked, 2) == [] && DroppedFrom(walked, 1) == [] && DroppedFrom(walked, 0) == [];
  }
}
