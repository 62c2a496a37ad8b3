/**
 rats/cose.py: COSE_Sign1 (RFC 8152, sections 4.2 and 4.4). OpenSSL stays abstract: a signer
 is any function from the bytes to be signed to a DER signature, a verifier any predicate
 on those bytes and a signature.
 */
module Cose {
  import opened Bytes
  import opened Cbor
  import opened CborRoundTrip
  import D = DerInteger

  const COSE_SIGN1_TAG := 18
  const CORIM_TAG := 500
  const SIGNED_CORIM_TAG := 502
  const HDR_ALG := Int(1)
  const ALG_ES256 := Int(-7)
  const HALF := 32

  /** "Signature1" */
  const CONTEXT: seq<byte> := [0x53, 0x69, 0x67, 0x6E, 0x61, 0x74, 0x75, 0x72, 0x65, 0x31]

  datatype Failure =
    | Encoding(cbor: Error)
    | Signing
    | Converting(der: D.Error)
    | NotSignedCorim | NotSign1 | NotFourItems | WrongFieldType | HeaderNotAMap
    | UnsupportedAlg | UnhashableAlg | WrongSignatureLength | Rejected

  datatype Outcome<+T> = Done(value: T) | Failed(why: Failure)

  /** `sig_structure`, with no external data. */
  function SigStructure(protected: seq<byte>, payload: seq<byte>): Result<seq<byte>> {
    Dumps(Array([Text(CONTEXT), ByteString(protected), ByteString([]), ByteString(payload)]))
  }

  function Message(protected: seq<byte>, payload: seq<byte>, signature: seq<byte>): Item {
    Tag(COSE_SIGN1_TAG, Array([ByteString(protected), Map([]), ByteString(payload), ByteString(signature)]))
  }

  /** `protected_map[HDR_ALG] = alg` on a copy of the caller's header. */
  function WithAlg(header: seq<Pair>): seq<Pair> {
    Put(header, HDR_ALG, ALG_ES256)
  }

  /** `sign1`; the signer answers None when openssl cannot sign. */
  function Sign1(payload: seq<byte>, header: seq<Pair>, signer: seq<byte> -> Option<seq<byte>>, corim: bool)
    : Outcome<seq<byte>>
  {
    var protected := Dumps(Map(WithAlg(header)));
    if protected.Err? then Failed(Encoding(protected.error))
    else
      var tbs := SigStructure(protected.value, payload);
      if tbs.Err? then Failed(Encoding(tbs.error))
      else
        var der := signer(tbs.value);
        if der.None? then Failed(Signing)
        else
          var raw := D.RawFromDer(der.value, HALF);
          if raw.Err? then Failed(Converting(raw.error))
          else
            var msg := Message(protected.value, payload, raw.value);
            var blob := Dumps(if corim then Tag(CORIM_TAG, Tag(SIGNED_CORIM_TAG, msg)) else msg);
            if blob.Err? then Failed(Encoding(blob.error)) else Done(blob.value)
  }

  datatype Parsed = Parsed(protected: seq<byte>, header: seq<Pair>, payload: seq<byte>, signature: seq<byte>)

  /** The two CoRIM containers taken off, when they are there. */
  function Unwrapped(item: Item): Outcome<Item> {
    if item.Tag? && item.tag == CORIM_TAG then
      if item.item.Tag? && item.item.tag == SIGNED_CORIM_TAG then Done(item.item.item) else Failed(NotSignedCorim)
    else Done(item)
  }

  /** `parse1` */
  function Parse1(blob: seq<byte>): Outcome<Parsed> {
    var item := Loads(blob, false);
    if item.Err? then Failed(Encoding(item.error))
    else
      var inner := Unwrapped(item.value);
      if inner.Failed? then Failed(inner.why)
      else if !inner.value.Tag? || inner.value.tag != COSE_SIGN1_TAG then Failed(NotSign1)
      else
        var body := inner.value.item;
        if !body.Array? || |body.items| != 4 then Failed(NotFourItems)
        else if !body.items[0].ByteString? || !body.items[2].ByteString? || !body.items[3].ByteString?
             || !body.items[1].Map? then Failed(WrongFieldType)
        else
          var protected := body.items[0].b;
          var header := if protected == [] then Ok(Map([])) else Loads(protected, false);
          if header.Err? then Failed(Encoding(header.error))
          else if !header.value.Map? then Failed(HeaderNotAMap)
          else Done(Parsed(protected, header.value.pairs, body.items[2].b, body.items[3].b))
  }

  /** `verify1` */
  function Verify1(blob: seq<byte>, verifier: (seq<byte>, seq<byte>) -> bool): Outcome<(seq<byte>, seq<Pair>)> {
    var parsed := Parse1(blob);
    if parsed.Failed? then Failed(parsed.why)
    else
      var p := parsed.value;
      var alg := Get(p.header, HDR_ALG);
      if alg.Some? && (alg.value.Array? || alg.value.Map? || alg.value.Tag?) then Failed(UnhashableAlg)
      else if alg != Some(ALG_ES256) then Failed(UnsupportedAlg)
      else if |p.signature| != 2 * HALF then Failed(WrongSignatureLength)
      else
        var tbs := SigStructure(p.protected, p.payload);
        if tbs.Err? then Failed(Encoding(tbs.error))
        else
          var der := D.RawToDer(p.signature);
          if der.Err? then Failed(Converting(der.error))
          else if verifier(tbs.value, der.value) then Done((p.payload, p.header))
          else Failed(Rejected)
  }

  // ---- round trip -----------------------------------------------------------------

  /** A signer that answers canonical DER for the curve, and a verifier that accepts what it
      signs: all that is assumed of OpenSSL. */
  ghost predicate Signs(signer: seq<byte> -> Option<seq<byte>>, verifier: (seq<byte>, seq<byte>) -> bool,
                        tbs: seq<byte>) {
    && signer(tbs).Some? && verifier(tbs, signer(tbs).value)
    && exists r, s :: D.Canonical(signer(tbs).value, r, s, HALF)
  }

  lemma {:induction false} FourEncodable(a: Item, b: Item, c: Item, d: Item)
    ensures Encodable(Array([a, b, c, d])) <==> Encodable(a) && Encodable(b) && Encodable(c) && Encodable(d)
  {
    var items := [a, b, c, d];
    assert items[1..] == [b, c, d] && items[2..] == [c, d] && items[3..] == [d];
    assert AllEncodable([d]) <==> Encodable(d) && AllEncodable([]);
    assert AllEncodable([c, d]) <==> Encodable(c) && AllEncodable([c, d][1..]);
    assert AllEncodable([b, c, d]) <==> Encodable(b) && AllEncodable([b, c, d][1..]);
    assert [c, d][1..] == [d] && [b, c, d][1..] == [c, d] && [d][1..] == [];
  }

  lemma {:induction false} SigStructureEncodes(protected: seq<byte>, payload: seq<byte>)
    ensures SigStructure(protected, payload).Ok? <==> |protected| < LIMIT && |payload| < LIMIT
  {
    hide ValidUtf8, Dictionary;
    AsciiIsUtf8(CONTEXT);
    FourEncodable(Text(CONTEXT), ByteString(protected), ByteString([]), ByteString(payload));
  }

  /** What is signed determines what was signed. */
  lemma {:induction false} SigStructureInjective(p: seq<byte>, q: seq<byte>, x: seq<byte>, y: seq<byte>)
    requires SigStructure(p, x).Ok? && SigStructure(p, x) == SigStructure(q, y)
    ensures p == q && x == y
  {
    hide Enc, Encodable;
    var v := [Text(CONTEXT), ByteString(p), ByteString([]), ByteString(x)];
    var w := [Text(CONTEXT), ByteString(q), ByteString([]), ByteString(y)];
    EncodingsArePrefixFree(Array(v), Array(w));
    assert v[1] == w[1] && v[3] == w[3];
  }

  lemma {:induction false} MessageEncodes(protected: seq<byte>, payload: seq<byte>, signature: seq<byte>, corim: bool)
    requires |protected| < LIMIT && |payload| < LIMIT && |signature| < LIMIT
    ensures var msg := Message(protected, payload, signature);
            && Encodable(msg) && Encodable(Tag(CORIM_TAG, Tag(SIGNED_CORIM_TAG, msg)))
  {
    FourEncodable(ByteString(protected), Map([]), ByteString(payload), ByteString(signature));
    hide ValidUtf8;
  }

  /** The header with the algorithm in it, as bytes that can be transmitted. */
  ghost predicate HeaderFits(header: seq<Pair>) {
    && Dictionary(header) && PairsEncodable(header)
    && Encodable(Map(WithAlg(header))) && |Enc(Map(WithAlg(header)))| < LIMIT
  }

  /** The protected bytes `sign1` makes of a header. */
  ghost function Protected(header: seq<Pair>): seq<byte>
    requires HeaderFits(header)
  {
    Enc(Map(WithAlg(header)))
  }

  /** The bytes it has signed for a header and a payload. */
  ghost function ToBeSigned(header: seq<Pair>, payload: seq<byte>): seq<byte>
    requires HeaderFits(header) && |payload| < LIMIT
  {
    SigStructureEncodes(Protected(header), payload);
    SigStructure(Protected(header), payload).value
  }

  /** Verification undoes signing: the payload and the header come back, the algorithm in it,
      for bare and CoRIM-wrapped messages alike. */
  lemma {:induction false} VerifyInvertsSign(payload: seq<byte>, header: seq<Pair>,
                                             signer: seq<byte> -> Option<seq<byte>>,
                                             verifier: (seq<byte>, seq<byte>) -> bool, corim: bool)
    requires HeaderFits(header) && |payload| < LIMIT
    requires Signs(signer, verifier, ToBeSigned(header, payload))
    ensures Sign1(payload, header, signer, corim).Done?
    ensures Verify1(Sign1(payload, header, signer, corim).value, verifier) == Done((payload, WithAlg(header)))
    ensures Get(WithAlg(header), HDR_ALG) == Some(ALG_ES256)
  {
    hide Enc, Encodable, Load, Put, Get, D.RawFromDer, D.RawToDer;
    var protected := Protected(header);
    SigStructureEncodes(protected, payload);
    var tbs := ToBeSigned(header, payload);
    var der := signer(tbs).value;
    var r, s :| D.Canonical(der, r, s, HALF);
    D.RawToDerInverts(der, r, s, HALF);
    var raw := D.RawFromDer(der, HALF).value;
    MessageEncodes(protected, payload, raw, corim);
    var msg := Message(protected, payload, raw);
    var item := if corim then Tag(CORIM_TAG, Tag(SIGNED_CORIM_TAG, msg)) else msg;
    LoadsInvertsDumps(item, []);
    LoadsInvertsDumps(Map(WithAlg(header)), []);
    GetAfterPut(header, HDR_ALG, ALG_ES256);
  }

  /** The key has signed only these pairs of protected bytes and payload, and no signature it
      has not made is accepted: what is assumed of ES256. */
  ghost predicate OnlySigned(verifier: (seq<byte>, seq<byte>) -> bool, signed: set<(seq<byte>, seq<byte>)>) {
    forall tbs, der :: verifier(tbs, der) ==> exists s :: s in signed && SigStructure(s.0, s.1) == Ok(tbs)
  }

  /** Nothing verifies that was not signed as it stands: the transmitted protected bytes and the
      returned payload are together one of the signed pairs, and the returned header is the one
      those bytes hold and names ES256. */
  lemma {:induction false} VerifiedWasSigned(blob: seq<byte>, verifier: (seq<byte>, seq<byte>) -> bool,
                                             signed: set<(seq<byte>, seq<byte>)>)
    requires OnlySigned(verifier, signed) && Verify1(blob, verifier).Done?
    ensures Parse1(blob).Done?
    ensures var p := Parse1(blob).value;
            && Verify1(blob, verifier).value == (p.payload, p.header) && (p.protected, p.payload) in signed
            && (if p.protected == [] then p.header == [] else Loads(p.protected, false) == Ok(Map(p.header)))
            && Get(p.header, HDR_ALG) == Some(ALG_ES256) && |p.signature| == 2 * HALF
            && SigStructure(p.protected, p.payload).Ok? && D.RawToDer(p.signature).Ok?
            && verifier(SigStructure(p.protected, p.payload).value, D.RawToDer(p.signature).value)
  {
    hide Loads, SigStructure, D.RawToDer, Get;
    var p := Parse1(blob).value;
    var tbs := SigStructure(p.protected, p.payload).value;
    assert verifier(tbs, D.RawToDer(p.signature).value);
    var s :| s in signed && SigStructure(s.0, s.1) == Ok(tbs);
    SigStructureInjective(s.0, p.protected, s.1, p.payload);
    assert s == (p.protected, p.payload);
  }

  /** The pairs `sign1` signs, for what its callers gave it. */
  ghost function SignedFor(asked: set<(seq<Pair>, seq<byte>)>): set<(seq<byte>, seq<byte>)>
    requires forall a :: a in asked ==> HeaderFits(a.0)
  {
    set a | a in asked :: (Protected(a.0), a.1)
  }

  /** What verifies was asked for: the payload and header returned are a payload that `sign1` was
      given and the header it was given with it, with the algorithm put in. */
  lemma {:induction false} VerifiedWasAsked(blob: seq<byte>, verifier: (seq<byte>, seq<byte>) -> bool,
                                            asked: set<(seq<Pair>, seq<byte>)>)
    requires forall a :: a in asked ==> HeaderFits(a.0)
    requires OnlySigned(verifier, SignedFor(asked)) && Verify1(blob, verifier).Done?
    ensures exists a :: a in asked && Verify1(blob, verifier).value == (a.1, WithAlg(a.0))
  {
    hide Loads, SigStructure, Verify1, Parse1, Enc, Encodable, Put;
    VerifiedWasSigned(blob, verifier, SignedFor(asked));
    var p := Parse1(blob).value;
    var a :| a in asked && (Protected(a.0), a.1) == (p.protected, p.payload);
    assert HeaderFits(a.0);
    LoadsInvertsDumps(Map(WithAlg(a.0)), []);
    assert p.protected + [] == p.protected;
  }
}
