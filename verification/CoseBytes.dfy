/**
 rats/cose.py against RFC 8152 (sections 4.2 and 4.4): what stands in the bytes that are signed
 and in the message that is sent, in the standard's own numbers.
 */
module CoseBytes {
  import opened Bytes
  import opened Cbor
  import opened CborRoundTrip
  import opened Cose
  import D = DerInteger

  // ---- the bytes that are signed ----------------------------------------------------------

  /** The head of a byte string of `n` bytes. */
  function BytesHead(n: nat): seq<byte>
    requires n < LIMIT
  {
    if n < 24 then [0x40 + n]
    else if n < 0x100 then [0x58, n]
    else if n < 0x1_0000 then [0x59] + ToBE(n, 2)
    else if n < 0x1_0000_0000 then [0x5A] + ToBE(n, 4)
    else [0x5B] + ToBE(n, 8)
  }

  /** A verifier that knows the standard reads the four items in the standard's order. */
  lemma {:induction false} SigStructureReads(protected: seq<byte>, payload: seq<byte>)
    requires |protected| < LIMIT && |payload| < LIMIT
    ensures SigStructure(protected, payload).Ok?
    ensures Loads(SigStructure(protected, payload).value, false) ==
            Ok(Array([Text([0x53, 0x69, 0x67, 0x6E, 0x61, 0x74, 0x75, 0x72, 0x65, 0x31]),
                      ByteString(protected), ByteString([]), ByteString(payload)]))
  {
    hide Enc, Encodable, Load;
    SigStructureEncodes(protected, payload);
    LoadsInvertsDumps(Array([Text(CONTEXT), ByteString(protected), ByteString([]), ByteString(payload)]), []);
  }

  lemma {:induction false} OneMoreItem(a: Item, rest: seq<Item>)
    requires Encodable(a) && AllEncodable(rest)
    ensures AllEncodable([a] + rest) && EncAll([a] + rest) == Enc(a) + EncAll(rest)
  {
    hide Enc, Encodable;
    assert ([a] + rest)[0] == a && ([a] + rest)[1..] == rest;
  }

  lemma {:induction false} FourEncoded(a: Item, b: Item, c: Item, d: Item)
    requires Encodable(a) && Encodable(b) && Encodable(c) && Encodable(d)
    ensures AllEncodable([a, b, c, d])
    ensures EncAll([a, b, c, d]) == Enc(a) + Enc(b) + Enc(c) + Enc(d)
  {
    hide Encodable, Enc;
    assert AllEncodable([]) && EncAll([]) == [];
    OneMoreItem(d, []);
    OneMoreItem(c, [d] + []);
    OneMoreItem(b, [c] + ([d] + []));
    OneMoreItem(a, [b] + ([c] + ([d] + [])));
    assert [a, b, c, d] == [a] + ([b] + ([c] + ([d] + [])));
    assert Enc(a) + (Enc(b) + (Enc(c) + (Enc(d) + []))) == Enc(a) + Enc(b) + Enc(c) + Enc(d);
  }

  lemma {:induction false} ByteStringBytes(b: seq<byte>)
    requires |b| < LIMIT
    ensures Enc(ByteString(b)) == BytesHead(|b|) + b
  {
    hide ToBE;
  }

  /** And the bytes are these. */
  lemma {:induction false} SigStructureBytes(protected: seq<byte>, payload: seq<byte>)
    requires |protected| < LIMIT && |payload| < LIMIT
    ensures SigStructure(protected, payload) ==
            Ok([0x84, 0x6A, 0x53, 0x69, 0x67, 0x6E, 0x61, 0x74, 0x75, 0x72, 0x65, 0x31]
               + BytesHead(|protected|) + protected + [0x40] + BytesHead(|payload|) + payload)
  {
    hide BytesHead, Enc, Encodable;
    SigStructureEncodes(protected, payload);
    var items := [Text(CONTEXT), ByteString(protected), ByteString([]), ByteString(payload)];
    SmallParts(protected, payload);
    FourEncoded(items[0], items[1], items[2], items[3]);
    ByteStringBytes(protected);
    ByteStringBytes([]);
    ByteStringBytes(payload);
    NoBytes();
    FourHead(items);
    var (p, x) := (BytesHead(|protected|) + protected, BytesHead(|payload|) + payload);
    assert [0x40] + [] == [0x40];
    assert [0x84] + (([0x6A] + CONTEXT) + p + [0x40] + x) ==
           [0x84, 0x6A, 0x53, 0x69, 0x67, 0x6E, 0x61, 0x74, 0x75, 0x72, 0x65, 0x31] + p + [0x40] + x;
    Regrouped([0x84, 0x6A, 0x53, 0x69, 0x67, 0x6E, 0x61, 0x74, 0x75, 0x72, 0x65, 0x31], BytesHead(|protected|),
              protected, [0x40], BytesHead(|payload|), payload);
  }

  lemma {:induction false} Regrouped(a: seq<byte>, b: seq<byte>, c: seq<byte>, d: seq<byte>, e: seq<byte>, f: seq<byte>)
    ensures a + (b + c) + d + (e + f) == a + b + c + d + e + f
  {
  }

  lemma {:induction false} SmallParts(protected: seq<byte>, payload: seq<byte>)
    requires |protected| < LIMIT && |payload| < LIMIT
    ensures Encodable(Text(CONTEXT)) && Enc(Text(CONTEXT)) == [0x6A] + CONTEXT
    ensures Encodable(ByteString(protected)) && Encodable(ByteString([])) && Encodable(ByteString(payload))
  {
    hide ValidUtf8;
    AsciiIsUtf8(CONTEXT);
  }

  lemma {:induction false} FourHead(items: seq<Item>)
    requires |items| == 4 && AllEncodable(items)
    ensures Encodable(Array(items)) && Enc(Array(items)) == [0x84] + EncAll(items)
  {
    hide AllEncodable, EncAll;
  }

  lemma {:induction false} NoBytes()
    ensures BytesHead(0) == [0x40]
  {
  }

  /** As for the header that names ES256 and a payload of one byte. */
  lemma {:induction false} SigStructureVector()
    ensures SigStructure([0xA1, 0x01, 0x26], [0x70]) ==
            Ok([0x84, 0x6A, 0x53, 0x69, 0x67, 0x6E, 0x61, 0x74, 0x75, 0x72, 0x65, 0x31,
                0x43, 0xA1, 0x01, 0x26, 0x40, 0x41, 0x70])
  {
    SigStructureBytes([0xA1, 0x01, 0x26], [0x70]);
    assert BytesHead(3) == [0x43] && BytesHead(1) == [0x41];
    assert [0x84, 0x6A, 0x53, 0x69, 0x67, 0x6E, 0x61, 0x74, 0x75, 0x72, 0x65, 0x31]
             + [0x43] + [0xA1, 0x01, 0x26] + [0x40] + [0x41] + [0x70] ==
           [0x84, 0x6A, 0x53, 0x69, 0x67, 0x6E, 0x61, 0x74, 0x75, 0x72, 0x65, 0x31,
            0x43, 0xA1, 0x01, 0x26, 0x40, 0x41, 0x70];
  }

  // ---- the message that is sent ---------------------------------------------------------------

  /** A COSE_Sign1, bare or in the two containers of a signed CoRIM. */
  function Sign1Item(protected: seq<byte>, unprotected: seq<Pair>, payload: seq<byte>, signature: seq<byte>,
                     corim: bool): Item
  {
    var msg := Tag(18, Array([ByteString(protected), Map(unprotected), ByteString(payload), ByteString(signature)]));
    if corim then Tag(500, Tag(502, msg)) else msg
  }

  /** What is sent: the header with `1: -7` put in as bytes, nothing unprotected, the payload, and
      the 64 bytes of the signature made over the Sig_structure. */
  lemma {:induction false} SentMessageReads(payload: seq<byte>, header: seq<Pair>,
                                            signer: seq<byte> -> Option<seq<byte>>, corim: bool)
    requires Sign1(payload, header, signer, corim).Done?
    ensures var protected := Dumps(Map(Put(header, Int(1), Int(-7))));
            && protected.Ok?
            && var tbs := SigStructure(protected.value, payload);
               && tbs.Ok? && signer(tbs.value).Some?
               && var raw := D.RawFromDer(signer(tbs.value).value, 32);
                  && raw.Ok?
                  && Loads(Sign1(payload, header, signer, corim).value, false) ==
                     Ok(Sign1Item(protected.value, [], payload, raw.value, corim))
  {
    hide Enc, Encodable, Load, Put, D.RawFromDer, SigStructure;
    var protected := Dumps(Map(WithAlg(header))).value;
    var raw := D.RawFromDer(signer(SigStructure(protected, payload).value).value, HALF).value;
    LoadsInvertsDumps(Sign1Item(protected, [], payload, raw, corim), []);
  }

  /** What is understood: exactly such items, whatever is unprotected, and the header is the map the
      protected bytes hold, or empty. */
  lemma {:induction false} ParsesExactly(blob: seq<byte>, p: Parsed)
    ensures Parse1(blob) == Done(p) <==>
            && (exists unprotected, corim ::
                  Loads(blob, false) == Ok(Sign1Item(p.protected, unprotected, p.payload, p.signature, corim)))
            && if p.protected == [] then p.header == [] else Loads(p.protected, false) == Ok(Map(p.header))
  {
    hide Loads;
    if Parse1(blob) == Done(p) {
      var item := Loads(blob, false).value;
      var items := Unwrapped(item).value.item.items;
      assert items == [items[0], items[1], items[2], items[3]];
      assert item == Sign1Item(p.protected, items[1].pairs, p.payload, p.signature, item.tag == 500);
    }
  }

  // ---- vectors ----------------------------------------------------------------------------------

  /** Encodings out of RFC 8949 (appendix A). */
  lemma {:induction false} StandardVectors()
    ensures Dumps(Int(23)) == Ok([0x17]) && Dumps(Int(24)) == Ok([0x18, 0x18])
    ensures Dumps(Int(1000)) == Ok([0x19, 0x03, 0xE8])
    ensures Dumps(Int(-1)) == Ok([0x20]) && Dumps(Int(-100)) == Ok([0x38, 0x63])
    ensures Dumps(Text([0x61])) == Ok([0x61, 0x61]) && Dumps(ByteString([1, 2, 3, 4])) == Ok([0x44, 1, 2, 3, 4])
    ensures Dumps(Bool(true)) == Ok([0xF5]) && Dumps(Bool(false)) == Ok([0xF4]) && Dumps(Null) == Ok([0xF6])
  {
    assert ToBE(3, 1) == ToBE(0, 0) + [3] == [3];
    assert [0x19] + ToBE(1000, 2) == [0x19, 0x03, 0xE8] by { assert ToBE(1000, 2) == ToBE(3, 1) + [0xE8]; }
    AsciiIsUtf8([0x61]);
    assert [0x61] + [0x61] == [0x61, 0x61];
    assert [0x44] + [1, 2, 3, 4] == [0x44, 1, 2, 3, 4];
    assert Enc(Text([0x61])) == [0x61] + [0x61] && Enc(ByteString([1, 2, 3, 4])) == [0x44] + [1, 2, 3, 4];
  }
}
