/**
 certs/check_chain.py: certificates as the bytes they are made of. What `signature_span` reads
 of any certificate written in DER, and which byte of which integer the flip changes.
 */
module CertificateBytes {
  import opened Bytes
  import opened CertificateFlip
  import opened DerWalk
  import FlipExactly
  import Integers = DerInteger

  /** A value still to be written: its tag and its contents. */
  datatype Part = Part(tag: byte, body: seq<byte>)
  {
    predicate Writable() { tag % 32 != 31 && |body| < 0x1_0000_0000 }

    /** X.690, section 8.1: identifier, length and contents octets. */
    function Octets(): seq<byte> { [tag] + DerLength(|body|) + body }
  }

  ghost predicate AllWritable(parts: seq<Part>) {
    forall k :: 0 <= k < |parts| ==> parts[k].Writable()
  }

  function Values(parts: seq<Part>): seq<byte> {
    if parts == [] then [] else parts[0].Octets() + Values(parts[1..])
  }

  /** SEQUENCE { tbsCertificate, signatureAlgorithm, signatureValue BIT STRING } */
  function Certificate(tbs: seq<byte>, algorithm: Part, signature: seq<byte>): Part {
    Part(0x30, Values([Part(0x30, tbs), algorithm, Part(0x03, [0] + signature)]))
  }

  /** ECDSA-Sig-Value ::= SEQUENCE { r INTEGER, s INTEGER } */
  function SigPair(r: seq<byte>, s: seq<byte>): Part {
    Part(0x30, Values([Part(0x02, r), Part(0x02, s)]))
  }

  /** Where the values stand that are written from `i` on. */
  function Placed(parts: seq<Part>, i: nat): seq<Child> {
    if parts == [] then []
    else [Child(parts[0].tag, i, i + 1 + |DerLength(|parts[0].body|)|, |parts[0].body|)] +
         Placed(parts[1..], i + |parts[0].Octets()|)
  }

  lemma {:induction false} OctetsRead(buf: seq<byte>, i: nat, p: Part)
    requires p.Writable() && At(buf, i, p.Octets())
    ensures ReadTlv(buf, i) == Ok(Tlv(p.tag, 1 + |DerLength(|p.body|)|, |p.body|))
  {
    hide DerLength;
    var h := [p.tag] + DerLength(|p.body|);
    assert p.Octets()[..|h|] == h;
    assert buf[i..i + |h|] == buf[i..i + |p.Octets()|][..|h|];
    HeaderReads(buf, i, p.tag, |p.body|);
  }

  lemma {:induction false} ValuesRead(buf: seq<byte>, i: nat, parts: seq<Part>)
    requires AllWritable(parts) && At(buf, i, Values(parts))
    ensures Children(buf, i, i + |Values(parts)|) == Ok(Placed(parts, i))
    decreases |parts|
  {
    hide ReadTlv, DerLength;
    if parts != [] {
      var p, tail := parts[0], Values(parts[1..]);
      var n := |p.Octets()|;
      assert buf[i..i + |Values(parts)|] == p.Octets() + tail;
      assert buf[i..i + n] == buf[i..i + |Values(parts)|][..n] == p.Octets();
      assert buf[i + n..i + n + |tail|] == buf[i..i + |Values(parts)|][n..] == tail;
      OctetsRead(buf, i, p);
      ValuesRead(buf, i + n, parts[1..]);
    }
  }

  lemma {:induction false} ThreeValues(a: Part, b: Part, c: Part)
    ensures Values([a, b, c]) == a.Octets() + b.Octets() + c.Octets()
  {
    assert [a, b, c][1..] == [b, c] && [b, c][1..] == [c] && [c][1..] == [];
    assert Values([c]) == c.Octets() + [] == c.Octets();
    assert Values([b, c]) == b.Octets() + c.Octets();
  }

  lemma {:induction false} TwoValues(a: Part, b: Part)
    ensures Values([a, b]) == a.Octets() + b.Octets()
  {
    assert [a, b][1..] == [b] && [b][1..] == [];
    assert Values([b]) == b.Octets() + [] == b.Octets();
  }

  lemma {:induction false} PlacedFirst(p: Part, rest: seq<Part>, i: nat)
    ensures Placed([p] + rest, i) ==
            [Child(p.tag, i, i + 1 + |DerLength(|p.body|)|, |p.body|)] + Placed(rest, i + |p.Octets()|)
  {
    hide DerLength;
    assert ([p] + rest)[1..] == rest;
  }

  lemma {:induction false} PlacedThree(a: Part, b: Part, c: Part, i: nat)
    ensures var at := i + |a.Octets()| + |b.Octets()|;
            Placed([a, b, c], i) ==
            [Child(a.tag, i, i + 1 + |DerLength(|a.body|)|, |a.body|),
             Child(b.tag, i + |a.Octets()|, i + |a.Octets()| + 1 + |DerLength(|b.body|)|, |b.body|),
             Child(c.tag, at, at + 1 + |DerLength(|c.body|)|, |c.body|)]
  {
    hide DerLength, Part.Octets;
    PlacedFirst(a, [b, c], i);
    PlacedFirst(b, [c], i + |a.Octets()|);
    PlacedFirst(c, [], i + |a.Octets()| + |b.Octets()|);
    assert [a, b, c] == [a] + [b, c] && [b, c] == [b] + [c] && [c] == [c] + [];
  }

  /** Where the signature of a certificate ends the certificate. */
  lemma {:induction false} SignatureIsLast(tbs: seq<byte>, algorithm: Part, signature: seq<byte>)
    ensures var c := Certificate(tbs, algorithm, signature);
            var (n, h) := (|c.Octets()|, 1 + |DerLength(|c.body|)|);
            && n == h + |c.body| && c.Octets()[h..] == c.body
            && |signature| < |c.body| && c.body[|c.body| - |signature|..] == signature
            && c.body[|c.body| - |signature| - 1] == 0
            && c.body[..|Part(0x30, tbs).Octets()|] == Part(0x30, tbs).Octets()
            && |c.body| == |Part(0x30, tbs).Octets()| + |algorithm.Octets()| + |Part(0x03, [0] + signature).Octets()|
  {
    hide DerLength;
    ThreeValues(Part(0x30, tbs), algorithm, Part(0x03, [0] + signature));
  }

  lemma {:induction false} CertificateParts(tbs: seq<byte>, algorithm: Part, signature: seq<byte>, rest: seq<byte>)
    requires algorithm.Writable() && Certificate(tbs, algorithm, signature).Writable()
    ensures var c := Certificate(tbs, algorithm, signature);
            var (buf, h) := (c.Octets() + rest, 1 + |DerLength(|c.body|)|);
            && ReadTlv(buf, 0) == Ok(Tlv(0x30, h, |c.body|))
            && Children(buf, h, h + |c.body|) ==
               Ok(Placed([Part(0x30, tbs), algorithm, Part(0x03, [0] + signature)], h))
  {
    hide DerLength, ReadTlv, Children;
    var c := Certificate(tbs, algorithm, signature);
    var (a, b, d) := (Part(0x30, tbs), algorithm, Part(0x03, [0] + signature));
    var (whole, h) := (c.Octets(), 1 + |DerLength(|c.body|)|);
    var buf := whole + rest;
    SignatureIsLast(tbs, algorithm, signature);
    assert buf[0..|whole|] == whole;
    OctetsRead(buf, 0, c);
    assert buf[h..h + |c.body|] == whole[h..];
    ThreeValues(a, b, d);
    ValuesRead(buf, h, [a, b, d]);
  }

  /** A certificate that can be written, whatever follows it, is read as what it was made of. */
  lemma {:induction false} SpanReads(tbs: seq<byte>, algorithm: Part, signature: seq<byte>, rest: seq<byte>)
    requires algorithm.Writable() && Certificate(tbs, algorithm, signature).Writable()
    ensures var whole := Certificate(tbs, algorithm, signature).Octets();
            var r := SignatureSpan(whole + rest);
            && r.Ok? && r.value.signatureOffset == |whole| - |signature| && r.value.signatureBytes == |signature|
            && whole[r.value.signatureOffset..] == signature
            && r.value.tbsOffset + r.value.tbsBytes < r.value.signatureOffset
            && whole[r.value.tbsOffset..r.value.tbsOffset + r.value.tbsBytes] == Part(0x30, tbs).Octets()
            && r.value.algorithm == Inside(whole + rest, |whole| - |signature|, |signature|)
  {
    hide DerLength, ReadTlv, Inside, Children, Values, Placed;
    var c := Certificate(tbs, algorithm, signature);
    var (a, b, d) := (Part(0x30, tbs), algorithm, Part(0x03, [0] + signature));
    var (whole, h) := (c.Octets(), 1 + |DerLength(|c.body|)|);
    SignatureIsLast(tbs, algorithm, signature);
    CertificateParts(tbs, algorithm, signature, rest);
    PlacedThree(a, b, d, h);
    var at := h + |a.Octets()| + |b.Octets()| + 1 + |DerLength(|d.body|)|;
    assert at + |d.body| == |whole|;
    assert (whole + rest)[at] == whole[at] == whole[h..][at - h] == 0;
    assert whole[|whole| - |signature|..] == whole[h..][|c.body| - |signature|..];
    assert whole[h..h + |a.Octets()|] == whole[h..][..|a.Octets()|];
  }

  /** An ECDSA signature value: the pair, and any values behind it. */
  function Signature(r: seq<byte>, s: seq<byte>, tail: seq<Part>): seq<byte> {
    SigPair(r, s).Octets() + Values(tail)
  }

  /** How far into the pair s begins. */
  function SAt(r: seq<byte>, n: nat): nat {
    var before := |Part(0x02, r).Octets()| + 1 + |DerLength(n)|;
    1 + |DerLength(before + n)| + before
  }

  lemma {:induction false} PlacedTwo(a: Part, b: Part, i: nat)
    ensures var at := i + |a.Octets()|;
            Placed([a, b], i) == [Child(a.tag, i, i + 1 + |DerLength(|a.body|)|, |a.body|),
                                  Child(b.tag, at, at + 1 + |DerLength(|b.body|)|, |b.body|)]
  {
    hide DerLength, Part.Octets;
    PlacedFirst(a, [b], i);
    PlacedFirst(b, [], i + |a.Octets()|);
    assert [a, b] == [a] + [b] && [b] == [b] + [];
  }

  lemma {:induction false} PairSize(r: seq<byte>, s: seq<byte>)
    ensures var p := SigPair(r, s);
            && 1 + |DerLength(|p.body|)| + |Part(0x02, r).Octets()| + 1 + |DerLength(|s|)| == SAt(r, |s|)
            && |p.Octets()| == SAt(r, |s|) + |s| && p.Octets()[1 + |DerLength(|p.body|)|..] == p.body
  {
    hide DerLength;
    TwoValues(Part(0x02, r), Part(0x02, s));
  }

  lemma {:induction false} PairReads(buf: seq<byte>, at: nat, r: seq<byte>, s: seq<byte>)
    requires SigPair(r, s).Writable() && At(buf, at, SigPair(r, s).Octets())
    ensures var p := SigPair(r, s);
            var (h, end) := (1 + |DerLength(|p.body|)|, at + |p.Octets()|);
            var (one, two) := (at + h, at + SAt(r, |s|) - 1 - |DerLength(|s|)|);
            && end == at + SAt(r, |s|) + |s|
            && Children(buf, at + h, end) ==
               Ok([Child(0x02, one, one + 1 + |DerLength(|r|)|, |r|), Child(0x02, two, at + SAt(r, |s|), |s|)])
  {
    hide DerLength, Children, SAt, Part.Octets;
    var p := SigPair(r, s);
    var (h, end) := (1 + |DerLength(|p.body|)|, at + |p.Octets()|);
    var (a, b) := (Part(0x02, r), Part(0x02, s));
    PairSize(r, s);
    assert buf[at + h..end] == buf[at..end][h..];
    PairWritable(r, s);
    ValuesRead(buf, at + h, [a, b]);
    PlacedTwo(a, b, at + h);
  }

  lemma {:induction false} PairWritable(r: seq<byte>, s: seq<byte>)
    requires SigPair(r, s).Writable()
    ensures AllWritable([Part(0x02, r), Part(0x02, s)])
  {
    hide DerLength;
    TwoValues(Part(0x02, r), Part(0x02, s));
  }

  lemma {:induction false} ValuesCons(p: Part, tail: seq<Part>)
    ensures Values([p] + tail) == p.Octets() + Values(tail)
  {
    assert ([p] + tail)[1..] == tail;
  }

  /** It is read as a structure, with s where it was put. */
  lemma {:induction false} SignatureReads(buf: seq<byte>, at: nat, r: seq<byte>, s: seq<byte>, tail: seq<Part>)
    requires SigPair(r, s).Writable() && AllWritable(tail) && At(buf, at, Signature(r, s, tail))
    ensures Inside(buf, at, |Signature(r, s, tail)|) == Ecdsa(at + SAt(r, |s|), |s|)
  {
    hide DerLength, Children, Values, Placed, SAt;
    var p := SigPair(r, s);
    var parts := [p] + tail;
    assert parts[0] == p && parts[1..] == tail;
    ValuesCons(p, tail);
    ValuesRead(buf, at, parts);
    PlacedFirst(p, tail, at);
    var n := |p.Octets()|;
    assert buf[at..at + n] == buf[at..at + |Signature(r, s, tail)|][..n];
    PairReads(buf, at, r, s);
  }

  /** Contents of one length are written at one place between the same octets. */
  lemma {:induction false} Layer(tag: byte, x: seq<byte>, y: seq<byte>, z: seq<byte>)
    ensures Part(tag, x + y + z).Octets() == ([tag] + DerLength(|x| + |y| + |z|) + x) + y + z
  {
    hide DerLength;
  }

  /** What stands before an s of `n` bytes in a pair. */
  function BeforeS(r: seq<byte>, n: nat): (b: seq<byte>)
    ensures |b| == SAt(r, n)
  {
    var before := Part(0x02, r).Octets() + [0x02] + DerLength(n);
    [0x30] + DerLength(|before| + n) + before
  }

  lemma {:induction false} AroundS(r: seq<byte>, s: seq<byte>, tail: seq<Part>)
    ensures Signature(r, s, tail) == BeforeS(r, |s|) + s + Values(tail)
  {
    hide DerLength, Values;
    TwoValues(Part(0x02, r), Part(0x02, s));
    var before := Part(0x02, r).Octets() + [0x02] + DerLength(|s|);
    assert SigPair(r, s).body == before + s + [];
    Layer(0x30, before, s, []);
  }

  /** What stands before a signature of `n` bytes in a certificate. */
  function BeforeSignature(tbs: seq<byte>, algorithm: Part, n: nat): seq<byte> {
    var before := Part(0x30, tbs).Octets() + algorithm.Octets() + [0x03] + DerLength(1 + n) + [0];
    [0x30] + DerLength(|before| + n) + before
  }

  lemma {:induction false} AroundSignature(tbs: seq<byte>, algorithm: Part, signature: seq<byte>)
    ensures Certificate(tbs, algorithm, signature).Octets() ==
            BeforeSignature(tbs, algorithm, |signature|) + signature
  {
    hide DerLength, Values;
    ThreeValues(Part(0x30, tbs), algorithm, Part(0x03, [0] + signature));
    var before := Part(0x30, tbs).Octets() + algorithm.Octets() + [0x03] + DerLength(1 + |signature|) + [0];
    assert Certificate(tbs, algorithm, signature).body == before + signature + [];
    Layer(0x30, before, signature, []);
  }

  lemma {:induction false} SmallerInside(tbs: seq<byte>, algorithm: Part, r: seq<byte>, s: seq<byte>, tail: seq<Part>)
    requires Certificate(tbs, algorithm, Signature(r, s, tail)).Writable()
    ensures SigPair(r, s).Writable()
  {
    hide DerLength, Values;
    SignatureIsLast(tbs, algorithm, Signature(r, s, tail));
  }

  lemma {:induction false} FlipAt(before: seq<byte>, s: seq<byte>, after: seq<byte>, k: nat)
    requires k < |s|
    ensures var buf := before + s + after; var t := |before| + k;
            buf[t] == s[k] && buf[t := FlipLow(buf[t])] == before + s[k := FlipLow(s[k])] + after
  {
  }

  /** A flip inside the signature is the certificate of the flipped signature. */
  lemma {:induction false} FlipInSignature(tbs: seq<byte>, algorithm: Part, signature: seq<byte>, rest: seq<byte>,
                                           k: nat)
    requires k < |signature|
    ensures var whole := Certificate(tbs, algorithm, signature).Octets();
            var (buf, t) := (whole + rest, |whole| - |signature| + k);
            && 0 <= t < |buf|
            && buf[t := FlipLow(buf[t])] ==
               Certificate(tbs, algorithm, signature[k := FlipLow(signature[k])]).Octets() + rest
  {
    hide BeforeSignature, Part.Octets;
    var flipped := signature[k := FlipLow(signature[k])];
    AroundSignature(tbs, algorithm, signature);
    AroundSignature(tbs, algorithm, flipped);
    FlipAt(BeforeSignature(tbs, algorithm, |signature|), signature, rest, k);
  }

  /** The flip of an ECDSA certificate is the certificate with the byte of s at half its length
      flipped, and every other byte of tbs, r and s as it was. */
  lemma {:induction false} EcdsaFlipIsInS(tbs: seq<byte>, algorithm: Part, r: seq<byte>, s: seq<byte>, tail: seq<Part>,
                                          rest: seq<byte>)
    requires algorithm.Writable() && AllWritable(tail) && s != []
    requires Certificate(tbs, algorithm, Signature(r, s, tail)).Writable()
    ensures var buf := Certificate(tbs, algorithm, Signature(r, s, tail)).Octets() + rest;
            var flipped := s[|s| / 2 := FlipLow(s[|s| / 2])];
            && SignatureSpan(buf).Ok? && SignatureSpan(buf).value.algorithm.Ecdsa?
            && var t := SignatureSpan(buf).value.Flip();
               t < |buf| && buf[t := FlipLow(buf[t])]
                         == Certificate(tbs, algorithm, Signature(r, flipped, tail)).Octets() + rest
  {
    hide Certificate, Part.Octets, Values, BeforeS, SAt, Inside, SignatureSpan, Signature;
    var signature := Signature(r, s, tail);
    var whole := Certificate(tbs, algorithm, signature).Octets();
    SpanReads(tbs, algorithm, signature, rest);
    var at := |whole| - |signature|;
    assert (whole + rest)[at..at + |signature|] == whole[at..];
    SmallerInside(tbs, algorithm, r, s, tail);
    SignatureReads(whole + rest, at, r, s, tail);
    var k := |s| / 2;
    AroundS(r, s, tail);
    AroundS(r, s[k := FlipLow(s[k])], tail);
    FlipAt(BeforeS(r, |s|), s, Values(tail), k);
    FlipInSignature(tbs, algorithm, signature, rest, SAt(r, |s|) + k);
  }

  /** And one whose signature has no structure to go by: the byte at half the signature's length. */
  lemma {:induction false} OpaqueFlipIsInTheMiddle(tbs: seq<byte>, algorithm: Part, signature: seq<byte>,
                                                   rest: seq<byte>)
    requires algorithm.Writable() && Certificate(tbs, algorithm, signature).Writable() && signature != []
    ensures var buf := Certificate(tbs, algorithm, signature).Octets() + rest;
            var k := |signature| / 2;
            && SignatureSpan(buf).Ok?
            && (SignatureSpan(buf).value.algorithm.Opaque? ==>
                  var t := SignatureSpan(buf).value.Flip();
                  t < |buf| && buf[t := FlipLow(buf[t])]
                            == Certificate(tbs, algorithm, signature[k := FlipLow(signature[k])]).Octets() + rest)
  {
    hide Certificate, Part.Octets, Inside, SignatureSpan;
    SpanReads(tbs, algorithm, signature, rest);
    FlipInSignature(tbs, algorithm, signature, rest, |signature| / 2);
  }

  // ---- nothing else is read -------------------------------------------------------------------

  /** The values as they stand in the buffer. */
  function PartsOf(buf: seq<byte>, cs: seq<Child>): seq<Part> {
    if cs == [] then []
    else [Part(cs[0].tag, if cs[0].End() <= |buf| then buf[cs[0].body..cs[0].End()] else [])] + PartsOf(buf, cs[1..])
  }

  lemma {:induction false} PartsAt(buf: seq<byte>, cs: seq<Child>, k: nat)
    requires k < |cs| && cs[k].End() <= |buf|
    ensures |PartsOf(buf, cs)| == |cs|
    ensures PartsOf(buf, cs)[k] == Part(cs[k].tag, buf[cs[k].body..cs[k].End()])
  {
    PartsLength(buf, cs);
    if k > 0 {
      PartsAt(buf, cs[1..], k - 1);
    }
  }

  lemma {:induction false} PartsLength(buf: seq<byte>, cs: seq<Child>)
    ensures |PartsOf(buf, cs)| == |cs|
  {
    if cs != [] {
      PartsLength(buf, cs[1..]);
    }
  }

  lemma {:induction false} OneStands(buf: seq<byte>, c: Child)
    requires FlipExactly.Written(buf, c) && c.End() <= |buf|
    ensures var p := Part(c.tag, buf[c.body..c.End()]);
            c.offset < c.body && p.Writable() && buf[c.offset..c.End()] == p.Octets()
  {
    hide DerLength;
    assert buf[c.offset..c.End()] == buf[c.offset..c.body] + buf[c.body..c.End()];
  }

  lemma {:induction false} StandingAreValues(buf: seq<byte>, cs: seq<Child>, i: nat, end: nat)
    requires FlipExactly.Stands(cs, i, end) && FlipExactly.AllWritten(buf, cs) && i <= end <= |buf|
    ensures buf[i..end] == Values(PartsOf(buf, cs)) && AllWritable(PartsOf(buf, cs))
    decreases |cs|
  {
    hide FlipExactly.Written, Part.Octets, Part.Writable;
    if cs != [] {
      var c := cs[0];
      FlipExactly.StandsInside(cs[1..], c.End(), end);
      StandingAreValues(buf, cs[1..], c.End(), end);
      OneStands(buf, c);
      assert buf[i..end] == buf[i..c.End()] + buf[c.End()..end];
      var p, rest := Part(c.tag, buf[c.body..c.End()]), PartsOf(buf, cs[1..]);
      assert PartsOf(buf, cs) == [p] + rest;
      ValuesCons(p, rest);
    }
  }

  /** The certificate is all there. */
  ghost predicate AllThere(der: seq<byte>) {
    ReadTlv(der, 0).Ok? && ReadTlv(der, 0).value.header + ReadTlv(der, 0).value.body <= |der|
  }

  ghost predicate IsCertificate(der: seq<byte>, tbs: seq<byte>, algorithm: Part, signature: seq<byte>) {
    && algorithm.Writable() && Certificate(tbs, algorithm, signature).Writable()
    && Certificate(tbs, algorithm, signature).Octets() <= der
  }

  lemma {:induction false} AcceptedIsCertificate(der: seq<byte>)
    returns (tbs: seq<byte>, algorithm: Part, signature: seq<byte>)
    requires SignatureSpan(der).Ok? && AllThere(der)
    ensures IsCertificate(der, tbs, algorithm, signature)
  {
    hide ReadTlv, Children, Inside, DerLength;
    var t := ReadTlv(der, 0).value;
    var end := t.header + t.body;
    var cs := Children(der, t.header, end).value;
    FlipExactly.ChildrenRead(der, t.header, end);
    StandingAreValues(der, cs, t.header, end);
    ThreeStand(der, t.header, end);
    var parts := PartsOf(der, cs);
    tbs, algorithm := parts[0].body, parts[1];
    signature := parts[2].body[1..];
    FlipExactly.ReadIsWritten(der, 0);
    OneStands(der, ChildAt(t, 0));
    var whole := Certificate(tbs, algorithm, signature);
    assert parts == [Part(0x30, tbs), algorithm, Part(0x03, [0] + signature)];
    assert der[..end] == whole.Octets();
    assert parts[1].Writable();
  }

  lemma {:induction false} ThreeStand(der: seq<byte>, i: nat, end: nat)
    requires Children(der, i, end).Ok? && |Children(der, i, end).value| == 3 && end <= |der|
    ensures var (cs, parts) := (Children(der, i, end).value, PartsOf(der, Children(der, i, end).value));
            && |parts| == 3 && parts[0].tag == cs[0].tag && parts[2].tag == cs[2].tag
            && (cs[2].length >= 1 ==>
                  cs[2].body < |der| && parts[2].body != [] && parts[2].body == [der[cs[2].body]] + parts[2].body[1..])
  {
    hide Children;
    var cs := Children(der, i, end).value;
    ChildrenInOrder(der, i, end, 0);
    ChildrenInOrder(der, i, end, 2);
    PartsAt(der, cs, 0);
    PartsAt(der, cs, 2);
  }

  /** Accepted of the certificates that are all there is exactly what DER writes. */
  lemma {:induction false} SpanExactly(der: seq<byte>)
    ensures SignatureSpan(der).Ok? && AllThere(der) <==>
            exists tbs, algorithm, signature :: IsCertificate(der, tbs, algorithm, signature)
  {
    hide SignatureSpan, AllThere, IsCertificate;
    if SignatureSpan(der).Ok? && AllThere(der) {
      var tbs, algorithm, signature := AcceptedIsCertificate(der);
    }
    if tbs: seq<byte>, algorithm: Part, signature: seq<byte> :| IsCertificate(der, tbs, algorithm, signature) {
      CertificateIsAccepted(der, tbs, algorithm, signature);
    }
  }

  lemma {:induction false} CertificateIsAccepted(der: seq<byte>, tbs: seq<byte>, algorithm: Part, signature: seq<byte>)
    requires IsCertificate(der, tbs, algorithm, signature)
    ensures SignatureSpan(der).Ok? && AllThere(der)
  {
    hide SignatureSpan, ReadTlv, Part.Octets, Certificate;
    var whole := Certificate(tbs, algorithm, signature).Octets();
    assert der == whole + der[|whole|..];
    SpanReads(tbs, algorithm, signature, der[|whole|..]);
    CertificateParts(tbs, algorithm, signature, der[|whole|..]);
    SignatureIsLast(tbs, algorithm, signature);
  }

  /** And a structure is read in a signature exactly when it is an ECDSA signature value. */
  lemma {:induction false} StructureExactly(buf: seq<byte>, at: nat, n: nat)
    requires at + n <= |buf|
    ensures Inside(buf, at, n).Ecdsa? <==>
            exists r, s, tail ::
              SigPair(r, s).Writable() && AllWritable(tail) && buf[at..at + n] == Signature(r, s, tail)
  {
    hide Inside, Signature, SigPair;
    if Inside(buf, at, n).Ecdsa? {
      var r, s, tail := StructureIsSignature(buf, at, n);
    }
    if r, s: seq<byte>, tail: seq<Part> :|
      SigPair(r, s).Writable() && AllWritable(tail) && buf[at..at + n] == Signature(r, s, tail)
    {
      SignatureReads(buf, at, r, s, tail);
    }
  }

  lemma {:induction false} StructureIsSignature(buf: seq<byte>, at: nat, n: nat)
    returns (r: seq<byte>, s: seq<byte>, tail: seq<Part>)
    requires at + n <= |buf| && Inside(buf, at, n).Ecdsa?
    ensures SigPair(r, s).Writable() && AllWritable(tail) && buf[at..at + n] == Signature(r, s, tail)
  {
    hide Children, DerLength, ReadTlv;
    var inner := Children(buf, at, at + n).value;
    FlipExactly.ChildrenRead(buf, at, at + n);
    StandingAreValues(buf, inner, at, at + n);
    var parts := PartsOf(buf, inner);
    ChildrenInOrder(buf, at, at + n, 0);
    var ints := Children(buf, inner[0].body, inner[0].End()).value;
    FlipExactly.ChildrenRead(buf, inner[0].body, inner[0].End());
    StandingAreValues(buf, ints, inner[0].body, inner[0].End());
    var two := PartsOf(buf, ints);
    ChildrenInOrder(buf, inner[0].body, inner[0].End(), 0);
    ChildrenInOrder(buf, inner[0].body, inner[0].End(), 1);
    PartsAt(buf, ints, 0);
    PartsAt(buf, ints, 1);
    PartsAt(buf, inner, 0);
    assert two == [two[0], two[1]];
    r, s, tail := two[0].body, two[1].body, parts[1..];
    assert parts[0] == SigPair(r, s);
    assert parts == [parts[0]] + tail;
    ValuesCons(parts[0], tail);
  }

  // ---- the converter's DER ----------------------------------------------------------------------

  lemma {:induction false} ShortLength(n: nat)
    requires n <= 0xFF
    ensures DerLength(n) == if n < 0x80 then [n] else [0x81, n]
  {
    if n >= 0x80 {
      assert ToBE(n / 256, 0) == [] && ToBE(n, 1) == [n % 256];
    }
  }

  lemma {:induction false} IntegerOctets(v: seq<byte>)
    requires Integers.DerInt(v).Ok?
    ensures var (c, e) := (Integers.Contents(v), Integers.DerInt(v).value);
            && (|c| < 0x80 ==> e == Part(0x02, c).Octets())
            && |Part(0x02, c).Octets()| == |e| + if |c| < 0x80 then 0 else 1
  {
    hide DerLength, Integers.Contents;
    ShortLength(|Integers.Contents(v)|);
  }

  /** What the converter writes of a raw signature is the pair of its two integers in DER exactly
      when each takes fewer than 128 bytes; a longer one gets a length of one octet, which X.690
      reads as another. */
  lemma {:induction false} ConverterWritesPairExactly(raw: seq<byte>)
    requires Integers.RawToDer(raw).Ok?
    ensures var half := |raw| / 2;
            var (r, s) := (Integers.Contents(raw[..half]), Integers.Contents(raw[half..]));
            Integers.RawToDer(raw).value == SigPair(r, s).Octets() <==> |r| < 0x80 && |s| < 0x80
  {
    hide DerLength, Integers.Contents, Integers.DerInt, Part.Octets;
    var half := |raw| / 2;
    var (a, b) := (raw[..half], raw[half..]);
    var (r, s) := (Integers.Contents(a), Integers.Contents(b));
    IntegerOctets(a);
    IntegerOctets(b);
    TwoValues(Part(0x02, r), Part(0x02, s));
    PairOctets(r, s);
    var x, y := Integers.DerInt(a).value, Integers.DerInt(b).value;
    if |r| < 0x80 && |s| < 0x80 {
      ShortLength(|x + y|);
    } else {
      LongerLength(|x + y|, |SigPair(r, s).body|);
    }
  }

  lemma {:induction false} PairOctets(r: seq<byte>, s: seq<byte>)
    ensures var p := SigPair(r, s); p.Octets() == [0x30] + DerLength(|p.body|) + p.body
    ensures SigPair(r, s).body == Values([Part(0x02, r), Part(0x02, s)])
  {
    hide DerLength, Values;
  }

  lemma {:induction false} LongerLength(n: nat, m: nat)
    requires n <= 0xFF && n < m <= n + 2
    ensures |DerLength(m)| >= if n < 0x80 then 1 else 2
  {
    hide ToBE;
  }
}
