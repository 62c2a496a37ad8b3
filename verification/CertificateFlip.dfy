/**
 certs/check_chain.py: where a certificate's own signature is, and which byte of it the
 tamper experiment flips so that the certificate still reads the same.
 */
module CertificateFlip {
  import opened Bytes
  import opened DerWalk

  const INTEGER: byte := 0x02
  const BIT_STRING: byte := 0x03

  /** One child of a container: its tag, where it stands, and where its body is. */
  datatype Child = Child(tag: byte, offset: nat, body: nat, length: nat)
  {
    function End(): nat { body + length }
  }

  function ChildAt(t: Tlv, i: nat): Child {
    Child(t.tag, i, i + t.header, t.body)
  }

  lemma {:induction false} HeaderIsTwoOrMore(buf: seq<byte>, i: nat)
    ensures ReadTlv(buf, i).Ok? ==> ReadTlv(buf, i).value.header >= 2 && i + ReadTlv(buf, i).value.header <= |buf|
  {
    hide BitLength, BE;
  }

  /** The values directly inside a container from `i` to `end`. */
  function Children(buf: seq<byte>, i: nat, end: nat): Result<seq<Child>>
    decreases end - i
  {
    if i >= end then Ok([])
    else match ReadTlv(buf, i)
      case Refused => Refused
      case IndexError => IndexError
      case Ok(t) =>
        HeaderIsTwoOrMore(buf, i);
        var c := ChildAt(t, i);
        if c.End() > end then Refused
        else match Children(buf, c.End(), end)
          case Refused => Refused
          case IndexError => IndexError
          case Ok(rest) => Ok([c] + rest)
  }

  /** `der_children`, run to its end. */
  method DerChildren(buf: seq<byte>, start: nat, end: nat) returns (r: Result<seq<Child>>)
    ensures r == Children(buf, start, end)
  {
    hide ReadTlv;
    var out: seq<Child> := [];
    var i := start;
    NothingBefore(Children(buf, start, end));
    while i < end
      invariant Children(buf, start, end) == After(out, Children(buf, i, end))
      decreases end - i
    {
      HeaderIsTwoOrMore(buf, i);
      var t := ReadTlv(buf, i);
      if t.Refused? {
        return Refused;
      }
      if t.IndexError? {
        return IndexError;
      }
      var c := Child(t.value.tag, i, i + t.value.header, t.value.body);
      if c.body + c.length > end {
        return Refused;
      }
      AfterOne(out, c, Children(buf, c.End(), end));
      out := out + [c];
      i := c.body + c.length;
    }
    assert out + [] == out;
    r := Ok(out);
  }

  ghost function After(out: seq<Child>, r: Result<seq<Child>>): Result<seq<Child>> {
    match r
    case Ok(rest) => Ok(out + rest)
    case _ => r
  }

  lemma {:induction false} NothingBefore(r: Result<seq<Child>>)
    ensures After([], r) == r
  {
    if r.Ok? {
      assert [] + r.value == r.value;
    }
  }

  lemma {:induction false} AfterOne(out: seq<Child>, c: Child, r: Result<seq<Child>>)
    ensures After(out + [c], r) == After(out, if r.Ok? then Ok([c] + r.value) else r)
  {
    if r.Ok? {
      Assoc(out, [c], r.value);
    }
  }

  // ---- where the signature is -----------------------------------------------------------

  datatype Algorithm = Ecdsa(sOffset: nat, sBytes: nat) | Opaque

  datatype Place = Place(tbsOffset: nat, tbsBytes: nat, signatureOffset: nat, signatureBytes: nat, algorithm: Algorithm)
  {
    /** `flip_offset`: the middle of s, or of a signature with no structure. */
    function Flip(): nat {
      if algorithm.Ecdsa? then algorithm.sOffset + algorithm.sBytes / 2 else signatureOffset + signatureBytes / 2
    }
  }

  /** The structure inside the signature; anything unexpected makes it opaque. */
  function Inside(der: seq<byte>, at: nat, n: nat): Algorithm {
    match Children(der, at, at + n)
    case Ok(inner) =>
      if inner == [] || inner[0].tag != SEQUENCE then Opaque
      else (match Children(der, inner[0].body, inner[0].End())
            case Ok(ints) =>
              if |ints| != 2 || ints[0].tag != INTEGER || ints[1].tag != INTEGER then Opaque
              else Ecdsa(ints[1].body, ints[1].length)
            case _ => Opaque)
    case _ => Opaque
  }

  /** `signature_span` */
  function SignatureSpan(der: seq<byte>): Result<Place> {
    match ReadTlv(der, 0)
    case Refused => Refused
    case IndexError => IndexError
    case Ok(t) =>
      if t.tag != SEQUENCE then Refused
      else match Children(der, t.header, t.header + t.body)
        case Refused => Refused
        case IndexError => IndexError
        case Ok(parts) =>
          if |parts| != 3 then Refused
          else
            var (tbs, sig) := (parts[0], parts[2]);
            if sig.tag != BIT_STRING || sig.length < 1 then Refused
            else if sig.body >= |der| then IndexError
            else if der[sig.body] != 0 then Refused
            else if tbs.tag != SEQUENCE then Refused
            else Ok(Place(tbs.offset, tbs.body - tbs.offset + tbs.length, sig.body + 1, sig.length - 1,
                          Inside(der, sig.body + 1, sig.length - 1)))
  }

  // ---- a changed byte that no header sees --------------------------------------------------

  lemma {:induction false} TlvSame(buf: seq<byte>, i: nat, t: nat, x: byte)
    requires t < |buf| && (t < i || (ReadTlv(buf, i).Ok? && t >= i + ReadTlv(buf, i).value.header))
    ensures ReadTlv(buf[t := x], i) == ReadTlv(buf, i)
  {
    hide BitLength, BE;
    var after := buf[t := x];
    if i + 1 < |buf| && buf[i + 1] > 0x80 {
      var count := buf[i + 1] - 0x80;
      if i + 2 + count <= |buf| {
        assert after[i + 2..i + 2 + count] == buf[i + 2..i + 2 + count];
      }
    }
  }

  lemma {:induction false} ChildrenAfter(buf: seq<byte>, i: nat, end: nat, t: nat, x: byte)
    requires t < |buf| && t < i
    ensures Children(buf[t := x], i, end) == Children(buf, i, end)
    decreases end - i
  {
    hide ReadTlv;
    if i < end {
      TlvSame(buf, i, t, x);
      HeaderIsTwoOrMore(buf, i);
      if ReadTlv(buf, i).Ok? {
        ChildrenAfter(buf, ChildAt(ReadTlv(buf, i).value, i).End(), end, t, x);
      }
    }
  }

  /** Children stand one after another from `i` on. */
  lemma {:induction false} ChildrenInOrder(buf: seq<byte>, i: nat, end: nat, j: nat)
    requires Children(buf, i, end).Ok? && j < |Children(buf, i, end).value|
    ensures var c := Children(buf, i, end).value[j]; i <= c.offset < c.body && c.End() <= end
    ensures forall k :: 0 <= k < j ==> Children(buf, i, end).value[k].End() <= Children(buf, i, end).value[j].offset
    decreases end - i
  {
    hide ReadTlv;
    HeaderIsTwoOrMore(buf, i);
    var cs := Children(buf, i, end).value;
    var c := ChildAt(ReadTlv(buf, i).value, i);
    var rest := Children(buf, c.End(), end).value;
    assert cs == [c] + rest;
    if j > 0 {
      ChildrenInOrder(buf, c.End(), end, j - 1);
      forall k | 0 <= k < j
        ensures cs[k].End() <= cs[j].offset
      {
        if k > 0 {
          assert cs[k] == rest[k - 1];
        }
      }
    }
  }

  /** A byte inside the body of one child is not part of how the container reads. */
  lemma {:induction false} ChildrenSame(buf: seq<byte>, i: nat, end: nat, j: nat, t: nat, x: byte)
    requires t < |buf| && Children(buf, i, end).Ok? && j < |Children(buf, i, end).value|
    requires var c := Children(buf, i, end).value[j]; c.body <= t < c.End()
    ensures Children(buf[t := x], i, end) == Children(buf, i, end)
    decreases end - i
  {
    hide ReadTlv;
    HeaderIsTwoOrMore(buf, i);
    var cs := Children(buf, i, end).value;
    var c := ChildAt(ReadTlv(buf, i).value, i);
    assert cs == [c] + Children(buf, c.End(), end).value;
    ChildrenInOrder(buf, i, end, j);
    assert j > 0 ==> cs[0].End() <= cs[j].offset;
    TlvSame(buf, i, t, x);
    if j == 0 {
      ChildrenAfter(buf, c.End(), end, t, x);
    } else {
      ChildrenSame(buf, c.End(), end, j - 1, t, x);
    }
  }

  // ---- the flip -----------------------------------------------------------------------------

  /** A change inside the body of s is invisible to the structure of the signature. */
  lemma {:induction false} InsideSame(der: seq<byte>, at: nat, n: nat, t: nat, x: byte)
    requires Inside(der, at, n).Ecdsa? && t < |der|
    requires var s := Inside(der, at, n); s.sOffset <= t < s.sOffset + s.sBytes
    ensures Inside(der[t := x], at, n) == Inside(der, at, n)
    ensures at <= t < at + n
  {
    hide Children;
    var inner := Children(der, at, at + n).value;
    var ints := Children(der, inner[0].body, inner[0].End()).value;
    ChildrenInOrder(der, at, at + n, 0);
    ChildrenInOrder(der, inner[0].body, inner[0].End(), 1);
    ChildrenSame(der, inner[0].body, inner[0].End(), 1, t, x);
    ChildrenSame(der, at, at + n, 0, t, x);
  }

  /** A change inside the signature leaves the rest of the certificate where it was. */
  lemma {:induction false} OuterSame(der: seq<byte>, t: nat, x: byte)
    requires SignatureSpan(der).Ok? && t < |der|
    requires var p := SignatureSpan(der).value; p.signatureOffset <= t < p.signatureOffset + p.signatureBytes
    ensures var p := SignatureSpan(der).value;
            && SignatureSpan(der[t := x]) ==
               Ok(p.(algorithm := Inside(der[t := x], p.signatureOffset, p.signatureBytes)))
            && p.tbsOffset + p.tbsBytes < p.signatureOffset
  {
    hide ReadTlv, Children, Inside;
    var v := ReadTlv(der, 0).value;
    var end := v.header + v.body;
    ChildrenInOrder(der, v.header, end, 0);
    ChildrenInOrder(der, v.header, end, 2);
    TlvSame(der, 0, t, x);
    ChildrenSame(der, v.header, end, 2, t, x);
  }

  /** The byte named exists and is a byte of s exactly when s has any; flipping it leaves the
      certificate reading as it did in every field, with everything before the signature
      byte for byte the same. */
  lemma {:induction false} EcdsaFlipKeepsCertificate(der: seq<byte>)
    requires SignatureSpan(der).Ok? && SignatureSpan(der).value.algorithm.Ecdsa?
    ensures var p := SignatureSpan(der).value; var s := p.algorithm;
            && (s.sOffset <= p.Flip() < s.sOffset + s.sBytes <==> s.sBytes > 0)
            && (s.sBytes > 0 && p.Flip() < |der| ==>
                  var after := der[p.Flip() := FlipLow(der[p.Flip()])];
                  && SignatureSpan(after) == SignatureSpan(der) && after != der
                  && p.tbsOffset + p.tbsBytes < p.signatureOffset <= p.Flip()
                  && after[..p.signatureOffset] == der[..p.signatureOffset])
  {
    hide Inside;
    var p := SignatureSpan(der).value;
    var t := p.Flip();
    if p.algorithm.sBytes > 0 && t < |der| {
      var x := FlipLow(der[t]);
      SpanAlgorithm(der);
      InsideSame(der, p.signatureOffset, p.signatureBytes, t, x);
      OuterSame(der, t, x);
      assert der[t := x][t] != der[t];
    }
  }

  lemma {:induction false} SpanAlgorithm(der: seq<byte>)
    requires SignatureSpan(der).Ok?
    ensures var p := SignatureSpan(der).value; p.algorithm == Inside(der, p.signatureOffset, p.signatureBytes)
  {
    hide ReadTlv, Children, Inside;
  }

  lemma {:induction false} SWithin(der: seq<byte>, at: nat, n: nat)
    requires Inside(der, at, n).Ecdsa?
    ensures var s := Inside(der, at, n); at < s.sOffset && s.sOffset + s.sBytes <= at + n
  {
    hide Children;
    var inner := Children(der, at, at + n).value;
    ChildrenInOrder(der, at, at + n, 0);
    ChildrenInOrder(der, inner[0].body, inner[0].End(), 1);
  }

  /** In a certificate that is all there, as a bundle's are, the byte named exists. */
  lemma {:induction false} FlipIsInTheCertificate(der: seq<byte>)
    requires SignatureSpan(der).Ok? && ReadTlv(der, 0).value.header + ReadTlv(der, 0).value.body <= |der|
    requires var p := SignatureSpan(der).value; p.signatureBytes > 0 && (p.algorithm.Ecdsa? ==> p.algorithm.sBytes > 0)
    ensures var p := SignatureSpan(der).value;
            p.signatureOffset <= p.Flip() < p.signatureOffset + p.signatureBytes <= |der|
  {
    hide ReadTlv, Children, Inside;
    var p := SignatureSpan(der).value;
    var v := ReadTlv(der, 0).value;
    SpanAlgorithm(der);
    if p.algorithm.Ecdsa? {
      SWithin(der, p.signatureOffset, p.signatureBytes);
    }
    ChildrenInOrder(der, v.header, v.header + v.body, 2);
  }

  /** With no structure to go by, the outer fields stay, and the reading stays the same exactly
      when the flip does not happen to make a structure. */
  lemma {:induction false} OpaqueFlipKeepsFields(der: seq<byte>)
    requires SignatureSpan(der).Ok? && SignatureSpan(der).value.algorithm.Opaque?
    requires SignatureSpan(der).value.signatureBytes > 0 && SignatureSpan(der).value.Flip() < |der|
    ensures var p := SignatureSpan(der).value;
            var after := der[p.Flip() := FlipLow(der[p.Flip()])];
            && SignatureSpan(after).Ok?
            && SignatureSpan(after).value == p.(algorithm := SignatureSpan(after).value.algorithm)
            && (SignatureSpan(after) == SignatureSpan(der) <==>
                  Inside(after, p.signatureOffset, p.signatureBytes).Opaque?)
  {
    hide ReadTlv, Children, Inside;
    var t := SignatureSpan(der).value.Flip();
    OuterSame(der, t, FlipLow(der[t]));
  }

  /** A certificate of two empty parts and a ten-byte signature, in which a tag is left open. */
  function Small(tag: byte): seq<byte> {
    [0x30, 0x11, 0x30, 0, 0x30, 0, 0x03, 0x0B, 0, 0x30, 8, 2, 1, 1, tag, 3, 1, 2, 3]
  }

  lemma {:induction false} SmallParts(tag: byte)
    ensures Children(Small(tag), 2, 19) ==
            Ok([Child(SEQUENCE, 2, 4, 0), Child(SEQUENCE, 4, 6, 0), Child(BIT_STRING, 6, 8, 11)])
  {
    hide Children;
    var a, b, c := Child(SEQUENCE, 2, 4, 0), Child(SEQUENCE, 4, 6, 0), Child(BIT_STRING, 6, 8, 11);
    NoChild(Small(tag), 19);
    OneChild(Small(tag), 6, 19, c, []);
    OneChild(Small(tag), 4, 19, b, [c]);
    OneChild(Small(tag), 2, 19, a, [b, c]);
  }

  lemma {:induction false} SmallIntegers(tag: byte)
    requires tag == 2 || tag == 3
    ensures Children(Small(tag), 9, 19) == Ok([Child(SEQUENCE, 9, 11, 8)])
    ensures Children(Small(tag), 11, 19) == Ok([Child(INTEGER, 11, 13, 1), Child(tag, 14, 16, 3)])
  {
    hide Children;
    NoChild(Small(tag), 19);
    OneChild(Small(tag), 9, 19, Child(SEQUENCE, 9, 11, 8), []);
    OneChild(Small(tag), 14, 19, Child(tag, 14, 16, 3), []);
    OneChild(Small(tag), 11, 19, Child(INTEGER, 11, 13, 1), [Child(tag, 14, 16, 3)]);
  }

  lemma {:induction false} SmallCertificate(tag: byte)
    requires tag == 2 || tag == 3
    ensures SignatureSpan(Small(tag)) == Ok(Place(2, 2, 9, 10, if tag == INTEGER then Ecdsa(16, 3) else Opaque))
  {
    hide Children, BitLength, BE;
    SmallParts(tag);
    SmallIntegers(tag);
    assert ReadTlv(Small(tag), 0) == Ok(Tlv(SEQUENCE, 2, 17));
  }

  /** That can happen: one bit makes the second tag of this signature an INTEGER. */
  lemma {:induction false} OpaqueCanBecomeEcdsa()
    ensures var p := Place(2, 2, 9, 10, Opaque);
            && SignatureSpan(Small(3)) == Ok(p) && p.Flip() == 14
            && SignatureSpan(Small(3)[14 := FlipLow(Small(3)[14])]) == Ok(p.(algorithm := Ecdsa(16, 3)))
  {
    hide SignatureSpan;
    SmallCertificate(2);
    SmallCertificate(3);
    assert Small(3)[14 := FlipLow(3)] == Small(2);
  }

  lemma {:induction false} OneChild(buf: seq<byte>, i: nat, end: nat, c: Child, rest: seq<Child>)
    requires i + 1 < |buf| && i < end && c == Child(buf[i], i, i + 2, buf[i + 1]) && c.End() <= end
    requires buf[i + 1] < 0x80 && buf[i] % 32 != 31 && Children(buf, c.End(), end) == Ok(rest)
    ensures Children(buf, i, end) == Ok([c] + rest)
    ensures rest == [] ==> [c] + rest == [c]
    ensures |rest| == 1 ==> [c] + rest == [c, rest[0]]
    ensures |rest| == 2 ==> [c] + rest == [c, rest[0], rest[1]]
  {
  }

  lemma {:induction false} NoChild(buf: seq<byte>, end: nat)
    ensures Children(buf, end, end) == Ok([])
  {
  }
}
