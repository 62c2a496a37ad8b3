/**
 certs/check_chain.py: when flipping the middle byte of a signature without ECDSA structure
 gives it one, read from the certificate before the flip. The readers look at headers only,
 so what matters is whether one low bit of one header octet is all that is missing.
 */
module FlipExactly {
  import opened Bytes
  import opened CertificateFlip
  import opened DerWalk

  /** The tag and the length octets of a value. */
  function Header(c: Child): (h: seq<byte>)
    ensures |h| >= 2 && h[0] == c.tag
  {
    [c.tag] + DerLength(c.length)
  }

  ghost predicate Placed(buf: seq<byte>, c: Child) {
    && c.length < 0x1_0000_0000 && c.tag % 32 != 31
    && c.body == c.offset + |Header(c)| && c.body <= |buf|
  }

  /** The header of `c` stands in `buf`. */
  ghost predicate Written(buf: seq<byte>, c: Child) {
    Placed(buf, c) && buf[c.offset..c.body] == Header(c)
  }

  /** It would, were the low bit of the octet at `t`, one of its own, the other way. */
  ghost predicate OneBitOff(buf: seq<byte>, c: Child, t: nat) {
    && Placed(buf, c) && c.offset <= t < c.body
    && buf[c.offset..c.body] == Header(c)[t - c.offset := FlipLow(Header(c)[t - c.offset])]
  }

  ghost predicate AllWritten(buf: seq<byte>, cs: seq<Child>) {
    forall k :: 0 <= k < |cs| ==> Written(buf, cs[k])
  }

  /** The values fill the container from `i` to `end` without a gap. */
  ghost predicate Stands(cs: seq<Child>, i: nat, end: nat)
    decreases |cs|
  {
    if cs == [] then i == end
    else cs[0].offset == i < cs[0].body && cs[0].End() <= end && Stands(cs[1..], cs[0].End(), end)
  }

  /** An ECDSA-Sig-Value in the `n` bytes at `at`: a SEQUENCE of two INTEGERs, and whatever
      values stand behind it. */
  ghost predicate SigValue(at: nat, n: nat, inner: seq<Child>, ints: seq<Child>) {
    && Stands(inner, at, at + n) && inner != [] && inner[0].tag == SEQUENCE
    && Stands(ints, inner[0].body, inner[0].End())
    && |ints| == 2 && ints[0].tag == INTEGER && ints[1].tag == INTEGER
  }

  // ---- what is read is what is written --------------------------------------------------

  lemma {:induction false} ReadIsWritten(buf: seq<byte>, i: nat)
    requires ReadTlv(buf, i).Ok?
    ensures Written(buf, ChildAt(ReadTlv(buf, i).value, i))
  {
    hide ReadTlv, DerLength;
    ReadLength(buf, i);
    var c := ChildAt(ReadTlv(buf, i).value, i);
    assert buf[i..c.body] == [buf[i]] + buf[i + 1..c.body];
  }

  lemma {:induction false} WrittenIsRead(buf: seq<byte>, c: Child)
    requires Written(buf, c)
    ensures ReadTlv(buf, c.offset) == Ok(Tlv(c.tag, c.body - c.offset, c.length))
  {
    hide ReadTlv, DerLength;
    HeaderReads(buf, c.offset, c.tag, c.length);
  }

  /** The children read are the values that fill the container and are written there. */
  lemma {:induction false} ChildrenRead(buf: seq<byte>, i: nat, end: nat)
    requires i <= end && Children(buf, i, end).Ok?
    ensures Stands(Children(buf, i, end).value, i, end) && AllWritten(buf, Children(buf, i, end).value)
    decreases end - i
  {
    hide ReadTlv, Written;
    HeaderIsTwoOrMore(buf, i);
    if i < end {
      ReadIsWritten(buf, i);
      var c := ChildAt(ReadTlv(buf, i).value, i);
      ChildrenRead(buf, c.End(), end);
      var rest := Children(buf, c.End(), end).value;
      assert Children(buf, i, end).value == [c] + rest && ([c] + rest)[1..] == rest;
    }
  }

  lemma {:induction false} ChildrenWritten(buf: seq<byte>, i: nat, end: nat, cs: seq<Child>)
    requires Stands(cs, i, end) && AllWritten(buf, cs)
    ensures Children(buf, i, end) == Ok(cs)
    decreases |cs|
  {
    hide ReadTlv, Written;
    if cs != [] {
      var c := cs[0];
      WrittenIsRead(buf, c);
      HeaderIsTwoOrMore(buf, i);
      ChildrenWritten(buf, c.End(), end, cs[1..]);
      assert [c] + cs[1..] == cs;
      StandsInside(cs, i, end);
    }
  }

  lemma {:induction false} StandsInside(cs: seq<Child>, i: nat, end: nat)
    requires Stands(cs, i, end)
    ensures i <= end && (cs != [] ==> i < end)
    decreases |cs|
  {
    if cs != [] {
      StandsInside(cs[1..], cs[0].End(), end);
    }
  }

  /** The structure is read exactly when there is one whose headers are all written. */
  lemma {:induction false} InsideExactly(buf: seq<byte>, at: nat, n: nat)
    ensures Inside(buf, at, n).Ecdsa? <==>
            exists inner, ints :: SigValue(at, n, inner, ints) && AllWritten(buf, inner + ints)
  {
    hide Children, Written, Stands;
    if Inside(buf, at, n).Ecdsa? {
      var inner := Children(buf, at, at + n).value;
      var ints := Children(buf, inner[0].body, inner[0].End()).value;
      ChildrenRead(buf, at, at + n);
      ChildrenRead(buf, inner[0].body, inner[0].End());
      assert SigValue(at, n, inner, ints) && AllWritten(buf, inner + ints);
    }
    if inner: seq<Child>, ints: seq<Child> :| SigValue(at, n, inner, ints) && AllWritten(buf, inner + ints) {
      Both(buf, inner, ints);
      ChildrenWritten(buf, at, at + n, inner);
      ChildrenWritten(buf, inner[0].body, inner[0].End(), ints);
    }
  }

  lemma {:induction false} Both(buf: seq<byte>, a: seq<Child>, b: seq<Child>)
    ensures AllWritten(buf, a + b) <==> AllWritten(buf, a) && AllWritten(buf, b)
  {
    hide Written;
    if AllWritten(buf, a + b) {
      forall k | 0 <= k < |a| ensures Written(buf, a[k]) { assert (a + b)[k] == a[k]; }
      forall k | 0 <= k < |b| ensures Written(buf, b[k]) { assert (a + b)[|a| + k] == b[k]; }
    }
  }

  // ---- no octet is in two headers ----------------------------------------------------------

  ghost predicate In(c: Child, t: nat) { c.offset <= t < c.body }

  lemma {:induction false} StandsApart(cs: seq<Child>, i: nat, end: nat, j: nat, k: nat)
    requires Stands(cs, i, end) && j < |cs| && k < |cs| && j != k
    ensures i <= cs[j].offset < cs[j].body <= cs[j].End() <= end
    ensures cs[j].End() <= cs[k].offset || cs[k].End() <= cs[j].offset
    decreases |cs|
  {
    StandsInside(cs, i, end);
    StandsAt(cs, i, end, j);
    StandsAt(cs, i, end, k);
    if j > 0 && k > 0 {
      StandsApart(cs[1..], cs[0].End(), end, j - 1, k - 1);
    } else {
      var m := if j > 0 then j else k;
      StandsAt(cs[1..], cs[0].End(), end, m - 1);
    }
  }

  lemma {:induction false} StandsAt(cs: seq<Child>, i: nat, end: nat, j: nat)
    requires Stands(cs, i, end) && j < |cs|
    ensures i <= cs[j].offset < cs[j].body <= cs[j].End() <= end
    decreases |cs|
  {
    if j > 0 {
      StandsAt(cs[1..], cs[0].End(), end, j - 1);
    }
  }

  lemma {:induction false} HeadersApart(at: nat, n: nat, inner: seq<Child>, ints: seq<Child>, j: nat, k: nat, t: nat)
    requires SigValue(at, n, inner, ints) && j < |inner + ints| && k < |inner + ints| && j != k
    ensures !(In((inner + ints)[j], t) && In((inner + ints)[k], t))
  {
    hide Stands;
    var (lo, hi) := if j < k then (j, k) else (k, j);
    if hi < |inner| {
      StandsApart(inner, at, at + n, lo, hi);
    } else {
      StandsAt(ints, inner[0].body, inner[0].End(), hi - |inner|);
      if lo >= |inner| {
        StandsApart(ints, inner[0].body, inner[0].End(), lo - |inner|, hi - |inner|);
      } else if lo > 0 {
        StandsApart(inner, at, at + n, 0, lo);
      }
    }
  }

  // ---- the flip ------------------------------------------------------------------------------

  lemma {:induction false} FlipTwice(b: byte)
    ensures FlipLow(FlipLow(b)) == b
  {
  }

  lemma {:induction false} WrittenAfter(buf: seq<byte>, c: Child, t: nat)
    requires t < |buf|
    ensures Written(buf[t := FlipLow(buf[t])], c) <==> if In(c, t) then OneBitOff(buf, c, t) else Written(buf, c)
  {
    hide DerLength, Header;
    var after := buf[t := FlipLow(buf[t])];
    if Placed(buf, c) {
      var was, now := buf[c.offset..c.body], after[c.offset..c.body];
      if In(c, t) {
        var k := t - c.offset;
        FlipTwice(buf[t]);
        FlipTwice(Header(c)[k]);
        assert now == was[k := FlipLow(was[k])] && was == now[k := FlipLow(now[k])];
      } else {
        assert now == was;
      }
    }
  }

  /** One header is one bit off at `t` and the others are written. */
  ghost predicate NearlyWritten(buf: seq<byte>, cs: seq<Child>, t: nat) {
    exists k :: 0 <= k < |cs| && OneBitOff(buf, cs[k], t)
                && forall j :: 0 <= j < |cs| && j != k ==> Written(buf, cs[j])
  }

  lemma {:induction false} AllAfter(buf: seq<byte>, at: nat, n: nat, inner: seq<Child>, ints: seq<Child>, t: nat)
    requires t < |buf| && SigValue(at, n, inner, ints)
    ensures AllWritten(buf[t := FlipLow(buf[t])], inner + ints)
            <==> NearlyWritten(buf, inner + ints, t)
                 || (AllWritten(buf, inner + ints) && forall k :: 0 <= k < |inner + ints| ==> !In((inner + ints)[k], t))
  {
    hide Written, Placed, SigValue, Stands;
    var after, cs := buf[t := FlipLow(buf[t])], inner + ints;
    forall k | 0 <= k < |cs|
      ensures Written(after, cs[k]) <==> if In(cs[k], t) then OneBitOff(buf, cs[k], t) else Written(buf, cs[k])
    {
      WrittenAfter(buf, cs[k], t);
    }
    if k :| 0 <= k < |cs| && In(cs[k], t) {
      forall j | 0 <= j < |cs| && j != k
        ensures !In(cs[j], t)
      {
        HeadersApart(at, n, inner, ints, j, k, t);
      }
      if AllWritten(after, cs) {
        assert OneBitOff(buf, cs[k], t);
        forall j | 0 <= j < |cs| && j != k
          ensures Written(buf, cs[j])
        {
          assert Written(after, cs[j]);
        }
      }
    }
  }

  /** The bytes would be an ECDSA-Sig-Value, were one low bit of one header octet, at `t`, the
      other way. */
  ghost predicate OneBitShort(der: seq<byte>, at: nat, n: nat, t: nat) {
    exists inner, ints :: SigValue(at, n, inner, ints) && NearlyWritten(der, inner + ints, t)
  }

  lemma {:induction false} BecomesExactly(der: seq<byte>, at: nat, n: nat, t: nat)
    requires t < |der| && Inside(der, at, n).Opaque?
    ensures Inside(der[t := FlipLow(der[t])], at, n).Ecdsa? <==> OneBitShort(der, at, n, t)
  {
    hide Inside, SigValue, AllWritten, NearlyWritten;
    var after := der[t := FlipLow(der[t])];
    InsideExactly(der, at, n);
    InsideExactly(after, at, n);
    if inner: seq<Child>, ints: seq<Child> :| SigValue(at, n, inner, ints) && AllWritten(after, inner + ints) {
      AllAfter(der, at, n, inner, ints, t);
    }
    if inner: seq<Child>, ints: seq<Child> :| SigValue(at, n, inner, ints) && NearlyWritten(der, inner + ints, t) {
      AllAfter(der, at, n, inner, ints, t);
    }
  }

  /** The flip changes how the certificate reads exactly when the signature is an
      ECDSA-Sig-Value but for the low bit of the one header octet the flip falls on. */
  lemma {:induction false} OpaqueFlipExactly(der: seq<byte>)
    requires SignatureSpan(der).Ok? && SignatureSpan(der).value.algorithm.Opaque?
    requires SignatureSpan(der).value.signatureBytes > 0 && SignatureSpan(der).value.Flip() < |der|
    ensures var p := SignatureSpan(der).value;
            SignatureSpan(der[p.Flip() := FlipLow(der[p.Flip()])]) != SignatureSpan(der) <==>
            OneBitShort(der, p.signatureOffset, p.signatureBytes, p.Flip())
  {
    hide ReadTlv, Children, Inside, OneBitShort;
    var p := SignatureSpan(der).value;
    SpanAlgorithm(der);
    OpaqueFlipKeepsFields(der);
    BecomesExactly(der, p.signatureOffset, p.signatureBytes, p.Flip());
  }

  lemma {:induction false} FirstOctet(der: seq<byte>, at: nat, n: nat)
    requires OneBitShort(der, at, n, at + n / 2)
    ensures at < |der| && der[at] == SEQUENCE
  {
    hide DerLength, Header;
    var inner: seq<Child>, ints: seq<Child> :|
      SigValue(at, n, inner, ints) && NearlyWritten(der, inner + ints, at + n / 2);
    var c := inner[0];
    assert (inner + ints)[0] == c;
    assert der[c.offset] == der[c.offset..c.body][0];
  }

  /** So a signature that does not begin with the tag of a SEQUENCE is safe. */
  lemma {:induction false} NoSequenceNoChange(der: seq<byte>)
    requires SignatureSpan(der).Ok? && SignatureSpan(der).value.algorithm.Opaque?
    requires SignatureSpan(der).value.signatureBytes > 0 && SignatureSpan(der).value.Flip() < |der|
    requires der[SignatureSpan(der).value.signatureOffset] != SEQUENCE
    ensures var p := SignatureSpan(der).value;
            SignatureSpan(der[p.Flip() := FlipLow(der[p.Flip()])]) == SignatureSpan(der)
  {
    hide SignatureSpan, OneBitShort;
    OpaqueFlipExactly(der);
    var p := SignatureSpan(der).value;
    if OneBitShort(der, p.signatureOffset, p.signatureBytes, p.Flip()) {
      FirstOctet(der, p.signatureOffset, p.signatureBytes);
    }
  }
}
