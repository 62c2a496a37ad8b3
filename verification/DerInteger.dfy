/**
 rats/cose.py and harness/challenge_verify.py: an ECDSA signature as the two integers side by
 side, each padded to the curve's width (RFC 8152, section 8.1), and as the DER SEQUENCE of
 two INTEGERs OpenSSL speaks (X.690, section 8.3).
 */
module DerInteger {
  import opened Bytes

  datatype Error = OddLength | TooLong | NotSequence | NotInteger | TooWide | IndexOutOfRange

  datatype Result<+T> = Ok(value: T) | Err(error: Error)

  /** `v.lstrip(b"\x00")` */
  function Strip(v: seq<byte>): seq<byte> {
    if v != [] && v[0] == 0 then Strip(v[1..]) else v
  }

  function Zeros(n: nat): (z: seq<byte>)
    ensures |z| == n
  {
    if n == 0 then [] else [0] + Zeros(n - 1)
  }

  /** The contents of the INTEGER for a big-endian magnitude. */
  function Contents(v: seq<byte>): (c: seq<byte>)
    ensures c != []
  {
    var s := Strip(v);
    if s == [] then [0] else if s[0] >= 0x80 then [0] + s else s
  }

  /** `_der_int`; the length must fit the single byte it is written in. */
  function DerInt(v: seq<byte>): Result<seq<byte>> {
    var c := Contents(v);
    if |c| > 0xFF then Err(TooLong) else Ok([0x02, |c|] + c)
  }

  /** `_der_len` */
  function DerLen(n: nat): Result<seq<byte>> {
    if n < 0x80 then Ok([n]) else if n > 0xFF then Err(TooLong) else Ok([0x81, n])
  }

  /** `raw_to_der` of rats/cose.py. */
  function RawToDer(raw: seq<byte>): Result<seq<byte>> {
    if |raw| % 2 != 0 then Err(OddLength)
    else
      var half := |raw| / 2;
      match DerInt(raw[..half])
      case Err(e) => Err(e)
      case Ok(r) =>
        match DerInt(raw[half..])
        case Err(e) => Err(e)
        case Ok(s) =>
          match DerLen(|r + s|)
          case Err(e) => Err(e)
          case Ok(n) => Ok([0x30] + n + (r + s))
  }

  /** One step of the loop of `der_to_raw`: the integer at `off`, padded, and what follows. */
  function ReadInt(der: seq<byte>, off: nat, half: nat): Result<(seq<byte>, nat)> {
    if off >= |der| then Err(IndexOutOfRange)
    else if der[off] != 0x02 then Err(NotInteger)
    else if off + 1 >= |der| then Err(IndexOutOfRange)
    else
      var n := der[off + 1];
      var v := Strip(Slice(der, off + 2, off + 2 + n));
      if |v| > half then Err(TooWide) else Ok((Zeros(half - |v|) + v, off + 2 + n))
  }

  /** `count` more integers, after those already in `out`. */
  function ReadInts(der: seq<byte>, off: nat, half: nat, count: nat, out: seq<byte>): Result<seq<byte>>
    decreases count
  {
    if count == 0 then Ok(out)
    else match ReadInt(der, off, half)
      case Err(e) => Err(e)
      case Ok((v, next)) => ReadInts(der, next, half, count - 1, out + v)
  }

  function RawFromDer(der: seq<byte>, half: nat): Result<seq<byte>> {
    if der == [] || der[0] != 0x30 then Err(NotSequence)
    else if |der| < 2 then Err(IndexOutOfRange)
    else ReadInts(der, if der[1] < 0x80 then 2 else 3, half, 2, [])
  }

  /** `der_to_raw`, with its loop. */
  method DerToRaw(der: seq<byte>, half: nat) returns (raw: Result<seq<byte>>)
    ensures raw == RawFromDer(der, half)
  {
    hide Strip, Zeros;
    if der == [] || der[0] != 0x30 {
      return Err(NotSequence);
    }
    if |der| < 2 {
      return Err(IndexOutOfRange);
    }
    var off: nat := if der[1] < 0x80 then 2 else 3;
    var out := [];
    for i := 0 to 2
      invariant RawFromDer(der, half) == ReadInts(der, off, half, 2 - i, out)
    {
      if off >= |der| {
        return Err(IndexOutOfRange);
      }
      if der[off] != 0x02 {
        return Err(NotInteger);
      }
      if off + 1 >= |der| {
        return Err(IndexOutOfRange);
      }
      var n := der[off + 1];
      var v := Strip(Slice(der, off + 2, off + 2 + n));
      if |v| > half {
        return Err(TooWide);
      }
      out := out + (Zeros(half - |v|) + v);
      off := off + 2 + n;
    }
    raw := Ok(out);
  }

  /** `raw_to_der` of harness/challenge_verify.py: no length check, one branch for the header. */
  function SecondRawToDer(sig: seq<byte>): Result<seq<byte>> {
    var half := |sig| / 2;
    match SecondInteger(sig[..half])
    case Err(e) => Err(e)
    case Ok(r) =>
      match SecondInteger(sig[half..])
      case Err(e) => Err(e)
      case Ok(s) =>
        var body := r + s;
        if |body| < 0x80 then Ok([0x30, |body|] + body)
        else if |body| > 0xFF then Err(TooLong)
        else Ok([0x30, 0x81, |body|] + body)
  }

  function SecondInteger(v: seq<byte>): Result<seq<byte>> {
    var s := if Strip(v) == [] then [0] else Strip(v);
    var padded := if s[0] >= 0x80 then [0] + s else s;
    if |padded| > 0xFF then Err(TooLong) else Ok([0x02, |padded|] + padded)
  }

  // ---- one integer ----------------------------------------------------------------

  /** X.690, section 8.3.2, for non-negative values: nonempty, top bit clear, no byte to spare. */
  predicate Minimal(c: seq<byte>) {
    c != [] && c[0] < 0x80 && (|c| > 1 && c[0] == 0 ==> c[1] >= 0x80)
  }

  lemma {:induction false} StripValue(v: seq<byte>)
    ensures BE(Strip(v)) == BE(v) && |Strip(v)| <= |v|
    ensures Strip(v) == [] || Strip(v)[0] != 0
    ensures Zeros(|v| - |Strip(v)|) + Strip(v) == v
  {
    if v != [] && v[0] == 0 {
      StripValue(v[1..]);
      LeadingZero(v[1..]);
      assert [0] + v[1..] == v;
      Assoc([0], Zeros(|v[1..]| - |Strip(v[1..])|), Strip(v[1..]));
    }
  }

  lemma {:induction false} LeadingZero(v: seq<byte>)
    ensures BE([0] + v) == BE(v)
  {
    var z := [0] + v;
    if v == [] {
      assert z[..0] == [];
    } else {
      LeadingZero(v[..|v| - 1]);
      assert z[..|z| - 1] == [0] + v[..|v| - 1];
    }
  }

  /** What `_der_int` writes is the minimal non-negative INTEGER of the same value. */
  lemma {:induction false} ContentsAreMinimal(v: seq<byte>)
    ensures Minimal(Contents(v)) && BE(Contents(v)) == BE(v) && |Contents(v)| <= |v| + 1
    ensures Strip(Contents(v)) == Strip(v)
  {
    StripValue(v);
    var s := Strip(v);
    LeadingZero(s);
    assert [0][..0] == [];
    if s != [] {
      assert ([0] + s)[1..] == s;
      StripNothing(s);
    }
  }

  lemma {:induction false} StripNothing(s: seq<byte>)
    requires s == [] || s[0] != 0
    ensures Strip(s) == s
  {
  }

  lemma {:induction false} StripZeros(n: nat, s: seq<byte>)
    ensures Strip(Zeros(n) + s) == Strip(s)
  {
    if n == 0 {
      assert Zeros(0) + s == s;
    } else {
      StripZeros(n - 1, s);
      assert (Zeros(n) + s)[1..] == Zeros(n - 1) + s;
    }
  }

  /** Minimal contents are the only ones `_der_int` writes for their value. */
  lemma {:induction false} MinimalIsContents(c: seq<byte>)
    requires Minimal(c)
    ensures Contents(Strip(c)) == c
  {
    if c[0] == 0 {
      if |c| == 1 {
        assert c == [0] && Strip(c[1..]) == [];
      } else {
        StripNothing(c[1..]);
        assert c == [0] + c[1..];
      }
    }
    StripValue(c);
    StripNothing(Strip(c));
  }

  lemma {:induction false} ReadsInt(der: seq<byte>, off: nat, c: seq<byte>, half: nat)
    requires off + 2 + |c| <= |der| && |c| <= 0xFF && |Strip(c)| <= half
    requires der[off..off + 2 + |c|] == [0x02, |c|] + c
    ensures ReadInt(der, off, half) == Ok((Zeros(half - |Strip(c)|) + Strip(c), off + 2 + |c|))
  {
    var d := der[off..off + 2 + |c|];
    assert d[0] == der[off] && d[1] == der[off + 1];
    assert der[off + 2..off + 2 + |c|] == d[2..] == c;
  }

  // ---- whole signatures -----------------------------------------------------------

  /** A signature in DER with single-byte INTEGER lengths. */
  function Signature(r: seq<byte>, s: seq<byte>): Result<seq<byte>>
    requires |r| <= 0xFF && |s| <= 0xFF
  {
    var body := ([0x02, |r|] + r) + ([0x02, |s|] + s);
    match DerLen(|body|)
    case Err(e) => Err(e)
    case Ok(n) => Ok([0x30] + n + body)
  }

  lemma {:induction false} ReadsSignature(r: seq<byte>, s: seq<byte>, half: nat)
    requires |r| <= 0xFF && |s| <= 0xFF && Signature(r, s).Ok?
    requires |Strip(r)| <= half && |Strip(s)| <= half
    ensures RawFromDer(Signature(r, s).value, half)
         == Ok((Zeros(half - |Strip(r)|) + Strip(r)) + (Zeros(half - |Strip(s)|) + Strip(s)))
  {
    hide Strip, Zeros, ReadInt;
    var der := Signature(r, s).value;
    var rr, ss := [0x02, |r|] + r, [0x02, |s|] + s;
    var off := if der[1] < 0x80 then 2 else 3;
    assert |der| == off + |rr| + |ss|;
    assert der[off..off + |rr|] == rr;
    assert der[off + |rr|..] == ss && der[off + |rr|..off + |rr| + |ss|] == ss;
    ReadsInt(der, off, r, half);
    ReadsInt(der, off + |rr|, s, half);
    var rPadded, sPadded := Zeros(half - |Strip(r)|) + Strip(r), Zeros(half - |Strip(s)|) + Strip(s);
    assert [] + rPadded == rPadded;
    assert ReadInts(der, off + |rr|, half, 1, rPadded) == ReadInts(der, |der|, half, 0, rPadded + sPadded);
  }

  lemma {:induction false} RawToDerIsSignature(raw: seq<byte>)
    requires |raw| % 2 == 0 && RawToDer(raw).Ok?
    ensures var half := |raw| / 2;
            var r, s := Contents(raw[..half]), Contents(raw[half..]);
            |r| <= 0xFF && |s| <= 0xFF && Signature(r, s) == RawToDer(raw)
  {
  }

  /** From raw to DER and back: whenever the DER can be written at all, nothing is lost. */
  lemma {:induction false} DerToRawInverts(raw: seq<byte>)
    requires RawToDer(raw).Ok?
    ensures RawFromDer(RawToDer(raw).value, |raw| / 2) == Ok(raw)
  {
    hide RawFromDer, Signature, Contents, Strip, Zeros;
    var half := |raw| / 2;
    var r, s := raw[..half], raw[half..];
    RawToDerIsSignature(raw);
    ContentsAreMinimal(r);
    ContentsAreMinimal(s);
    StripValue(r);
    StripValue(s);
    ReadsSignature(Contents(r), Contents(s), half);
    assert raw == r + s;
  }

  /** It can be written exactly when the two INTEGERs, their tags and lengths with them, come to
      at most 255 bytes. */
  lemma {:induction false} WritableExactly(raw: seq<byte>)
    ensures RawToDer(raw).Ok? <==>
            && |raw| % 2 == 0
            && 4 + |Contents(raw[..|raw| / 2])| + |Contents(raw[|raw| / 2..])| <= 255
  {
    hide Contents;
  }

  /** So it can for every curve of up to 124 bytes. */
  lemma {:induction false} HalvesOf124Fit(raw: seq<byte>)
    requires |raw| % 2 == 0 && |raw| <= 2 * 124
    ensures RawToDer(raw).Ok?
  {
    hide Contents;
    WritableExactly(raw);
    ContentsAreMinimal(raw[..|raw| / 2]);
    ContentsAreMinimal(raw[|raw| / 2..]);
  }

  /** A signature as DER requires it: two minimal non-negative integers that fit the curve. */
  ghost predicate Canonical(der: seq<byte>, r: seq<byte>, s: seq<byte>, half: nat) {
    && Minimal(r) && Minimal(s) && |r| <= 0xFF && |s| <= 0xFF
    && |Strip(r)| <= half && |Strip(s)| <= half
    && Signature(r, s) == Ok(der)
  }

  /** From canonical DER to raw and back: the identical bytes, of the fixed width. */
  lemma {:induction false} RawToDerInverts(der: seq<byte>, r: seq<byte>, s: seq<byte>, half: nat)
    requires Canonical(der, r, s, half)
    ensures RawFromDer(der, half).Ok? && |RawFromDer(der, half).value| == 2 * half
    ensures RawToDer(RawFromDer(der, half).value) == Ok(der)
  {
    hide RawFromDer, Strip, Zeros, Minimal;
    ReadsSignature(r, s, half);
    var rr, ss := Zeros(half - |Strip(r)|) + Strip(r), Zeros(half - |Strip(s)|) + Strip(s);
    var raw := RawFromDer(der, half).value;
    assert raw == rr + ss && raw[..half] == rr && raw[half..] == ss;
    PaddedContents(r, half);
    PaddedContents(s, half);
  }

  lemma {:induction false} PaddedContents(c: seq<byte>, half: nat)
    requires Minimal(c) && |Strip(c)| <= half
    ensures Contents(Zeros(half - |Strip(c)|) + Strip(c)) == c
  {
    StripZeros(half - |Strip(c)|, Strip(c));
    StripValue(c);
    StripNothing(Strip(c));
    MinimalIsContents(c);
  }

  /** The second converter: the same on every even length; only the first refuses odd ones. */
  lemma {:induction false} ConvertersAgree(raw: seq<byte>)
    ensures |raw| % 2 == 0 ==> SecondRawToDer(raw) == RawToDer(raw)
    ensures |raw| % 2 == 1 ==> RawToDer(raw) == Err(OddLength)
  {
    hide Strip;
    var half := |raw| / 2;
    IntegersAgree(raw[..half]);
    IntegersAgree(raw[half..]);
    if SecondInteger(raw[..half]).Ok? && SecondInteger(raw[half..]).Ok? {
      var body := SecondInteger(raw[..half]).value + SecondInteger(raw[half..]).value;
      if |body| < 0x80 {
        assert [0x30] + [|body|] + body == [0x30, |body|] + body;
      } else if |body| <= 0xFF {
        assert [0x30] + [0x81, |body|] + body == [0x30, 0x81, |body|] + body;
      }
    }
  }

  lemma {:induction false} IntegersAgree(v: seq<byte>)
    ensures SecondInteger(v) == DerInt(v)
  {
  }
}
