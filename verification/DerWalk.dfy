/**
 Three readers of one format: certs/check_chain.py, harness/fields.py and
 harness/challenge_verify.py each split a certificate bundle into its top-level DER SEQUENCEs
 (X.690, sections 8.1.3 and 10.1). Two are strict, one is lenient.
 */
module DerWalk {
  import opened Bytes

  const SEQUENCE: byte := 0x30

  datatype Result<+T> = Ok(value: T) | Refused | IndexError

  /** Where one element stands: its offset and its whole length. */
  datatype Span = Span(offset: nat, length: nat)

  /** `n.bit_length()` */
  function BitLength(n: nat): nat {
    if n == 0 then 0 else 1 + BitLength(n / 2)
  }

  function Max(a: nat, b: nat): nat { if a >= b then a else b }

  // ---- certs/check_chain.py ---------------------------------------------------------

  datatype Tlv = Tlv(tag: byte, header: nat, body: nat)

  /** `der_tlv` */
  function ReadTlv(buf: seq<byte>, i: nat): Result<Tlv> {
    if i >= |buf| then Refused
    else if buf[i] % 32 == 31 then Refused
    else if i + 1 >= |buf| then Refused
    else
      var lead := buf[i + 1];
      if lead < 0x80 then Ok(Tlv(buf[i], 2, lead))
      else if lead == 0x80 then Refused
      else
        var count := lead - 0x80;
        if count > 4 || i + 2 + count > |buf| then Refused
        else
          var body := BE(buf[i + 2..i + 2 + count]);
          if body < 0x80 || count != Max(1, (BitLength(body) + 7) / 8) then Refused
          else Ok(Tlv(buf[i], 2 + count, body))
  }

  /** One turn of the loop of `der_sequences`: the length of the SEQUENCE at `i`. */
  function ChainStep(buf: seq<byte>, i: nat): (r: Result<nat>)
    ensures r.Ok? ==> 0 < r.value && i + r.value <= |buf|
  {
    match ReadTlv(buf, i)
    case Ok(t) =>
      if t.tag != SEQUENCE then Refused
      else if i + t.header + t.body > |buf| then Refused
      else Ok(t.header + t.body)
    case Refused => Refused
    case IndexError => IndexError
  }

  // ---- harness/fields.py ------------------------------------------------------------

  /** One turn of the loop of `_der_sequences`. */
  function FieldsStep(buf: seq<byte>, i: nat): (r: Result<nat>)
    requires i < |buf|
    ensures r.Ok? ==> 0 < r.value && i + r.value <= |buf|
  {
    if buf[i] != SEQUENCE then Refused
    else if i + 1 >= |buf| then Refused
    else
      var lead := buf[i + 1];
      if lead < 0x80 then FieldsFits(buf, i, 2, lead)
      else if lead == 0x80 then Refused
      else
        var count := lead - 0x80;
        if count > 4 then Refused
        else if i + 2 + count > |buf| then Refused
        else
          var body := BE(buf[i + 2..i + 2 + count]);
          if body < 0x80 || count != Max(1, (BitLength(body) + 7) / 8) then Refused
          else FieldsFits(buf, i, 2 + count, body)
  }

  function FieldsFits(buf: seq<byte>, i: nat, header: nat, body: nat): Result<nat> {
    if i + header + body > |buf| then Refused else Ok(header + body)
  }

  // ---- harness/challenge_verify.py ----------------------------------------------------

  /** One turn of the loop of `der_certificates`; Refused is its `break`. */
  function LenientStep(blob: seq<byte>, off: nat): (r: Result<nat>)
    requires off < |blob|
    ensures r.Ok? ==> 0 < r.value && off + r.value <= |blob|
  {
    if blob[off] != SEQUENCE then Refused
    else if off + 1 >= |blob| then IndexError
    else
      var n := blob[off + 1];
      if n < 0x80 then
        if off + 2 + n > |blob| then Refused else Ok(2 + n)
      else
        var k := n - 0x80;
        if k == 0 || off + 2 + k > |blob| then Refused
        else
          var length := BE(blob[off + 2..off + 2 + k]);
          if off + 2 + k + length > |blob| then Refused else Ok(2 + k + length)
  }

  // ---- the three loops ----------------------------------------------------------------

  function ChainFrom(buf: seq<byte>, i: nat, out: seq<Span>): Result<seq<Span>>
    requires i <= |buf|
    decreases |buf| - i
  {
    if i == |buf| then (if out == [] then Refused else Ok(out))
    else match ChainStep(buf, i)
      case Ok(n) => ChainFrom(buf, i + n, out + [Span(i, n)])
      case Refused => Refused
      case IndexError => IndexError
  }

  function FieldsFrom(buf: seq<byte>, i: nat, out: seq<Span>): Result<seq<Span>>
    requires i <= |buf|
    decreases |buf| - i
  {
    if i == |buf| then (if out == [] then Refused else Ok(out))
    else match FieldsStep(buf, i)
      case Ok(n) => FieldsFrom(buf, i + n, out + [Span(i, n)])
      case Refused => Refused
      case IndexError => IndexError
  }

  function LenientFrom(blob: seq<byte>, off: nat, out: seq<seq<byte>>): Result<seq<seq<byte>>>
    requires off <= |blob|
    decreases |blob| - off
  {
    if off == |blob| then Ok(out)
    else match LenientStep(blob, off)
      case Ok(n) => LenientFrom(blob, off + n, out + [blob[off..off + n]])
      case Refused => Ok(out)
      case IndexError => IndexError
  }

  /** `der_sequences` */
  method ChainSequences(buf: seq<byte>) returns (r: Result<seq<Span>>)
    ensures r == ChainFrom(buf, 0, [])
  {
    hide BitLength, BE;
    var out, i := [], 0;
    while i < |buf|
      invariant i <= |buf| && ChainFrom(buf, 0, []) == ChainFrom(buf, i, out)
    {
      var tlv := ReadTlv(buf, i);
      if !tlv.Ok? {
        return Refused;
      }
      var t := tlv.value;
      if t.tag != SEQUENCE {
        return Refused;
      }
      if i + t.header + t.body > |buf| {
        return Refused;
      }
      out := out + [Span(i, t.header + t.body)];
      i := i + t.header + t.body;
    }
    if out == [] {
      return Refused;
    }
    r := Ok(out);
  }

  /** `_der_sequences` */
  method FieldsSequences(buf: seq<byte>) returns (r: Result<seq<Span>>)
    ensures r == FieldsFrom(buf, 0, [])
  {
    hide BitLength, BE;
    var out, i, n := [], 0, |buf|;
    while i < n
      invariant i <= n && FieldsFrom(buf, 0, []) == FieldsFrom(buf, i, out)
    {
      if buf[i] != SEQUENCE {
        return Refused;
      }
      if i + 1 >= n {
        return Refused;
      }
      var lead := buf[i + 1];
      var body, header;
      if lead < 0x80 {
        body, header := lead, 2;
      } else if lead == 0x80 {
        return Refused;
      } else {
        var count := lead - 0x80;
        if count > 4 {
          return Refused;
        }
        if i + 2 + count > n {
          return Refused;
        }
        body := BE(buf[i + 2..i + 2 + count]);
        header := 2 + count;
        if body < 0x80 || count != Max(1, (BitLength(body) + 7) / 8) {
          return Refused;
        }
      }
      if i + header + body > n {
        return Refused;
      }
      out := out + [Span(i, header + body)];
      i := i + header + body;
    }
    if out == [] {
      return Refused;
    }
    r := Ok(out);
  }

  /** `der_certificates` */
  method LenientCertificates(blob: seq<byte>) returns (r: Result<seq<seq<byte>>>)
    ensures r == LenientFrom(blob, 0, [])
  {
    hide BitLength, BE;
    var out, off := [], 0;
    while off < |blob|
      invariant off <= |blob| && LenientFrom(blob, 0, []) == LenientFrom(blob, off, out)
    {
      if blob[off] != SEQUENCE {
        return Ok(out);
      }
      if off + 1 >= |blob| {
        return IndexError;
      }
      var n := blob[off + 1];
      var hdr, length;
      if n < 0x80 {
        hdr, length := 2, n;
      } else {
        var k := n - 0x80;
        if k == 0 || off + 2 + k > |blob| {
          return Ok(out);
        }
        hdr, length := 2 + k, BE(blob[off + 2..off + 2 + k]);
      }
      if off + hdr + length > |blob| {
        return Ok(out);
      }
      out := out + [blob[off..off + hdr + length]];
      off := off + hdr + length;
    }
    r := Ok(out);
  }

  // ---- agreement ----------------------------------------------------------------------

  lemma {:induction false} StepsAgree(buf: seq<byte>, i: nat)
    requires i < |buf|
    ensures ChainStep(buf, i) == FieldsStep(buf, i)
    ensures ChainStep(buf, i).Ok? ==> LenientStep(buf, i) == ChainStep(buf, i)
  {
    hide BitLength, BE;
  }

  function Slices(buf: seq<byte>, spans: seq<Span>): seq<seq<byte>> {
    if spans == [] then [] else
      [Slice(buf, spans[0].offset, spans[0].offset + spans[0].length)] + Slices(buf, spans[1..])
  }

  lemma {:induction false} SlicesAppend(buf: seq<byte>, spans: seq<Span>, s: Span)
    ensures Slices(buf, spans + [s]) == Slices(buf, spans) + [Slice(buf, s.offset, s.offset + s.length)]
  {
    if spans != [] {
      SlicesAppend(buf, spans[1..], s);
      assert (spans + [s])[1..] == spans[1..] + [s];
    }
  }

  lemma {:induction false} ReadersAgreeFrom(buf: seq<byte>, i: nat, out: seq<Span>)
    requires i <= |buf|
    ensures ChainFrom(buf, i, out) == FieldsFrom(buf, i, out)
    ensures ChainFrom(buf, i, out).Ok? ==>
              LenientFrom(buf, i, Slices(buf, out)) == Ok(Slices(buf, ChainFrom(buf, i, out).value))
    decreases |buf| - i
  {
    hide ChainStep, FieldsStep, LenientStep;
    if i < |buf| {
      StepsAgree(buf, i);
      var step := ChainStep(buf, i);
      if step.Ok? {
        SlicesAppend(buf, out, Span(i, step.value));
        ReadersAgreeFrom(buf, i + step.value, out + [Span(i, step.value)]);
      }
    }
  }

  /** The two strict readers accept the same bundles with the same spans, and on those the
      lenient one returns the same certificates. */
  lemma {:induction false} ReadersAgree(buf: seq<byte>)
    ensures ChainFrom(buf, 0, []) == FieldsFrom(buf, 0, [])
    ensures ChainFrom(buf, 0, []).Ok? ==> LenientFrom(buf, 0, []) == Ok(Slices(buf, ChainFrom(buf, 0, []).value))
  {
    ReadersAgreeFrom(buf, 0, []);
  }

  // ---- what is accepted ---------------------------------------------------------------

  /** The one length encoding DER admits (X.690, section 10.1). */
  function DerLength(n: nat): seq<byte> {
    if n < 0x80 then [n]
    else
      var count := if n < 0x100 then 1 else if n < 0x1_0000 then 2 else if n < 0x100_0000 then 3 else 4;
      [0x80 + count] + ToBE(n, count)
  }

  function DerSequence(body: seq<byte>): seq<byte> {
    [SEQUENCE] + DerLength(|body|) + body
  }

  function Bundle(bodies: seq<seq<byte>>): seq<byte> {
    if bodies == [] then [] else DerSequence(bodies[0]) + Bundle(bodies[1..])
  }

  lemma {:induction false} BitsPerByte(n: nat)
    requires n >= 0x100
    ensures BitLength(n) == 8 + BitLength(n / 0x100)
  {
    assert n / 2 / 2 == n / 4 && n / 4 / 2 == n / 8 && n / 8 / 2 == n / 16 && n / 16 / 2 == n / 32;
    assert n / 32 / 2 == n / 64 && n / 64 / 2 == n / 128 && n / 128 / 2 == n / 256;
    assert BitLength(n) == 1 + BitLength(n / 2) == 2 + BitLength(n / 4) == 3 + BitLength(n / 8);
    assert BitLength(n / 8) == 1 + BitLength(n / 16) == 2 + BitLength(n / 32) == 3 + BitLength(n / 64);
    assert BitLength(n / 64) == 1 + BitLength(n / 128) == 2 + BitLength(n / 256);
  }

  function Pow2(k: nat): nat {
    if k == 0 then 1 else 2 * Pow2(k - 1)
  }

  lemma {:induction false} BitsFit(n: nat, k: nat)
    requires n < Pow2(k)
    ensures BitLength(n) <= k
  {
    if k > 0 {
      BitsFit(n / 2, k - 1);
    }
  }

  lemma {:induction false} BitsOfByte(n: nat)
    requires 0 < n < 0x100
    ensures 1 <= BitLength(n) <= 8
  {
    assert Pow2(2) == 4 && Pow2(4) == 4 * Pow2(2) && Pow2(6) == 4 * Pow2(4) && Pow2(8) == 4 * Pow2(6);
    BitsFit(n, 8);
  }

  /** The readers' test for a minimal length, by size. */
  lemma {:induction false} BytesNeeded(n: nat)
    requires 0 < n < 0x1_0000_0000
    ensures (BitLength(n) + 7) / 8 ==
            if n < 0x100 then 1 else if n < 0x1_0000 then 2 else if n < 0x100_0000 then 3 else 4
    decreases n
  {
    if n < 0x100 {
      BitsOfByte(n);
    } else {
      BitsPerByte(n);
      BytesNeeded(n / 0x100);
    }
  }

  /** A tag and a length as DER writes them are read as that tag and that length. */
  lemma {:induction false} HeaderReads(buf: seq<byte>, i: nat, tag: byte, n: nat)
    requires n < 0x1_0000_0000 && tag % 32 != 31 && At(buf, i, [tag] + DerLength(n))
    ensures ReadTlv(buf, i) == Ok(Tlv(tag, 1 + |DerLength(n)|, n))
  {
    hide BitLength, BE, ToBE, Pow256;
    var e := [tag] + DerLength(n);
    assert buf[i] == buf[i..i + |e|][0] == e[0];
    assert buf[i + 1] == buf[i..i + |e|][1] == e[1] == DerLength(n)[0];
    if n >= 0x80 {
      var count := |e| - 2;
      SliceOfSlice(buf, i, i + |e|, 2, 2 + count);
      assert e[2..2 + count] == DerLength(n)[1..] == ToBE(n, count);
      Widths();
      BERoundTrip(n, count);
      BytesNeeded(n);
    }
  }

  /** The length bytes that are read are the ones DER admits for that length. */
  lemma {:induction false} ReadLength(buf: seq<byte>, i: nat)
    requires ReadTlv(buf, i).Ok?
    ensures var t := ReadTlv(buf, i).value;
            && t.body < 0x1_0000_0000 && i + t.header <= |buf| && t.header == 1 + |DerLength(t.body)|
            && t.tag == buf[i] && t.tag % 32 != 31 && buf[i + 1..i + t.header] == DerLength(t.body)
  {
    hide BitLength, BE, ToBE, Pow256;
    var t := ReadTlv(buf, i).value;
    var lead := buf[i + 1];
    if lead >= 0x80 {
      var digits := buf[i + 2..i + t.header];
      Widths();
      ToBERoundTrip(digits);
      Fits(digits);
      BytesNeeded(t.body);
      assert DerLength(t.body) == [lead] + digits;
      assert buf[i + 1..i + t.header] == [lead] + digits;
    } else {
      assert buf[i + 1..i + 2] == [lead];
    }
  }

  /** The step accepts exactly a minimally encoded SEQUENCE at `i`. */
  lemma {:induction false} StepAccepts(buf: seq<byte>, i: nat, body: seq<byte>)
    requires |body| < 0x1_0000_0000 && At(buf, i, DerSequence(body))
    ensures ChainStep(buf, i) == Ok(|DerSequence(body)|)
  {
    hide ReadTlv, DerLength;
    var h := [SEQUENCE] + DerLength(|body|);
    var e := DerSequence(body);
    SliceOfSlice(buf, i, i + |e|, 0, |h|);
    assert e[0..|h|] == h;
    HeaderReads(buf, i, SEQUENCE, |body|);
  }

  lemma {:induction false} AcceptedIsSequence(buf: seq<byte>, i: nat) returns (body: seq<byte>)
    requires ChainStep(buf, i).Ok?
    ensures |body| < 0x1_0000_0000 && At(buf, i, DerSequence(body)) && ChainStep(buf, i).value == |DerSequence(body)|
  {
    hide BitLength, BE, ToBE, DerLength;
    ReadLength(buf, i);
    var t := ReadTlv(buf, i).value;
    var h := i + t.header;
    body := buf[h..h + t.body];
    Joins(buf, i, i + 1, h);
    Joins(buf, i, h, h + t.body);
    assert buf[i..i + 1] == [SEQUENCE];
  }

  lemma {:induction false} Joins(buf: seq<byte>, a: nat, b: nat, c: nat)
    requires a <= b <= c <= |buf|
    ensures buf[a..c] == buf[a..b] + buf[b..c]
  {
  }

  lemma {:induction false} Fits(digits: seq<byte>)
    requires |digits| <= 4
    ensures BE(digits) < 0x1_0000_0000
  {
    ToBERoundTrip(digits);
    Widths();
  }

  /** The spans tile `buf` from `i` to its end. */
  ghost predicate Tiles(spans: seq<Span>, i: nat, end: nat)
    decreases |spans|
  {
    if spans == [] then i == end
    else spans[0].offset == i && spans[0].length > 0 && Tiles(spans[1..], i + spans[0].length, end)
  }

  lemma {:induction false} TilesAppend(spans: seq<Span>, i: nat, at: nat, n: nat)
    requires Tiles(spans, i, at) && n > 0
    ensures Tiles(spans + [Span(at, n)], i, at + n)
    decreases |spans|
  {
    if spans != [] {
      TilesAppend(spans[1..], i + spans[0].length, at, n);
      assert (spans + [Span(at, n)])[1..] == spans[1..] + [Span(at, n)];
    } else {
      assert [Span(at, n)][1..] == [];
    }
  }

  lemma {:induction false} AcceptedFrom(buf: seq<byte>, i: nat, out: seq<Span>) returns (bodies: seq<seq<byte>>)
    requires i <= |buf| && ChainFrom(buf, i, out).Ok? && Tiles(out, 0, i)
    ensures Bundle(bodies) == buf[i..] && |ChainFrom(buf, i, out).value| == |out| + |bodies|
    ensures forall j :: 0 <= j < |bodies| ==> |bodies[j]| < 0x1_0000_0000
    ensures Tiles(ChainFrom(buf, i, out).value, 0, |buf|)
    decreases |buf| - i
  {
    hide ChainStep, DerSequence;
    bodies := [];
    if i < |buf| {
      var n := ChainStep(buf, i).value;
      var body := AcceptedIsSequence(buf, i);
      TilesAppend(out, 0, i, n);
      var rest := AcceptedFrom(buf, i + n, out + [Span(i, n)]);
      bodies := [body] + rest;
      assert buf[i..] == buf[i..i + n] + buf[i + n..];
    }
  }

  lemma {:induction false} BundleSplits(buf: seq<byte>, i: nat, bodies: seq<seq<byte>>, out: seq<Span>)
    requires i <= |buf| && buf[i..] == Bundle(bodies) && out + SpansOf(bodies, i) != []
    requires forall j :: 0 <= j < |bodies| ==> |bodies[j]| < 0x1_0000_0000
    ensures ChainFrom(buf, i, out) == Ok(out + SpansOf(bodies, i))
    decreases |bodies|
  {
    hide ChainStep, DerSequence;
    if bodies == [] {
      assert out + [] == out;
    } else {
      var e := DerSequence(bodies[0]);
      NonEmpty(bodies[0]);
      assert buf[i..][..|e|] == e && buf[i..][..|e|] == buf[i..i + |e|];
      assert buf[i..][|e|..] == Bundle(bodies[1..]) && buf[i..][|e|..] == buf[i + |e|..];
      StepAccepts(buf, i, bodies[0]);
      assert (out + [Span(i, |e|)]) + SpansOf(bodies[1..], i + |e|) == out + SpansOf(bodies, i);
      BundleSplits(buf, i + |e|, bodies[1..], out + [Span(i, |e|)]);
    }
  }

  lemma {:induction false} NonEmpty(body: seq<byte>)
    ensures DerSequence(body) != []
  {
  }

  /** Where the encodings of these bodies stand in their bundle. */
  function SpansOf(bodies: seq<seq<byte>>, i: nat): seq<Span>
    decreases |bodies|
  {
    if bodies == [] then [] else
      var n := |DerSequence(bodies[0])|;
      [Span(i, n)] + SpansOf(bodies[1..], i + n)
  }

  /** What the strict readers accept: exactly the nonempty concatenations of minimally encoded
      SEQUENCEs; and the spans they report tile the input. */
  lemma {:induction false} StrictAcceptsExactly(buf: seq<byte>)
    ensures ChainFrom(buf, 0, []).Ok?
        <==> exists bodies :: bodies != [] && buf == Bundle(bodies)
                              && forall j :: 0 <= j < |bodies| ==> |bodies[j]| < 0x1_0000_0000
    ensures ChainFrom(buf, 0, []).Ok? ==> Tiles(ChainFrom(buf, 0, []).value, 0, |buf|)
  {
    hide ChainStep, DerSequence;
    assert buf[0..] == buf;
    if ChainFrom(buf, 0, []).Ok? {
      var bodies := AcceptedFrom(buf, 0, []);
      ResultNonEmpty(buf, 0, []);
    }
    if bodies :| bodies != [] && buf == Bundle(bodies) &&
                   forall j :: 0 <= j < |bodies| ==> |bodies[j]| < 0x1_0000_0000 {
      BundleSplitsBack(bodies);
    }
  }

  lemma {:induction false} ResultNonEmpty(buf: seq<byte>, i: nat, out: seq<Span>)
    requires i <= |buf| && ChainFrom(buf, i, out).Ok?
    ensures ChainFrom(buf, i, out).value != []
    decreases |buf| - i
  {
    hide ChainStep;
    if i < |buf| {
      ResultNonEmpty(buf, i + ChainStep(buf, i).value, out + [Span(i, ChainStep(buf, i).value)]);
    }
  }

  /** A bundle of SEQUENCEs splits back into them. */
  lemma {:induction false} BundleSplitsBack(bodies: seq<seq<byte>>)
    requires bodies != [] && forall j :: 0 <= j < |bodies| ==> |bodies[j]| < 0x1_0000_0000
    ensures ChainFrom(Bundle(bodies), 0, []) == Ok(SpansOf(bodies, 0))
    ensures LenientFrom(Bundle(bodies), 0, []).Ok?
    ensures var out := LenientFrom(Bundle(bodies), 0, []).value;
            |out| == |bodies| && forall j :: 0 <= j < |bodies| ==> out[j] == DerSequence(bodies[j])
  {
    hide ChainStep, LenientStep, DerSequence;
    var buf := Bundle(bodies);
    assert buf[0..] == buf && [] + SpansOf(bodies, 0) == SpansOf(bodies, 0);
    BundleSplits(buf, 0, bodies, []);
    ReadersAgree(buf);
    SlicesOfBundle(buf, 0, bodies);
  }

  lemma {:induction false} SlicesOfBundle(buf: seq<byte>, i: nat, bodies: seq<seq<byte>>)
    requires i <= |buf| && buf[i..] == Bundle(bodies)
    ensures var out := Slices(buf, SpansOf(bodies, i));
            |out| == |bodies| && forall j :: 0 <= j < |bodies| ==> out[j] == DerSequence(bodies[j])
    decreases |bodies|
  {
    hide DerSequence;
    if bodies != [] {
      var e := DerSequence(bodies[0]);
      assert buf[i..][..|e|] == e && buf[i..][..|e|] == buf[i..i + |e|];
      assert buf[i..][|e|..] == Bundle(bodies[1..]) && buf[i..][|e|..] == buf[i + |e|..];
      SlicesOfBundle(buf, i + |e|, bodies[1..]);
      assert SpansOf(bodies, i)[1..] == SpansOf(bodies[1..], i + |e|);
    }
  }

  // ---- what the lenient reader takes ------------------------------------------------------

  /** A SEQUENCE of definite length, in however many length octets. */
  ghost predicate Element(s: seq<byte>) {
    && |s| >= 2 && s[0] == 0x30
    && if s[1] < 128 then |s| == 2 + s[1]
       else s[1] > 128 && |s| >= s[1] - 126 && |s| == s[1] - 126 + BE(s[2..s[1] - 126])
  }

  ghost predicate Elements(parts: seq<seq<byte>>) {
    forall i :: 0 <= i < |parts| ==> Element(parts[i])
  }

  /** What makes it stop: the end, another tag, or a SEQUENCE that is not all there. */
  ghost predicate Stops(rest: seq<byte>) {
    rest == [] || rest[0] != 0x30 || (|rest| >= 2 && forall n: nat :: n <= |rest| ==> !Element(rest[..n]))
  }

  lemma {:induction false} LenientStepReads(blob: seq<byte>, off: nat)
    requires off < |blob|
    ensures LenientStep(blob, off).Ok? ==> Element(blob[off..off + LenientStep(blob, off).value])
    ensures LenientStep(blob, off).Refused? ==> Stops(blob[off..])
    ensures LenientStep(blob, off).IndexError? ==> blob[off..] == [0x30]
  {
    hide BE;
    var rest := blob[off..];
    var step := LenientStep(blob, off);
    if off + 1 < |blob| && blob[off + 1] > 128 && off + blob[off + 1] - 126 <= |blob| {
      var k := blob[off + 1] - 126;
      assert rest[2..k] == blob[off + 2..off + k];
      forall n: nat | n <= |rest| && k <= n
        ensures rest[..n][2..k] == blob[off + 2..off + k]
      {
        assert rest[..n] == blob[off..off + n];
        SliceOfSlice(blob, off, off + n, 2, k);
      }
      if step.Ok? {
        SliceOfSlice(blob, off, off + step.value, 2, k);
      }
    }
  }

  lemma {:induction false} ElementIsStep(blob: seq<byte>, off: nat, n: nat)
    requires off + n <= |blob| && Element(blob[off..off + n])
    ensures LenientStep(blob, off) == Ok(n)
  {
    hide BE;
    var s := blob[off..off + n];
    if s[1] > 128 {
      var k := s[1] - 126;
      SliceOfSlice(blob, off, off + n, 2, k);
    }
  }

  /** From any place the lenient loop takes elements until something stops it. */
  lemma {:induction false} LenientTakes(blob: seq<byte>, off: nat, out: seq<seq<byte>>)
    returns (parts: seq<seq<byte>>, rest: seq<byte>)
    requires off <= |blob|
    ensures Elements(parts) && blob[off..] == Concat(parts) + rest
    ensures match LenientFrom(blob, off, out)
            case Ok(all) => all == out + parts && Stops(rest)
            case IndexError => rest == [0x30]
            case Refused => false
    decreases |blob| - off
  {
    hide LenientStep, Element;
    parts, rest := [], blob[off..];
    if off < |blob| {
      LenientStepReads(blob, off);
      var step := LenientStep(blob, off);
      if step.Ok? {
        var n := step.value;
        var first := blob[off..off + n];
        var ps, r := LenientTakes(blob, off + n, out + [first]);
        parts, rest := [first] + ps, r;
        assert parts[1..] == ps && out + parts == (out + [first]) + ps;
        assert blob[off..] == first + blob[off + n..];
        Assoc(first, Concat(ps), rest);
      }
    }
  }

  lemma {:induction false} LoopTakes(blob: seq<byte>, off: nat, out: seq<seq<byte>>, n: nat)
    requires 0 < n && off + n <= |blob| && Element(blob[off..off + n])
    ensures LenientFrom(blob, off, out) == LenientFrom(blob, off + n, out + [blob[off..off + n]])
  {
    hide LenientStep, Element;
    ElementIsStep(blob, off, n);
  }

  lemma {:induction false} LoopStops(blob: seq<byte>, off: nat, out: seq<seq<byte>>)
    requires off <= |blob|
    ensures Stops(blob[off..]) ==> LenientFrom(blob, off, out) == Ok(out)
    ensures blob[off..] == [0x30] ==> LenientFrom(blob, off, out).IndexError?
  {
    hide LenientStep, Stops;
    if off < |blob| {
      StuckThere(blob, off);
    }
  }

  lemma {:induction false} NoParts(rest: seq<byte>)
    ensures Concat<byte>([]) + rest == rest
  {
  }

  lemma {:induction false} FirstPart(parts: seq<seq<byte>>, rest: seq<byte>)
    requires parts != [] && Elements(parts)
    ensures var (s, n) := (Concat(parts) + rest, |parts[0]|);
            && 0 < n <= |s| && s[..n] == parts[0] && s[n..] == Concat(parts[1..]) + rest
            && Element(parts[0]) && Elements(parts[1..])
  {
    hide Element;
    NotEmpty(parts[0]);
    Assoc(parts[0], Concat(parts[1..]), rest);
  }

  /** Read back: elements and something that stops it are taken apart again. */
  lemma {:induction false} ElementsAreTaken(blob: seq<byte>, off: nat, out: seq<seq<byte>>, parts: seq<seq<byte>>,
                                            rest: seq<byte>)
    requires off <= |blob| && Elements(parts) && blob[off..] == Concat(parts) + rest
    ensures Stops(rest) ==> LenientFrom(blob, off, out) == Ok(out + parts)
    ensures rest == [0x30] ==> LenientFrom(blob, off, out).IndexError?
    decreases |parts|
  {
    hide LenientFrom, Stops, Elements, Concat;
    if parts == [] {
      NoParts(rest);
      assert out + parts == out;
      LoopStops(blob, off, out);
    } else {
      var n := |parts[0]|;
      FirstPart(parts, rest);
      assert blob[off..off + n] == blob[off..][..n] && blob[off + n..] == blob[off..][n..];
      LoopTakes(blob, off, out, n);
      ElementsAreTaken(blob, off + n, out + [parts[0]], parts[1..], rest);
      assert out + parts == (out + [parts[0]]) + parts[1..];
    }
  }

  lemma {:induction false} NotEmpty(s: seq<byte>)
    requires Element(s)
    ensures |s| >= 2
  {
  }

  lemma {:induction false} StuckThere(blob: seq<byte>, off: nat)
    requires off < |blob|
    ensures Stops(blob[off..]) ==> LenientStep(blob, off).Refused?
    ensures blob[off..] == [0x30] ==> LenientStep(blob, off).IndexError?
  {
    hide Element;
    LenientStepReads(blob, off);
    var step := LenientStep(blob, off);
    if step.Ok? {
      assert blob[off..off + step.value] == blob[off..][..step.value];
      NotEmpty(blob[off..off + step.value]);
      OneTag(blob[off..off + step.value]);
    }
  }

  lemma {:induction false} OneTag(s: seq<byte>)
    requires Element(s)
    ensures s[0] == 0x30
  {
  }

  /** Of any bytes at all the lenient reader returns the SEQUENCEs they begin with, up to the first
      thing it does not take, which it drops; a single tag at the very end is an IndexError. */
  lemma {:induction false} LenientExactly(blob: seq<byte>, parts: seq<seq<byte>>)
    ensures LenientFrom(blob, 0, []) == Ok(parts) <==>
            Elements(parts) && exists rest :: blob == Concat(parts) + rest && Stops(rest)
    ensures LenientFrom(blob, 0, []).IndexError? <==>
            exists ps: seq<seq<byte>> :: Elements(ps) && blob == Concat<byte>(ps) + [0x30]
  {
    hide LenientFrom, Elements, Stops;
    assert blob[0..] == blob;
    var ps, rest := LenientTakes(blob, 0, []);
    assert [] + ps == ps;
    if r: seq<byte> :| Elements(parts) && blob == Concat(parts) + r && Stops(r) {
      ElementsAreTaken(blob, 0, [], parts, r);
      assert [] + parts == parts;
    }
    if qs: seq<seq<byte>> :| Elements(qs) && blob == Concat<byte>(qs) + [0x30] {
      ElementsAreTaken(blob, 0, [], qs, [0x30]);
    }
  }
}
