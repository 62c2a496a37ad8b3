/**
 Both reassemblers of bench/pcapstat.py together. Chains are cut into portions, each
 portion travels in a CERTIFICATE response of either layout, each response travels whole or
 as a chunk sequence, and unrelated traffic is interleaved; the walk over what `dechunk`
 hands back reports every chain, closed, byte for byte.
 */
module CertificateRoundTrip {
  import opened Bytes
  import opened Dechunk
  import opened DechunkComplete
  import C = Certificates

  /** How a responder sends one portion; bit 7 of Param1 selects the large layout. */
  datatype Serving = Serving(portion: nat, version: byte, param1: byte, param2: byte)
  {
    predicate Large() { param1 >= C.LARGE_CHAIN }
  }

  /** One fetch of a chain. */
  datatype Fetch = Fetch(chain: seq<byte>, servings: seq<Serving>)

  /** The CERTIFICATE response carrying `piece` with `remainder` bytes still to come. */
  function Response(sv: Serving, remainder: nat, piece: seq<byte>): Message {
    [sv.version, CERTIFICATE, sv.param1, sv.param2]
      + (if sv.Large() then [0, 0, 0, 0] + ToLE(|piece|, 4) + ToLE(remainder, 4)
         else ToLE(|piece|, 2) + ToLE(remainder, 2))
      + piece
  }

  /** The servings cut the rest of the chain into nonempty portions their layout can state. */
  ghost predicate Servable(chain: seq<byte>, off: nat, svs: seq<Serving>)
    decreases |svs|
  {
    if svs == [] then off == |chain|
    else
      && 0 < svs[0].portion <= |chain| - off
      && (!svs[0].Large() ==> svs[0].portion < 0x1_0000 && |chain| - off - svs[0].portion < 0x1_0000)
      && Servable(chain, off + svs[0].portion, svs[1..])
  }

  ghost function Responses(chain: seq<byte>, off: nat, svs: seq<Serving>): seq<seq<byte>>
    requires off <= |chain| && Servable(chain, off, svs)
    decreases |svs|
  {
    if svs == [] then []
    else
      var end := off + svs[0].portion;
      [Response(svs[0], |chain| - end, chain[off..end])] + Responses(chain, end, svs[1..])
  }

  function Portions(svs: seq<Serving>): seq<nat> {
    if svs == [] then [] else [svs[0].portion] + Portions(svs[1..])
  }

  /** A chain that states its own length in its first four bytes, and a way to send it. */
  ghost predicate ValidFetch(f: Fetch) {
    && |f.chain| >= 4 && LE(f.chain[0..4]) == |f.chain|
    && Servable(f.chain, 0, f.servings)
  }

  ghost predicate AllValidFetches(fs: seq<Fetch>) {
    forall i :: 0 <= i < |fs| ==> ValidFetch(fs[i])
  }

  ghost function AllResponses(fs: seq<Fetch>): seq<seq<byte>>
    requires AllValidFetches(fs)
  {
    if fs == [] then [] else Responses(fs[0].chain, 0, fs[0].servings) + AllResponses(fs[1..])
  }

  /** Of a chain that is its length, a root hash of the negotiated width and certificates the
      report gives hash and certificates apart; it gives neither when no width was negotiated or
      the chain is too short. */
  ghost predicate Divided(s: C.Settled, chain: seq<byte>, hashBytes: Option<nat>) {
    && (forall root, certs ::
          hashBytes == Some(|root|) && chain == ToLE(4 + |root| + |certs|, 4) + root + certs ==>
            s.rootHash == root && s.certificatesBytes == Some(|certs|))
    && (hashBytes.None? || 4 + hashBytes.value > |chain| ==> s.rootHash == [] && s.certificatesBytes.None?)
  }

  lemma {:induction false} ChainDivides(s: C.Settled, chain: seq<byte>, hashBytes: Option<nat>)
    requires hashBytes.Some? && 4 + hashBytes.value <= |chain|
    requires s.rootHash == chain[4..4 + hashBytes.value]
    requires s.certificatesBytes == Some(|chain| - 4 - hashBytes.value)
    ensures Divided(s, chain, hashBytes)
  {
    hide ToLE;
    forall root, certs | hashBytes == Some(|root|) && chain == ToLE(4 + |root| + |certs|, 4) + root + certs
      ensures s.rootHash == root && s.certificatesBytes == Some(|certs|)
    {
      assert chain[4..4 + |root|] == root;
    }
  }

  /** What the walk should say about a fetch. */
  ghost predicate Reports(s: C.Settled, f: Fetch, hashBytes: Option<nat>) {
    && s.Closes() && s.lengthField == Some(|f.chain|) && Divided(s, f.chain, hashBytes)
    && s.chain.data == f.chain && s.chain.declared == |f.chain|
    && s.chain.portions == Portions(f.servings)
    && f.servings != [] && s.chain.slot == f.servings[0].param1 % 16 && s.chain.large == f.servings[0].Large()
  }

  ghost predicate AllReported(slots: seq<C.Settled>, fs: seq<Fetch>, hashBytes: Option<nat>) {
    |slots| == |fs| && forall i :: 0 <= i < |fs| ==> Reports(slots[i], fs[i], hashBytes)
  }

  function Messages(seen: seq<(seq<byte>, bool)>): seq<seq<byte>> {
    if seen == [] then [] else [seen[0].0] + Messages(seen[1..])
  }

  lemma {:induction false} ReadsResponse(packet: nat, rebuilt: bool, sv: Serving, remainder: nat, piece: seq<byte>)
    requires |piece| < 0x1_0000_0000 && remainder < 0x1_0000_0000
    requires !sv.Large() ==> |piece| < 0x1_0000 && remainder < 0x1_0000
    ensures C.ReadCertificate(packet, rebuilt, Response(sv, remainder, piece))
         == C.Read(C.Part(packet, rebuilt, sv.param1 % 16, sv.Large(), |piece|, remainder, piece))
  {
    var m := Response(sv, remainder, piece);
    Widths();
    if sv.Large() {
      LERoundTrip(|piece|, 4);
      LERoundTrip(remainder, 4);
      assert m[4..8] == [0, 0, 0, 0] && m[8..12] == ToLE(|piece|, 4) && m[12..16] == ToLE(remainder, 4);
      assert m[16..] == piece;
    } else {
      LERoundTrip(|piece|, 2);
      LERoundTrip(remainder, 2);
      assert m[4..6] == ToLE(|piece|, 2) && m[6..8] == ToLE(remainder, 2);
      assert m[8..] == piece;
    }
  }

  /** The chain collected so far is the first `off` bytes of `chain`, from `done`. */
  ghost predicate Holding(c: C.Chain, chain: seq<byte>, done: seq<Serving>, off: nat) {
    && off <= |chain| && done != []
    && c.data == chain[..off] && c.portions == Portions(done) && Sum(c.portions) == off
    && c.declared == |chain|
    && c.slot == done[0].param1 % 16 && c.large == done[0].Large()
  }

  /** The walk is inside a fetch of `chain`: `done` servings are in. */
  ghost predicate Collecting(current: Option<C.Chain>, chain: seq<byte>, done: seq<Serving>, off: nat) {
    if done == [] then current.None? && off == 0
    else current.Some? && Holding(current.value, chain, done, off)
  }

  lemma {:induction false} PortionsAppend(a: seq<Serving>, sv: Serving)
    ensures Portions(a + [sv]) == Portions(a) + [sv.portion]
    ensures Sum(Portions(a + [sv])) == Sum(Portions(a)) + sv.portion
  {
    if a == [] {
      assert [] + [sv] == [sv] && [sv][1..] == [];
    } else {
      PortionsAppend(a[1..], sv);
      assert (a + [sv])[0] == a[0] && (a + [sv])[1..] == a[1..] + [sv];
    }
  }

  /** One more portion of the chain. */
  lemma {:induction false} ChainGrows(current: Option<C.Chain>, chain: seq<byte>, done: seq<Serving>, off: nat,
                                      sv: Serving, p: C.Part)
    requires Collecting(current, chain, done, off) && 0 < sv.portion <= |chain| - off
    requires p.slot == sv.param1 % 16 && p.large == sv.Large() && p.portion == sv.portion
    requires p.remainder == |chain| - off - sv.portion && p.chunk == chain[off..off + sv.portion]
    ensures Holding(if current.None? then C.Begin(p) else C.Extend(current.value, p),
                    chain, done + [sv], off + sv.portion)
  {
    PortionsAppend(done, sv);
    assert chain[..off] + p.chunk == chain[..off + sv.portion];
    if done == [] {
      assert Portions([sv]) == [sv.portion] && Sum([sv.portion]) == sv.portion;
      assert [] + [sv] == [sv];
    }
  }

  lemma {:induction false} ChainSettles(c: C.Chain, chain: seq<byte>, done: seq<Serving>, hashBytes: Option<nat>)
    requires |chain| >= 4 && LE(chain[0..4]) == |chain| && Holding(c, chain, done, |chain|)
    ensures Reports(C.Settle(c, false, hashBytes), Fetch(chain, done), hashBytes)
  {
    hide LE, Portions;
    assert chain[..|chain|] == chain;
    var s := C.Settle(c, false, hashBytes);
    if hashBytes.Some? && 4 + hashBytes.value <= |chain| {
      ChainDivides(s, chain, hashBytes);
    }
  }

  /** A response is read, and the walk takes its portion. */
  lemma {:induction false} ResponseRead(st: C.Walker, e: Entry, chain: seq<byte>, off: nat, sv: Serving,
                                        hashBytes: Option<nat>)
    returns (p: C.Part)
    requires |chain| < 0x1_0000_0000 && 0 < sv.portion && off + sv.portion <= |chain|
    requires !sv.Large() ==> sv.portion < 0x1_0000 && |chain| - off - sv.portion < 0x1_0000
    requires e.Spdm? && e.msg == Response(sv, |chain| - off - sv.portion, chain[off..off + sv.portion])
    ensures C.Step(st, e, hashBytes) == Some(C.Take(st, p, hashBytes))
    ensures p.slot == sv.param1 % 16 && p.large == sv.Large() && p.portion == sv.portion
    ensures p.remainder == |chain| - off - sv.portion && p.chunk == chain[off..off + sv.portion]
  {
    ReadsResponse(e.packet, e.from != [], sv, |chain| - off - sv.portion, chain[off..off + sv.portion]);
    p := C.ReadCertificate(e.packet, e.from != [], e.msg).part;
  }

  lemma {:induction false} LengthFits(chain: seq<byte>)
    requires |chain| >= 4 && LE(chain[0..4]) == |chain|
    ensures |chain| < 0x1_0000_0000
  {
    ToLERoundTrip(chain[0..4]);
    Widths();
  }

  lemma {:induction false} ServableHead(chain: seq<byte>, off: nat, svs: seq<Serving>)
    requires svs != [] && off <= |chain| && Servable(chain, off, svs)
    ensures 0 < svs[0].portion <= |chain| - off
    ensures !svs[0].Large() ==> svs[0].portion < 0x1_0000 && |chain| - off - svs[0].portion < 0x1_0000
    ensures Servable(chain, off + svs[0].portion, svs[1..])
  {
  }

  lemma {:induction false} ResponseTaken(st: C.Walker, e: Entry, chain: seq<byte>, done: seq<Serving>, off: nat,
                                         sv: Serving,
                      hashBytes: Option<nat>)
    returns (p: C.Part)
    requires |chain| < 0x1_0000_0000 && 0 < sv.portion && off + sv.portion <= |chain|
    requires !sv.Large() ==> sv.portion < 0x1_0000 && |chain| - off - sv.portion < 0x1_0000
    requires e.Spdm? && e.msg == Response(sv, |chain| - off - sv.portion, chain[off..off + sv.portion])
    requires Collecting(st.current, chain, done, off)
    ensures C.Step(st, e, hashBytes) == Some(C.Take(st, p, hashBytes)) && p.remainder == |chain| - off - sv.portion
    ensures Holding(if st.current.None? then C.Begin(p) else C.Extend(st.current.value, p), chain, done + [sv],
                    off + sv.portion)
  {
    p := ResponseRead(st, e, chain, off, sv, hashBytes);
    ChainGrows(st.current, chain, done, off, sv, p);
  }

  /** From `st` the walk added exactly the slots these fetches call for, and no note. */
  ghost predicate Adds(st: C.Walker, r: Option<C.Walker>, fs: seq<Fetch>, hashBytes: Option<nat>) {
    && r.Some? && r.value.current.None? && r.value.notes == st.notes
    && |r.value.slots| >= |st.slots| && r.value.slots[..|st.slots|] == st.slots
    && AllReported(r.value.slots[|st.slots|..], fs, hashBytes)
  }

  lemma {:induction false} AddsFromEarlier(st: C.Walker, next: C.Walker, r: Option<C.Walker>, fs: seq<Fetch>,
                                           hashBytes: Option<nat>)
    requires Adds(next, r, fs, hashBytes) && next.slots == st.slots && next.notes == st.notes
    ensures Adds(st, r, fs, hashBytes)
  {
  }

  /** The walk over a list of entries that carries the rest of one fetch and then more. */
  lemma {:induction false} WalkFetch(st: C.Walker, es: seq<Entry>, f: Fetch, done: seq<Serving>, off: nat,
                                     svs: seq<Serving>, fs: seq<Fetch>, hashBytes: Option<nat>)
    requires |f.chain| >= 4 && LE(f.chain[0..4]) == |f.chain| && f.servings == done + svs
    requires Collecting(st.current, f.chain, done, off) && off <= |f.chain| && Servable(f.chain, off, svs) && svs != []
    requires AllValidFetches(fs)
    requires Messages(Seen(es, {CERTIFICATE})) == Responses(f.chain, off, svs) + AllResponses(fs)
    ensures Adds(st, C.Run(st, es, hashBytes), [f] + fs, hashBytes)
    decreases |es|, 0, 1
  {
    hide Holding, Collecting, C.ReadCertificate, LE, Seen, Messages, Responses, Response, AllResponses, AllValidFetches,
         Adds, C.Take, Servable;
    ServableHead(f.chain, off, svs);
    var response := Response(svs[0], |f.chain| - off - svs[0].portion, f.chain[off..off + svs[0].portion]);
    NextResponse(f.chain, off, svs, AllResponses(fs));
    NextMessage(es, response, Responses(f.chain, off + svs[0].portion, svs[1..]) + AllResponses(fs));
    var e := es[0];
    if e.Has(CERTIFICATE) {
      LengthFits(f.chain);
      var p := ResponseTaken(st, e, f.chain, done, off, svs[0], hashBytes);
      assert done + svs == (done + [svs[0]]) + svs[1..];
      FetchTaken(st, es, f, done, off, svs, fs, p, hashBytes);
    } else {
      var next := C.Step(st, e, hashBytes).value;
      WalkFetch(next, es[1..], f, done, off, svs, fs, hashBytes);
      AddsFromEarlier(st, next, C.Run(next, es[1..], hashBytes), [f] + fs, hashBytes);
    }
  }

  /** The first CERTIFICATE of the capture is the message due next. */
  lemma {:induction false} NextMessage(es: seq<Entry>, due: seq<byte>, later: seq<seq<byte>>)
    requires Messages(Seen(es, {CERTIFICATE})) == [due] + later
    ensures es != []
    ensures if es[0].Has(CERTIFICATE) then es[0].msg == due && Messages(Seen(es[1..], {CERTIFICATE})) == later
            else Messages(Seen(es[1..], {CERTIFICATE})) == [due] + later
  {
    assert |Messages(Seen(es, {CERTIFICATE}))| > 0;
    assert es != [];
    if es[0].Has(CERTIFICATE) {
      var seen := Seen(es, {CERTIFICATE});
      assert seen == [(es[0].msg, es[0].from != [])] + Seen(es[1..], {CERTIFICATE});
      assert seen[1..] == Seen(es[1..], {CERTIFICATE});
      ConsInjective(es[0].msg, Messages(seen[1..]), due, later);
    } else {
      assert Seen(es, {CERTIFICATE}) == Seen(es[1..], {CERTIFICATE});
    }
  }

  lemma {:induction false} NextResponse(chain: seq<byte>, off: nat, svs: seq<Serving>, later: seq<seq<byte>>)
    requires svs != [] && off <= |chain| && Servable(chain, off, svs)
    ensures var end := off + svs[0].portion;
            Responses(chain, off, svs) + later
              == [Response(svs[0], |chain| - end, chain[off..end])] + (Responses(chain, end, svs[1..]) + later)
  {
    var end := off + svs[0].portion;
    Assoc([Response(svs[0], |chain| - end, chain[off..end])], Responses(chain, end, svs[1..]), later);
  }

  /** After one portion: either the fetch goes on, or it is settled and the next one starts. */
  lemma {:induction false} FetchTaken(st: C.Walker, es: seq<Entry>, f: Fetch, done: seq<Serving>, off: nat,
                                      svs: seq<Serving>,
                   fs: seq<Fetch>, p: C.Part, hashBytes: Option<nat>)
    requires |f.chain| >= 4 && LE(f.chain[0..4]) == |f.chain| && svs != [] && f.servings == (done + [svs[0]]) + svs[1..]
    requires es != [] && AllValidFetches(fs) && off <= |f.chain| && Servable(f.chain, off, svs)
    requires C.Step(st, es[0], hashBytes) == Some(C.Take(st, p, hashBytes))
    requires var end := off + svs[0].portion;
             && end <= |f.chain| && p.remainder == |f.chain| - end
             && Holding(if st.current.None? then C.Begin(p) else C.Extend(st.current.value, p),
                        f.chain, done + [svs[0]], end)
             && Messages(Seen(es[1..], {CERTIFICATE})) == Responses(f.chain, end, svs[1..]) + AllResponses(fs)
    ensures Adds(st, C.Run(st, es, hashBytes), [f] + fs, hashBytes)
    decreases |es|, 0, 0
  {
    hide Holding, Reports, LE, Seen, Messages, AllResponses, Adds, AllValidFetches, C.Step, C.Begin, C.Extend, C.Settle;
    var sv := svs[0];
    var end := off + sv.portion;
    var next := C.Take(st, p, hashBytes);
    var c := if st.current.None? then C.Begin(p) else C.Extend(st.current.value, p);
    if svs[1..] != [] {
      hide Responses;
      assert Servable(f.chain, end, svs[1..]);
      WalkFetch(next, es[1..], f, done + [sv], end, svs[1..], fs, hashBytes);
      AddsFromEarlier(st, next, C.Run(next, es[1..], hashBytes), [f] + fs, hashBytes);
    } else {
      assert Responses(f.chain, end, svs[1..]) + AllResponses(fs) == AllResponses(fs);
      assert done + [sv] == f.servings;
      ChainSettles(c, f.chain, f.servings, hashBytes);
      WalkFetches(next, es[1..], fs, hashBytes);
      FirstReported(st, next, C.Run(next, es[1..], hashBytes), C.Settle(c, false, hashBytes), f, fs,
                    hashBytes);
    }
  }

  lemma {:induction false} FirstReported(st: C.Walker, next: C.Walker, r: Option<C.Walker>, s: C.Settled, f: Fetch,
                                         fs: seq<Fetch>, hashBytes: Option<nat>)
    requires Reports(s, f, hashBytes) && Adds(next, r, fs, hashBytes)
    requires next.slots == st.slots + [s] && next.notes == st.notes
    ensures Adds(st, r, [f] + fs, hashBytes)
  {
    hide Reports;
    var before, after := st.slots, r.value.slots;
    assert after[..|before|] == after[..|before| + 1][..|before|];
    assert after[|before|] == after[..|before| + 1][|before|] == s;
    assert after[|before|..] == [s] + after[|before| + 1..];
  }

  lemma {:induction false} WalkFetches(st: C.Walker, es: seq<Entry>, fs: seq<Fetch>, hashBytes: Option<nat>)
    requires st.current.None? && AllValidFetches(fs)
    requires Messages(Seen(es, {CERTIFICATE})) == AllResponses(fs)
    ensures Adds(st, C.Run(st, es, hashBytes), fs, hashBytes)
    decreases |es|, 1
  {
    if fs != [] {
      hide Reports, LE, C.Step, Collecting, Adds;
      var f := fs[0];
      assert ValidFetch(f);
      assert f.servings != [];
      assert [] + f.servings == f.servings && [f] + fs[1..] == fs;
      assert Collecting(st.current, f.chain, [], 0) by { Idle(st, f.chain); }
      WalkFetch(st, es, f, [], 0, f.servings, fs[1..], hashBytes);
    } else if es != [] {
      WalkFetches(C.Step(st, es[0], hashBytes).value, es[1..], fs, hashBytes);
    }
  }

  lemma {:induction false} Idle(st: C.Walker, chain: seq<byte>)
    requires st.current.None?
    ensures Collecting(st.current, chain, [], 0)
  {
  }

  /** The CERTIFICATE responses among deliveries of several codes. */
  function CertificatesOf(ds: seq<Delivery>): seq<seq<byte>> {
    if ds == [] then []
    else if ds[0].msg[1] == CERTIFICATE then [ds[0].msg] + CertificatesOf(ds[1..])
    else CertificatesOf(ds[1..])
  }

  lemma {:induction false} CertificatesReceived(ds: seq<Delivery>)
    ensures Messages(OnlyCode(Received(ds), CERTIFICATE)) == CertificatesOf(ds)
  {
    if ds != [] {
      CertificatesReceived(ds[1..]);
      assert Received(ds)[1..] == Received(ds[1..]);
      if ds[0].msg[1] == CERTIFICATE {
        var only := OnlyCode(Received(ds), CERTIFICATE);
        assert only[1..] == OnlyCode(Received(ds[1..]), CERTIFICATE);
      }
    }
  }

  /** The two-layer round trip: any number of chains, each cut anyhow and sent in any mixture
      of layouts, whole or in any complete chunk sequences, beside messages of any other codes
      sent in the same ways, among any traffic that is of none of these codes and no
      CHUNK_RESPONSE. */
  lemma {:induction false} ChainsSurviveBothLayers(es: seq<Entry>, codes: set<byte>, ds: seq<Delivery>, fs: seq<Fetch>,
                                                   hashBytes: Option<nat>)
    requires CERTIFICATE in codes && CHUNK_RESPONSE !in codes
    requires AllValidFetches(fs) && Carries(es, codes, ds) && CertificatesOf(ds) == AllResponses(fs)
    ensures Reassembled(es).Some?
    ensures var w := C.Walked(Reassembled(es).value.logical, hashBytes);
            w.Some? && w.value.notes == [] && AllReported(w.value.slots, fs, hashBytes)
  {
    hide AllReported, Carries, AllValidFetches, AllResponses;
    DechunkInvertsChunking(es, codes, ds);
    CertificatesReceived(ds);
    var logical := Reassembled(es).value.logical;
    SeenOfOne(logical, codes, CERTIFICATE);
    WalkFetches(C.START, logical, fs, hashBytes);
    var r := C.Run(C.START, logical, hashBytes).value;
    assert r.slots[0..] == r.slots;
  }
}
