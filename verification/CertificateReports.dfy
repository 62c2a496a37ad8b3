/**
 bench/pcapstat.py: everything the certificate walk reports about any capture: which responses
 it reads and why it refuses the others, and what it says of every slot.
 */
module CertificateReports {
  import opened Bytes
  import D = Dechunk
  import opened Certificates

  // ---- one response -----------------------------------------------------------------------

  /** The two layouts of a CERTIFICATE response, told apart by bit 7 of Param1: in the large one
      the 16-bit fields are zero and 32-bit fields follow. */
  ghost predicate LaidOut(m: D.Message, portion: nat, remainder: nat, chunk: seq<byte>) {
    && |m| > 3 && |chunk| == portion
    && if m[2] >= 128
       then portion < 0x1_0000_0000 && remainder < 0x1_0000_0000
            && m[..4] + [0, 0, 0, 0] + ToLE(portion, 4) + ToLE(remainder, 4) + chunk <= m
       else portion < 0x1_0000 && remainder < 0x1_0000
            && m[..4] + ToLE(portion, 2) + ToLE(remainder, 2) + chunk <= m
  }

  lemma {:induction false} ReadIsLaidOut(packet: nat, rebuilt: bool, m: D.Message)
    requires ReadCertificate(packet, rebuilt, m).Read?
    ensures var p := ReadCertificate(packet, rebuilt, m).part;
            && LaidOut(m, p.portion, p.remainder, p.chunk)
            && p == Part(packet, rebuilt, m[2] % 16, m[2] >= 128, p.portion, p.remainder, p.chunk)
  {
    hide LE, ToLE, Pow256;
    var p := ReadCertificate(packet, rebuilt, m).part;
    Widths();
    if m[2] >= 128 {
      ToLERoundTrip(m[8..12]);
      ToLERoundTrip(m[12..16]);
      assert m[..16] == m[..4] + m[4..8] + m[8..12] + m[12..16];
      assert m[..16 + p.portion] == m[..16] + p.chunk;
    } else {
      ToLERoundTrip(m[4..6]);
      ToLERoundTrip(m[6..8]);
      assert m[..8] == m[..4] + m[4..6] + m[6..8];
      assert m[..8 + p.portion] == m[..8] + p.chunk;
    }
  }

  lemma {:induction false} LaidOutIsRead(packet: nat, rebuilt: bool, m: D.Message, portion: nat, remainder: nat,
                                         chunk: seq<byte>)
    requires LaidOut(m, portion, remainder, chunk)
    ensures ReadCertificate(packet, rebuilt, m) ==
            Read(Part(packet, rebuilt, m[2] % 16, m[2] >= 128, portion, remainder, chunk))
  {
    hide LE, ToLE, Pow256;
    Widths();
    if m[2] >= 128 {
      LERoundTrip(portion, 4);
      LERoundTrip(remainder, 4);
      var front := m[..4] + [0, 0, 0, 0] + ToLE(portion, 4) + ToLE(remainder, 4);
      assert m[..16 + portion] == front + chunk;
      assert m[4..8] == front[4..8] && m[8..12] == front[8..12] && m[12..16] == front[12..16];
      assert front[4..8] == [0, 0, 0, 0] && front[8..12] == ToLE(portion, 4) && front[12..16] == ToLE(remainder, 4);
      assert Slice(m, 16, 16 + portion) == m[16..16 + portion] == (front + chunk)[16..] == chunk;
    } else {
      LERoundTrip(portion, 2);
      LERoundTrip(remainder, 2);
      var front := m[..4] + ToLE(portion, 2) + ToLE(remainder, 2);
      assert m[..8 + portion] == front + chunk;
      assert m[4..6] == front[4..6] && m[6..8] == front[6..8];
      assert front[4..6] == ToLE(portion, 2) && front[6..8] == ToLE(remainder, 2);
      assert Slice(m, 8, 8 + portion) == m[8..8 + portion] == (front + chunk)[8..] == chunk;
    }
  }

  /** A response is read exactly when it begins with one of the layouts; otherwise it is refused for
      the first of three reasons, or stops the walk. */
  lemma {:induction false} ReadingExactly(packet: nat, rebuilt: bool, m: D.Message)
    ensures var r := ReadCertificate(packet, rebuilt, m);
            && (r.Crash? <==> |m| == 2)
            && (r == Refused(ShortCertificate(packet)) <==> 2 < |m| < if m[2] >= 128 then 16 else 8)
            && (r == Refused(SmallFieldsSet(packet)) <==> |m| >= 16 && m[2] >= 128 && m[4..8] != [0, 0, 0, 0])
            && (r.Read? <==> exists portion, remainder, chunk :: LaidOut(m, portion, remainder, chunk))
            && (r.Refused? ==> r.note in [ShortCertificate(packet), SmallFieldsSet(packet), ShortPortion(packet)])
  {
    hide LE, ToLE, Pow256, LaidOut;
    var r := ReadCertificate(packet, rebuilt, m);
    if r.Read? {
      ReadIsLaidOut(packet, rebuilt, m);
    }
    if portion: nat, remainder: nat, chunk: seq<byte> :| LaidOut(m, portion, remainder, chunk) {
      LaidOutIsRead(packet, rebuilt, m, portion, remainder, chunk);
    }
  }

  // ---- the slots ------------------------------------------------------------------------------

  /** What is said of a run of responses: why it does not close, by the first thing that is wrong,
      and what is read from the bytes of one that does. */
  ghost predicate Explained(s: Settled, run: seq<Part>, hashBytes: Option<nat>) {
    && run != []
    && var c := ChainOf(run);
       var agrees := Finished(run) && |c.data| == run[0].portion + run[0].remainder;
       var long := agrees && |c.data| >= 4;
       var closes := long && LE(c.data[..4]) == |c.data|;
       && s.chain == c
       && (s.why == Some(Incomplete) <==> !Finished(run))
       && (s.why == Some(PortionsDisagree) <==> Finished(run) && !agrees)
       && (s.why == Some(NoLengthField) <==> agrees && !long)
       && (s.why == Some(LengthDisagrees) <==> long && !closes)
       && (s.why == None <==> closes)
       && (s.lengthField == if long then Some(LE(c.data[..4])) else None)
       && (s.reservedIsZero == if long then Some(LE(c.data[..2]) == LE(c.data[..4])) else None)
       && if closes && hashBytes.Some? && |c.data| >= 4 + hashBytes.value
          then s.rootHash == c.data[4..4 + hashBytes.value]
               && s.certificatesBytes == Some(|c.data| - 4 - hashBytes.value)
          else s.rootHash == [] && s.certificatesBytes.None?
  }

  /** The reserved field is zero exactly when the 16-bit and the 32-bit reading of the length agree. */
  lemma {:induction false} TwoReadings(d: seq<byte>)
    requires |d| >= 4
    ensures LE(d[..2]) == LE(d[..4]) <==> d[2..4] == [0, 0]
  {
    var w: int, x: int, y: int, z: int := d[0], d[1], d[2], d[3];
    var (two, four) := (d[..2], d[..4]);
    assert two[1..][1..] == [] && four[1..][1..][1..][1..] == [];
    assert LE(two) == w + 256 * LE(two[1..]) == w + 256 * x;
    assert LE(four[1..][1..]) == y + 256 * LE(four[1..][1..][1..]) == y + 256 * z;
    assert LE(four) == w + 256 * LE(four[1..]) == w + 256 * (x + 256 * (y + 256 * z));
  }

  lemma {:induction false} SettledIsExplained(run: seq<Part>, hashBytes: Option<nat>)
    requires run != [] && WholeParts(run)
    ensures Explained(Settle(ChainOf(run), !Finished(run), hashBytes), run, hashBytes)
  {
    hide LE;
    PortionsAreBytes(run);
    var d := ChainOf(run).data;
    if |d| >= 4 {
      assert d[0..4] == d[..4];
      TwoReadings(d);
    }
  }

  /** The slots of every walk, each explained by its own run of responses. */
  lemma {:induction false} SlotsAreExplained(es: seq<D.Entry>, hashBytes: Option<nat>)
    requires Walked(es, hashBytes).Some?
    ensures var (slots, runs) := (Walked(es, hashBytes).value.slots, Runs([], Parts(es)));
            && |slots| == |runs| && forall k :: 0 <= k < |runs| ==> Explained(slots[k], runs[k], hashBytes)
  {
    hide Settle, ChainOf, Walked, SlotsOf, Explained, Runs, Parts;
    WalkCutsAtZeroRemainder(es, hashBytes);
    PartsAreWhole(es);
    RunsCut([], Parts(es));
    assert [] + Parts(es) == Parts(es);
    SameCount([], Parts(es), hashBytes);
    forall k | 0 <= k < |Runs([], Parts(es))|
      ensures Explained(Walked(es, hashBytes).value.slots[k], Runs([], Parts(es))[k], hashBytes)
    {
      PartOfRuns(Runs([], Parts(es)), k);
      SlotsAreRuns([], Parts(es), hashBytes, k);
      SettledIsExplained(Runs([], Parts(es))[k], hashBytes);
    }
  }

  // ---- the rest of the report ---------------------------------------------------------------------

  function Refusals(es: seq<D.Entry>): seq<Note> {
    if es == [] then []
    else
      (if es[0].Has(0x02) then
         match ReadCertificate(es[0].packet, es[0].from != [], es[0].msg)
         case Refused(note) => [note]
         case _ => []
       else []) + Refusals(es[1..])
  }

  function Requests(es: seq<D.Entry>): nat {
    if es == [] then 0 else (if es[0].Has(0x82) then 1 else 0) + Requests(es[1..])
  }

  lemma {:induction false} RunReportsTheRest(st: Walker, es: seq<D.Entry>, hashBytes: Option<nat>)
    ensures var r := Run(st, es, hashBytes);
            r.Some? ==> r.value.notes == st.notes + Refusals(es) && r.value.roundtrips == st.roundtrips + Requests(es)
    decreases |es|
  {
    hide ReadCertificate, Take;
    if es != [] && Step(st, es[0], hashBytes).Some? {
      var next := Step(st, es[0], hashBytes).value;
      RunReportsTheRest(next, es[1..], hashBytes);
      TakeKeeps(st, es[0], hashBytes);
      Assoc(st.notes, Refusals([es[0]]), Refusals(es[1..]));
      OneRefusal(es);
    }
  }

  lemma {:induction false} OneRefusal(es: seq<D.Entry>)
    requires es != []
    ensures Refusals(es) == Refusals([es[0]]) + Refusals(es[1..])
    ensures Requests(es) == Requests([es[0]]) + Requests(es[1..])
  {
    hide ReadCertificate;
    assert [es[0]][1..] == [];
  }

  lemma {:induction false} TakeKeeps(st: Walker, e: D.Entry, hashBytes: Option<nat>)
    ensures var next := Step(st, e, hashBytes);
            next.Some? ==> next.value.notes == st.notes + Refusals([e])
                           && next.value.roundtrips == st.roundtrips + Requests([e])
  {
    hide ReadCertificate, Settle;
    assert [e][1..] == [];
  }

  /** A note for every CERTIFICATE that is refused, in order, and one round trip for every
      GET_CERTIFICATE; nothing else is noted or counted. */
  lemma {:induction false} TheRestIsReported(es: seq<D.Entry>, hashBytes: Option<nat>)
    requires Walked(es, hashBytes).Some?
    ensures var w := Walked(es, hashBytes).value;
            w.notes == Refusals(es) && w.roundtrips == Requests(es) && w.current.None?
  {
    hide Run, Refusals, Requests, Settle;
    RunReportsTheRest(START, es, hashBytes);
    assert [] + Refusals(es) == Refusals(es);
  }
}
