/**
 bench/pcapstat.py: the certificate walk. A slot's chain arrives in portions, one per
 CERTIFICATE response, in a small (16-bit) or a large (32-bit) layout; `certificates` joins
 the portions and `_settle_chain` checks two equations on the result.
 */
module Certificates {
  import opened Bytes
  import opened Dechunk

  const SMALL_HEADER := 8
  const LARGE_HEADER := 16
  const LARGE_CHAIN: byte := 0x80

  /** How a chain reached the walk. */
  datatype Via = Certificate | Chunking | Mixed

  datatype Chain = Chain(slot: nat, firstPacket: nat, declared: nat, large: bool, via: Via,
                         portions: seq<nat>, data: seq<byte>)

  datatype WhyOpen = Incomplete | PortionsDisagree | NoLengthField | LengthDisagrees

  datatype Settled = Settled(chain: Chain, lengthField: Option<nat>, reservedIsZero: Option<bool>,
                             why: Option<WhyOpen>, certificatesBytes: Option<nat>, rootHash: seq<byte>)
  {
    predicate Closes() { why.None? }
  }

  /** `_settle_chain`; `hashBytes` is the negotiated hash width, if exactly one was. */
  function Settle(c: Chain, incomplete: bool, hashBytes: Option<nat>): Settled {
    var total := Sum(c.portions);
    if incomplete then Settled(c, None, None, Some(Incomplete), None, [])
    else if total != c.declared then Settled(c, None, None, Some(PortionsDisagree), None, [])
    else if |c.data| < 4 then Settled(c, None, None, Some(NoLengthField), None, [])
    else
      var length, zero := LE(c.data[0..4]), c.data[2..4] == [0, 0];
      if length != total then Settled(c, Some(length), Some(zero), Some(LengthDisagrees), None, [])
      else if hashBytes.Some? && total >= 4 + hashBytes.value then
        Settled(c, Some(length), Some(zero), None, Some(total - 4 - hashBytes.value),
                Slice(c.data, 4, 4 + hashBytes.value))
      else Settled(c, Some(length), Some(zero), None, None, [])
  }

  /** One CERTIFICATE response that could be read. */
  datatype Part = Part(packet: nat, rebuilt: bool, slot: nat, large: bool, portion: nat, remainder: nat,
                       chunk: seq<byte>)

  datatype Note = ShortCertificate(packet: nat) | SmallFieldsSet(packet: nat) | ShortPortion(packet: nat)

  /** Reading one CERTIFICATE response; Crash is the IndexError of a message with no Param1. */
  datatype Reading = Crash | Refused(note: Note) | Read(part: Part)

  function ReadCertificate(packet: nat, rebuilt: bool, m: Message): Reading {
    if |m| < 3 then Crash
    else
      var large := m[2] >= LARGE_CHAIN;
      var head := if large then LARGE_HEADER else SMALL_HEADER;
      if |m| < head then Refused(ShortCertificate(packet))
      else if large && m[4..8] != [0, 0, 0, 0] then Refused(SmallFieldsSet(packet))
      else
        var portion := if large then LE(m[8..12]) else LE(m[4..6]);
        var remainder := if large then LE(m[12..16]) else LE(m[6..8]);
        var chunk := Slice(m, head, head + portion);
        if |chunk| != portion then Refused(ShortPortion(packet))
        else Read(Part(packet, rebuilt, m[2] % 16, large, portion, remainder, chunk))
  }

  datatype Walker = Walker(current: Option<Chain>, slots: seq<Settled>, roundtrips: nat, notes: seq<Note>)

  const START := Walker(None, [], 0, [])

  function Begin(p: Part): Chain {
    Chain(p.slot, p.packet, p.portion + p.remainder, p.large, if p.rebuilt then Chunking else Certificate,
          [p.portion], p.chunk)
  }

  function Extend(c: Chain, p: Part): Chain {
    c.(via := if p.rebuilt && c.via == Certificate then Mixed else c.via,
       portions := c.portions + [p.portion], data := c.data + p.chunk)
  }

  function Take(st: Walker, p: Part, hashBytes: Option<nat>): Walker {
    var c := if st.current.None? then Begin(p) else Extend(st.current.value, p);
    if p.remainder == 0 then st.(current := None, slots := st.slots + [Settle(c, false, hashBytes)])
    else st.(current := Some(c))
  }

  function Step(st: Walker, e: Entry, hashBytes: Option<nat>): Option<Walker> {
    if e.Has(GET_CERTIFICATE) then Some(st.(roundtrips := st.roundtrips + 1))
    else if !e.Has(CERTIFICATE) then Some(st)
    else match ReadCertificate(e.packet, e.from != [], e.msg)
      case Crash => None
      case Refused(note) => Some(st.(notes := st.notes + [note]))
      case Read(p) => Some(Take(st, p, hashBytes))
  }

  function Run(st: Walker, es: seq<Entry>, hashBytes: Option<nat>): Option<Walker>
    decreases |es|
  {
    if es == [] then Some(st)
    else match Step(st, es[0], hashBytes)
      case None => None
      case Some(next) => Run(next, es[1..], hashBytes)
  }

  function Finish(st: Walker, hashBytes: Option<nat>): Walker {
    if st.current.Some? then st.(current := None, slots := st.slots + [Settle(st.current.value, true, hashBytes)])
    else st
  }

  function Walked(es: seq<Entry>, hashBytes: Option<nat>): Option<Walker> {
    match Run(START, es, hashBytes)
    case None => None
    case Some(st) => Some(Finish(st, hashBytes))
  }

  /** The part of the loop that reads one CERTIFICATE response, test by test as the source does. */
  method ReadResponse(packet: nat, rebuilt: bool, m: Message) returns (r: Reading)
    ensures r == ReadCertificate(packet, rebuilt, m)
  {
    hide LE;
    if |m| < 3 {
      return Crash;
    }
    var large := m[2] >= LARGE_CHAIN;
    var head := if large then LARGE_HEADER else SMALL_HEADER;
    if |m| < head {
      return Refused(ShortCertificate(packet));
    }
    var portion, remainder;
    if large {
      portion, remainder := LE(m[8..12]), LE(m[12..16]);
      if m[4..8] != [0, 0, 0, 0] {
        return Refused(SmallFieldsSet(packet));
      }
    } else {
      portion, remainder := LE(m[4..6]), LE(m[6..8]);
    }
    var chunk := Slice(m, head, head + portion);
    if |chunk| != portion {
      return Refused(ShortPortion(packet));
    }
    r := Read(Part(packet, rebuilt, m[2] % 16, large, portion, remainder, chunk));
  }

  /** `certificates`, with the loop and the branches of the source. */
  method Walk(entries: seq<Entry>, hashBytes: Option<nat>) returns (result: Option<Walker>)
    ensures result == Walked(entries, hashBytes)
  {
    hide ReadCertificate, Settle, Finish;
    var st := START;
    var i := 0;
    while i < |entries|
      invariant 0 <= i <= |entries|
      invariant Run(START, entries, hashBytes) == Run(st, entries[i..], hashBytes)
    {
      var e := entries[i];
      assert entries[i..][0] == e && entries[i..][1..] == entries[i + 1..];
      i := i + 1;
      if e.Has(GET_CERTIFICATE) {
        st := st.(roundtrips := st.roundtrips + 1);
        continue;
      }
      if !e.Has(CERTIFICATE) {
        continue;
      }
      var reading := ReadResponse(e.packet, e.from != [], e.msg);
      if reading.Crash? {
        return None;
      }
      if reading.Refused? {
        st := st.(notes := st.notes + [reading.note]);
        continue;
      }
      var p := reading.part;
      var current;
      if st.current.None? {
        current := Chain(p.slot, e.packet, p.portion + p.remainder, p.large,
                         if e.from != [] then Chunking else Certificate, [p.portion], p.chunk);
      } else {
        var c := st.current.value;
        current := c.(via := if e.from != [] && c.via == Certificate then Mixed else c.via,
                      portions := c.portions + [p.portion], data := c.data + p.chunk);
      }
      PartOfEntry(e, p);
      if p.remainder == 0 {
        st := st.(current := None, slots := st.slots + [Settle(current, false, hashBytes)]);
      } else {
        st := st.(current := Some(current));
      }
    }
    result := Some(Finish(st, hashBytes));
  }

  lemma {:induction false} PartOfEntry(e: Entry, p: Part)
    requires e.Spdm? && ReadCertificate(e.packet, e.from != [], e.msg) == Read(p)
    ensures p.packet == e.packet && p.rebuilt == (e.from != [])
  {
  }

  // ---- what the slots are, without the loop ---------------------------------------

  /** The readable CERTIFICATE responses of a capture, in order. */
  function Parts(es: seq<Entry>): seq<Part> {
    if es == [] then [] else
      (if es[0].Has(CERTIFICATE) then
         match ReadCertificate(es[0].packet, es[0].from != [], es[0].msg)
         case Read(p) => [p]
         case _ => []
       else []) + Parts(es[1..])
  }

  /** The chain a run of responses describes: the first says what to expect, all bring bytes. */
  function ChainOf(ps: seq<Part>): Chain
    requires ps != []
  {
    Chain(ps[0].slot, ps[0].packet, ps[0].portion + ps[0].remainder, ps[0].large,
          if ps[0].rebuilt then Chunking else if exists i :: 0 <= i < |ps| && ps[i].rebuilt then Mixed else Certificate,
          seq(|ps|, i requires 0 <= i < |ps| => ps[i].portion),
          Concat(seq(|ps|, i requires 0 <= i < |ps| => ps[i].chunk)))
  }

  /** The responses cut after every zero remainder; a run left without one is incomplete. */
  function SlotsOf(pending: seq<Part>, ps: seq<Part>, hashBytes: Option<nat>): seq<Settled>
    decreases |ps|
  {
    if ps == [] then (if pending == [] then [] else [Settle(ChainOf(pending), true, hashBytes)])
    else
      var run := pending + [ps[0]];
      if ps[0].remainder == 0 then [Settle(ChainOf(run), false, hashBytes)] + SlotsOf([], ps[1..], hashBytes)
      else SlotsOf(run, ps[1..], hashBytes)
  }

  lemma {:induction false} ChainExtends(pending: seq<Part>, p: Part)
    ensures ChainOf(pending + [p]) == if pending == [] then Begin(p) else Extend(ChainOf(pending), p)
  {
    var run := pending + [p];
    var portions := seq(|pending|, i requires 0 <= i < |pending| => pending[i].portion);
    var chunks := seq(|pending|, i requires 0 <= i < |pending| => pending[i].chunk);
    assert seq(|run|, i requires 0 <= i < |run| => run[i].portion) == portions + [p.portion];
    assert seq(|run|, i requires 0 <= i < |run| => run[i].chunk) == chunks + [p.chunk];
    ConcatAppend(chunks, [p.chunk]);
    assert Concat([p.chunk]) == p.chunk + Concat([]) == p.chunk;
    assert run[|pending|] == p;
    assert forall i :: 0 <= i < |pending| ==> run[i] == pending[i];
  }

  lemma {:induction false} RunCuts(st: Walker, es: seq<Entry>, pending: seq<Part>, hashBytes: Option<nat>)
    requires st.current == if pending == [] then None else Some(ChainOf(pending))
    ensures var r := Run(st, es, hashBytes);
            r.Some? ==> Finish(r.value, hashBytes).slots == st.slots + SlotsOf(pending, Parts(es), hashBytes)
    decreases |es|
  {
    hide ChainOf, Settle;
    if es != [] && Step(st, es[0], hashBytes).Some? {
      var next := Step(st, es[0], hashBytes).value;
      if es[0].Has(CERTIFICATE) && ReadCertificate(es[0].packet, es[0].from != [], es[0].msg).Read? {
        var p := ReadCertificate(es[0].packet, es[0].from != [], es[0].msg).part;
        var run := pending + [p];
        ChainExtends(pending, p);
        assert Parts(es) == [p] + Parts(es[1..]);
        assert Parts(es)[1..] == Parts(es[1..]);
        if p.remainder == 0 {
          RunCuts(next, es[1..], [], hashBytes);
          Assoc(st.slots, [Settle(ChainOf(run), false, hashBytes)], SlotsOf([], Parts(es[1..]), hashBytes));
        } else {
          RunCuts(next, es[1..], run, hashBytes);
        }
      } else {
        assert Parts(es) == Parts(es[1..]);
        RunCuts(next, es[1..], pending, hashBytes);
      }
    }
  }

  /** The walk is the cut: its slots are the runs of readable responses between zero
      remainders, each settled once. */
  lemma {:induction false} WalkCutsAtZeroRemainder(es: seq<Entry>, hashBytes: Option<nat>)
    requires Walked(es, hashBytes).Some?
    ensures Walked(es, hashBytes).value.slots == SlotsOf([], Parts(es), hashBytes)
  {
    RunCuts(START, es, [], hashBytes);
  }

  /** The walk fails on exactly the captures holding a CERTIFICATE of two bytes. */
  lemma {:induction false} WalkFailsExactly(st: Walker, es: seq<Entry>, hashBytes: Option<nat>)
    ensures Run(st, es, hashBytes).None? <==> exists i :: 0 <= i < |es| && es[i].Has(CERTIFICATE) && |es[i].msg| == 2
    decreases |es|
  {
    if es != [] {
      var s := Step(st, es[0], hashBytes);
      if s.Some? {
        WalkFailsExactly(s.value, es[1..], hashBytes);
        if i :| 0 <= i < |es[1..]| && es[1..][i].Has(CERTIFICATE) && |es[1..][i].msg| == 2 {
          assert es[i + 1] == es[1..][i];
        }
        if i :| 0 <= i < |es| && es[i].Has(CERTIFICATE) && |es[i].msg| == 2 {
          assert es[i] == es[1..][i - 1];
        }
      }
    }
  }

  /** A run of responses the walk may settle: every part is whole. */
  ghost predicate WholeParts(ps: seq<Part>) {
    forall i :: 0 <= i < |ps| ==> |ps[i].chunk| == ps[i].portion
  }

  lemma {:induction false} PortionsAreBytes(ps: seq<Part>)
    requires WholeParts(ps)
    ensures Sum(seq(|ps|, i requires 0 <= i < |ps| => ps[i].portion))
         == |Concat(seq(|ps|, i requires 0 <= i < |ps| => ps[i].chunk))|
  {
    if ps != [] {
      PortionsAreBytes(ps[1..]);
      assert seq(|ps|, i requires 0 <= i < |ps| => ps[i].portion)[1..]
          == seq(|ps[1..]|, i requires 0 <= i < |ps[1..]| => ps[1..][i].portion);
      assert seq(|ps|, i requires 0 <= i < |ps| => ps[i].chunk)[1..]
          == seq(|ps[1..]|, i requires 0 <= i < |ps[1..]| => ps[1..][i].chunk);
    }
  }

  lemma {:induction false} PartsAreWhole(es: seq<Entry>)
    ensures WholeParts(Parts(es))
  {
    if es != [] {
      PartsAreWhole(es[1..]);
    }
  }

  /** Four numbers from four places agree: what arrived, what the portions add up to, what the
      first response announced and what the chain says of itself. */
  ghost predicate FourWayAgreement(c: Chain) {
    && Sum(c.portions) == c.declared == |c.data|
    && |c.data| >= 4 && LE(c.data[0..4]) == |c.data|
  }

  /** The readable responses cut into runs after every zero remainder. */
  function Runs(pending: seq<Part>, ps: seq<Part>): seq<seq<Part>>
    decreases |ps|
  {
    if ps == [] then (if pending == [] then [] else [pending])
    else
      var run := pending + [ps[0]];
      if ps[0].remainder == 0 then [run] + Runs([], ps[1..]) else Runs(run, ps[1..])
  }

  /** A run is finished when its last response says that nothing remains. */
  predicate Finished(run: seq<Part>) {
    run != [] && run[|run| - 1].remainder == 0
  }

  ghost predicate Unfinished(run: seq<Part>) {
    forall i :: 0 <= i < |run| ==> run[i].remainder != 0
  }

  /** The runs are the responses in order, none is empty, and a zero remainder stands only at
      the end of one; the last alone may be without. */
  lemma {:induction false} RunsCut(pending: seq<Part>, ps: seq<Part>)
    requires Unfinished(pending)
    ensures var rs := Runs(pending, ps);
            && Concat(rs) == pending + ps
            && forall k :: 0 <= k < |rs| ==>
                 rs[k] != [] && Unfinished(rs[k][..|rs[k]| - 1]) && (k < |rs| - 1 ==> Finished(rs[k]))
    decreases |ps|
  {
    if ps == [] {
      assert Concat([pending]) == pending + Concat([]) == pending;
    } else {
      var run := pending + [ps[0]];
      assert run + ps[1..] == pending + ps;
      if ps[0].remainder == 0 {
        RunsCut([], ps[1..]);
        var rest := Runs([], ps[1..]);
        assert [] + ps[1..] == ps[1..];
        assert ([run] + rest)[1..] == rest && run[..|run| - 1] == pending;
        FirstRun(run, rest);
      } else {
        RunsCut(run, ps[1..]);
      }
    }
  }

  lemma {:induction false} FirstRun(run: seq<Part>, rest: seq<seq<Part>>)
    requires Finished(run) && Unfinished(run[..|run| - 1])
    requires forall k :: 0 <= k < |rest| ==>
               rest[k] != [] && Unfinished(rest[k][..|rest[k]| - 1]) && (k < |rest| - 1 ==> Finished(rest[k]))
    ensures var rs := [run] + rest;
            forall k :: 0 <= k < |rs| ==>
              rs[k] != [] && Unfinished(rs[k][..|rs[k]| - 1]) && (k < |rs| - 1 ==> Finished(rs[k]))
  {
    hide Unfinished;
    var rs := [run] + rest;
    forall k | 0 <= k < |rs|
      ensures rs[k] != [] && Unfinished(rs[k][..|rs[k]| - 1]) && (k < |rs| - 1 ==> Finished(rs[k]))
    {
      assert k > 0 ==> rs[k] == rest[k - 1];
    }
  }

  /** Every slot of a walk is its own run, settled. */
  lemma {:induction false} SlotsAreRuns(pending: seq<Part>, ps: seq<Part>, hashBytes: Option<nat>, k: nat)
    requires Unfinished(pending) && k < |Runs(pending, ps)|
    ensures |SlotsOf(pending, ps, hashBytes)| == |Runs(pending, ps)|
    ensures var run := Runs(pending, ps)[k];
            run != [] && SlotsOf(pending, ps, hashBytes)[k] == Settle(ChainOf(run), !Finished(run), hashBytes)
    decreases |ps|
  {
    hide Settle, ChainOf;
    if ps == [] {
      assert Runs(pending, ps) == [pending];
    } else {
      var run := pending + [ps[0]];
      assert run[|run| - 1] == ps[0];
      if ps[0].remainder != 0 {
        SlotsAreRuns(run, ps[1..], hashBytes, k);
      } else {
        var slots, rest := SlotsOf([], ps[1..], hashBytes), Runs([], ps[1..]);
        SameCount([], ps[1..], hashBytes);
        assert Runs(pending, ps) == [run] + rest;
        assert SlotsOf(pending, ps, hashBytes) == [Settle(ChainOf(run), false, hashBytes)] + slots;
        if k > 0 {
          SlotsAreRuns([], ps[1..], hashBytes, k - 1);
        }
      }
    }
  }

  lemma {:induction false} SameCount(pending: seq<Part>, ps: seq<Part>, hashBytes: Option<nat>)
    ensures |SlotsOf(pending, ps, hashBytes)| == |Runs(pending, ps)|
    decreases |ps|
  {
    hide Settle, ChainOf;
    if ps != [] {
      SameCount(if ps[0].remainder == 0 then [] else pending + [ps[0]], ps[1..], hashBytes);
    }
  }

  lemma {:induction false} SettledExactly(run: seq<Part>, hashBytes: Option<nat>)
    requires run != [] && WholeParts(run)
    ensures Settle(ChainOf(run), !Finished(run), hashBytes).Closes() <==>
            Finished(run) && FourWayAgreement(ChainOf(run))
  {
    hide LE, Slice;
    PortionsAreBytes(run);
  }

  lemma {:induction false} PartOfRuns(rs: seq<seq<Part>>, k: nat)
    requires k < |rs| && WholeParts(Concat(rs))
    ensures WholeParts(rs[k])
  {
    var all := Concat(rs);
    assert all == rs[0] + Concat(rs[1..]);
    if k == 0 {
      assert forall i :: 0 <= i < |rs[0]| ==> all[i] == rs[0][i];
    } else {
      assert forall i :: 0 <= i < |Concat(rs[1..])| ==> all[|rs[0]| + i] == Concat(rs[1..])[i];
      PartOfRuns(rs[1..], k - 1);
    }
  }

  /** The slots of every walk are the runs of readable responses, and a slot is reported as
      closing exactly when its run ended with a zero remainder and the four numbers agree. */
  lemma {:induction false} ReportedChainsAgree(es: seq<Entry>, hashBytes: Option<nat>, k: nat)
    requires Walked(es, hashBytes).Some? && k < |Runs([], Parts(es))|
    ensures var (slots, run) := (Walked(es, hashBytes).value.slots, Runs([], Parts(es))[k]);
            && |slots| == |Runs([], Parts(es))| && run != [] && slots[k].chain == ChainOf(run)
            && (slots[k].Closes() <==> Finished(run) && FourWayAgreement(ChainOf(run)))
  {
    hide Settle, ChainOf, Walked, SlotsOf, FourWayAgreement;
    WalkCutsAtZeroRemainder(es, hashBytes);
    PartsAreWhole(es);
    RunsCut([], Parts(es));
    assert [] + Parts(es) == Parts(es);
    PartOfRuns(Runs([], Parts(es)), k);
    SlotsAreRuns([], Parts(es), hashBytes, k);
    SettledExactly(Runs([], Parts(es))[k], hashBytes);
    SettleKeepsChain(ChainOf(Runs([], Parts(es))[k]), !Finished(Runs([], Parts(es))[k]), hashBytes);
  }

  lemma {:induction false} SettleKeepsChain(c: Chain, incomplete: bool, hashBytes: Option<nat>)
    ensures Settle(c, incomplete, hashBytes).chain == c
  {
  }
}
