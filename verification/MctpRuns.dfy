/**
 What grouping reports and what it misses. A key's traffic is free of problems exactly when
 it is a series of whole messages; packetised streams come back exactly, whatever the
 interleaving; and a lost run of packets goes unseen in exactly one case.
 */
module MctpRuns {
  import opened Bytes
  import opened Mctp

  /** A message as DSP0236 sends it: SOM on the first packet only, EOM on the last only, the
      two-bit sequence number advancing by one. */
  ghost predicate Whole(ps: seq<Packet>, k: Key) {
    && ps != []
    && (forall i :: 0 <= i < |ps| ==> ps[i].Stream() == k && (ps[i].som <==> i == 0) && (ps[i].eom <==> i == |ps| - 1))
    && Consecutive(ps)
  }

  /** The beginning of one: no EOM yet. */
  ghost predicate Begun(ps: seq<Packet>, k: Key) {
    && (forall i :: 0 <= i < |ps| ==> ps[i].Stream() == k && (ps[i].som <==> i == 0) && !ps[i].eom)
    && Consecutive(ps)
  }

  ghost predicate Consecutive(ps: seq<Packet>) {
    forall i :: 0 < i < |ps| ==> ps[i].seqNo == (ps[i - 1].seqNo + 1) % 4
  }

  ghost predicate AllWhole(runs: seq<seq<Packet>>, k: Key) {
    forall i :: 0 <= i < |runs| ==> Whole(runs[i], k)
  }

  function Packets(ps: seq<(nat, Packet)>): (packets: seq<Packet>)
    ensures |packets| == |ps|
  {
    seq(|ps|, i requires 0 <= i < |ps| => ps[i].1)
  }

  function Sizes(ps: seq<Packet>): (sizes: seq<nat>)
    ensures |sizes| == |ps|
  {
    seq(|ps|, i requires 0 <= i < |ps| => |ps[i].payload|)
  }

  /** `m` is the record of a message sent as these packets. */
  ghost predicate Describes(m: Message, ps: seq<Packet>, k: Key) {
    && ps != [] && m.key == k && m.ver == ps[0].ver
    && m.packets == |ps| && m.sizes == Sizes(ps) && m.bytes == Sum(Sizes(ps))
    && m.msgType == (if ps[0].payload != [] then Some(ps[0].payload[0]) else None)
  }

  ghost predicate Reported(ms: seq<Message>, runs: seq<seq<Packet>>, k: Key) {
    |ms| == |runs| && forall i :: 0 <= i < |runs| ==> Describes(ms[i], runs[i], k) && ms[i].complete
  }

  // ---- a view driven by whole messages ---------------------------------------------

  lemma {:induction false} RunViewAppend(v: View, a: seq<(nat, Packet)>, b: seq<(nat, Packet)>)
    ensures RunView(v, a + b) == RunView(RunView(v, a), b)
    decreases |a|
  {
    if a == [] {
      assert a + b == b;
    } else {
      RunViewAppend(StepView(v, a[0].0, a[0].1), a[1..], b);
      assert (a + b)[0] == a[0] && (a + b)[1..] == a[1..] + b;
    }
  }

  lemma {:induction false} ExtendedDescribes(m: Message, ps: seq<Packet>, p: Packet, k: Key)
    requires Describes(m, ps, k) && p.Stream() == k
    ensures Describes(Extended(m, p), ps + [p], k)
  {
    assert Sizes(ps + [p]) == Sizes(ps) + [|p.payload|];
    SumAppend(Sizes(ps), [|p.payload|]);
    assert Sum([|p.payload|]) == |p.payload|;
  }

  lemma {:induction false} OpenedDescribes(index: nat, p: Packet)
    ensures Describes(Extended(Opened(index, p), p), [p], p.Stream())
  {
    assert Sizes([p]) == [|p.payload|];
    assert Sum([|p.payload|]) == |p.payload|;
  }

  /** `done` packets of one message are in; the rest finish it without a complaint. */
  lemma {:induction false} RestOfMessage(v: View, ps: seq<(nat, Packet)>, done: seq<Packet>,
                                         k: Key) returns (m: Message)
    requires done != [] && ps != [] && Whole(done + Packets(ps), k)
    requires v.cur.Some? && Describes(v.cur.value, done, k) && v.cur.value.next == (done[|done| - 1].seqNo + 1) % 4
    ensures RunView(v, ps) == View(None, v.messages + [m], v.problems)
    ensures Describes(m, done + Packets(ps), k) && m.complete
    decreases |ps|
  {
    var all := done + Packets(ps);
    var p := ps[0].1;
    assert all[|done|] == p && all[|done| - 1] == done[|done| - 1];
    ExtendedDescribes(v.cur.value, done, p, k);
    assert done + Packets(ps) == (done + [p]) + Packets(ps[1..]);
    var next := StepView(v, ps[0].0, p);
    assert next.problems == v.problems;
    if ps[1..] == [] {
      assert all == done + [p];
      assert p.eom;
      m := Extended(v.cur.value, p).(complete := true, lastIndex := Some(ps[0].0));
    } else {
      assert !p.eom;
      m := RestOfMessage(next, ps[1..], done + [p], k);
    }
  }

  lemma {:induction false} WholeMessage(v: View, ps: seq<(nat, Packet)>, k: Key) returns (m: Message)
    requires v.cur.None? && Whole(Packets(ps), k)
    ensures RunView(v, ps) == View(None, v.messages + [m], v.problems)
    ensures Describes(m, Packets(ps), k) && m.complete
  {
    var p := ps[0].1;
    assert Packets(ps)[0] == p;
    OpenedDescribes(ps[0].0, p);
    assert Packets(ps) == [p] + Packets(ps[1..]);
    var next := StepView(v, ps[0].0, p);
    assert next.problems == v.problems;
    if ps[1..] == [] {
      m := Extended(Opened(ps[0].0, p), p).(complete := true, lastIndex := Some(ps[0].0));
    } else {
      m := RestOfMessage(next, ps[1..], [p], k);
    }
  }

  /** A series of whole messages is reported as those messages, with no problem. */
  lemma {:induction false} SeriesIsReported(v: View, ps: seq<(nat, Packet)>, runs: seq<seq<Packet>>, k: Key)
    returns (ms: seq<Message>)
    requires v.cur.None? && Packets(ps) == Concat(runs) && AllWhole(runs, k)
    ensures RunView(v, ps) == View(None, v.messages + ms, v.problems)
    ensures Reported(ms, runs, k)
    decreases |runs|
  {
    ms := [];
    if runs != [] {
      var n := |runs[0]|;
      assert Packets(ps[..n]) == Packets(ps)[..n] == runs[0];
      assert Packets(ps[n..]) == Packets(ps)[n..] == Concat(runs[1..]);
      assert ps == ps[..n] + ps[n..];
      RunViewAppend(v, ps[..n], ps[n..]);
      var m := WholeMessage(v, ps[..n], k);
      var rest := SeriesIsReported(RunView(v, ps[..n]), ps[n..], runs[1..], k);
      ms := [m] + rest;
      Assoc(v.messages, [m], rest);
    }
  }

  lemma {:induction false} ProblemsGrow(v: View, ps: seq<(nat, Packet)>)
    ensures v.problems <= RunView(v, ps).problems
    decreases |ps|
  {
    if ps != [] {
      ProblemsGrow(StepView(v, ps[0].0, ps[0].1), ps[1..]);
    }
  }

  /** A packet in sequence carries on what was begun, or ends it. */
  lemma {:induction false} OneMore(pending: seq<Packet>, p: Packet, k: Key)
    requires Begun(pending, k) && p.Stream() == k && (p.som <==> pending == [])
    requires pending != [] ==> p.seqNo == (pending[|pending| - 1].seqNo + 1) % 4
    ensures if p.eom then Whole(pending + [p], k) else Begun(pending + [p], k)
  {
  }

  lemma {:induction false} SeriesCons(run: seq<Packet>, runs: seq<seq<Packet>>, k: Key)
    requires Whole(run, k) && AllWhole(runs, k)
    ensures AllWhole([run] + runs, k) && Concat([run] + runs) == run + Concat(runs)
  {
    hide Whole;
    assert ([run] + runs)[1..] == runs;
  }

  /** Conversely: traffic of one key that draws no complaint and leaves nothing open is a
      series of whole messages. */
  lemma {:induction false} QuietTrafficIsASeries(v: View, ps: seq<(nat, Packet)>, pending: seq<Packet>, k: Key)
    returns (runs: seq<seq<Packet>>)
    requires forall i :: 0 <= i < |ps| ==> ps[i].1.Stream() == k
    requires if pending == [] then v.cur.None?
             else v.cur.Some? && Begun(pending, k) && v.cur.value.next == (pending[|pending| - 1].seqNo + 1) % 4
    requires RunView(v, ps).cur.None? && RunView(v, ps).problems == v.problems
    ensures Concat(runs) == pending + Packets(ps) && AllWhole(runs, k)
    decreases |ps|
  {
    hide Consecutive;
    if ps == [] {
      runs := [];
      assert pending == [];
    } else {
      var p := ps[0].1;
      var next := StepView(v, ps[0].0, p);
      ProblemsGrow(next, ps[1..]);
      assert Complaints(v.cur, ps[0].0, p) == [];
      assert pending + Packets(ps) == (pending + [p]) + Packets(ps[1..]);
      assert p.som <==> pending == [];
      OneMore(pending, p, k);
      if p.eom {
        runs := QuietTrafficIsASeries(next, ps[1..], [], k);
        SeriesCons(pending + [p], runs, k);
        runs := [pending + [p]] + runs;
        assert [] + Packets(ps[1..]) == Packets(ps[1..]);
      } else {
        runs := QuietTrafficIsASeries(next, ps[1..], pending + [p], k);
      }
    }
  }

  lemma {:induction false} ProjectedKey(ps: seq<(nat, Packet)>, k: Key)
    ensures forall i :: 0 <= i < |Project(ps, k)| ==> Project(ps, k)[i].1.Stream() == k
  {
    if ps != [] {
      ProjectedKey(ps[1..], k);
    }
  }

  /** A capture reports no problem under a key exactly when that key's packets are a series of
      whole messages, and then they are the messages reported. */
  lemma {:induction false} QuietExactlyWhenWhole(ps: seq<(nat, Packet)>, k: Key)
    ensures ProblemsOf(Grouped(ps).problems, k) == []
        <==> exists runs :: Packets(Project(ps, k)) == Concat(runs) && AllWhole(runs, k)
  {
    var start := View(None, [], []);
    var own := Project(ps, k);
    GroupingIsPerKey(ps, k);
    ProjectedKey(ps, k);
    if runs :| Packets(own) == Concat(runs) && AllWhole(runs, k) {
      var ms := SeriesIsReported(start, own, runs, k);
    }
    if ProblemsOf(Grouped(ps).problems, k) == [] {
      var runs := QuietTrafficIsASeries(start, own, [], k);
      assert [] + Packets(own) == Packets(own);
    }
  }

  lemma {:induction false} SeriesReportedInCapture(ps: seq<(nat, Packet)>, k: Key, runs: seq<seq<Packet>>)
    requires Packets(Project(ps, k)) == Concat(runs) && AllWhole(runs, k)
    ensures Reported(OfKey(Grouped(ps).messages, k), runs, k)
    ensures ProblemsOf(Grouped(ps).problems, k) == []
  {
    GroupingIsPerKey(ps, k);
    var ms := SeriesIsReported(View(None, [], []), Project(ps, k), runs, k);
    assert [] + ms == ms;
  }

  // ---- packetising ----------------------------------------------------------------

  /** `mctp_packets`; None is the ValueError for a transmission unit that is not positive. */
  function MctpPackets(msgBytes: nat, mtu: int): Option<nat> {
    if mtu <= 0 then None else Some(CeilDiv(msgBytes + 1, mtu))
  }

  /** `mctp_packets_subtract_header`, the formula the file keeps to show that it is wrong. */
  function RivalPackets(msgBytes: nat, mtu: int): Option<nat> {
    if mtu - 5 <= 0 then None else Some(CeilDiv(msgBytes, mtu - 5))
  }

  /** Where the two formulas part: the rival never says fewer for a message that is not empty,
      and agrees exactly as long as the packets have room to spare for its extra five bytes. */
  lemma {:induction false} RivalAgreesExactly(msgBytes: nat, mtu: int)
    requires mtu > 5
    ensures var (n, rival) := (MctpPackets(msgBytes, mtu).value, RivalPackets(msgBytes, mtu).value);
            && (msgBytes > 0 ==> n <= rival && (n == rival <==> msgBytes <= n * (mtu - 5)))
            && (msgBytes == 0 ==> n == 1 && rival == 0)
  {
    var (n, rival) := (MctpPackets(msgBytes, mtu).value, RivalPackets(msgBytes, mtu).value);
    CeilDivIsLeast(msgBytes, mtu - 5, rival);
    CeilDivIsLeast(msgBytes, mtu - 5, n);
    CeilDivIsLeast(msgBytes, mtu - 5, 0);
    CeilDivIsLeast(msgBytes + 1, mtu, rival);
    CeilDivIsLeast(msgBytes + 1, mtu, 0);
    CeilDivIsLeast(msgBytes + 1, mtu, 1);
    assert rival * mtu == rival * (mtu - 5) + 5 * rival;
  }

  /** A message to send: its type byte comes first, in the first packet only. */
  datatype Sent = Sent(ver: byte, msgType: byte, msg: seq<byte>, seqNo: nat)

  /** The rest of a body in packets of `mtu` payload bytes. */
  function Packetised(k: Key, ver: byte, body: seq<byte>, seqNo: nat, first: bool, mtu: nat): seq<Packet>
    requires mtu > 0
    decreases |body|
  {
    if |body| <= mtu then [Packet(ver, k.dest, k.src, first, true, seqNo % 4, k.to, k.tag, body)]
    else [Packet(ver, k.dest, k.src, first, false, seqNo % 4, k.to, k.tag, body[..mtu])]
           + Packetised(k, ver, body[mtu..], seqNo + 1, false, mtu)
  }

  function Packetise(k: Key, s: Sent, mtu: nat): seq<Packet>
    requires mtu > 0
  {
    Packetised(k, s.ver, [s.msgType] + s.msg, s.seqNo, true, mtu)
  }

  lemma {:induction false} PacketisedSizes(k: Key, ver: byte, body: seq<byte>, seqNo: nat, first: bool, mtu: nat)
    requires mtu > 0 && body != []
    ensures var ps := Packetised(k, ver, body, seqNo, first, mtu);
            && |ps| == CeilDiv(|body|, mtu) && Sum(Sizes(ps)) == |body|
            && ps != [] && ps[0].payload != [] && ps[0].payload[0] == body[0] && ps[0].ver == ver
    decreases |body|
  {
    hide CeilDiv;
    var ps := Packetised(k, ver, body, seqNo, first, mtu);
    if |body| <= mtu {
      CeilDivIsLeast(|body|, mtu, 1);
      CeilDivIsLeast(|body|, mtu, 0);
      assert Sizes(ps) == [|body|] && Sum([|body|]) == |body|;
    } else {
      PacketisedSizes(k, ver, body[mtu..], seqNo + 1, false, mtu);
      CeilDivOneMore(|body| - mtu, mtu);
      assert Sizes(ps)[1..] == Sizes(Packetised(k, ver, body[mtu..], seqNo + 1, false, mtu));
    }
  }

  lemma {:induction false} PacketisedShape(k: Key, ver: byte, body: seq<byte>, seqNo: nat, first: bool, mtu: nat)
    requires mtu > 0
    ensures var ps := Packetised(k, ver, body, seqNo, first, mtu);
            && ps != [] && ps[0].seqNo == seqNo % 4 && Consecutive(ps)
            && forall i :: 0 <= i < |ps| ==> ps[i].Stream() == k && (ps[i].som <==> first && i == 0)
                                             && (ps[i].eom <==> i == |ps| - 1)
    decreases |body|
  {
    if |body| > mtu {
      var ps := Packetised(k, ver, body, seqNo, first, mtu);
      var tail := Packetised(k, ver, body[mtu..], seqNo + 1, false, mtu);
      PacketisedShape(k, ver, body[mtu..], seqNo + 1, false, mtu);
      assert forall i :: 0 < i < |ps| ==> ps[i] == tail[i - 1];
      assert ps[1].seqNo == (seqNo + 1) % 4 == (ps[0].seqNo + 1) % 4;
    }
  }

  /** A packetised message is whole, with the predicted number of packets and all its bytes. */
  lemma {:induction false} PacketiseIsWhole(k: Key, s: Sent, mtu: nat)
    requires mtu > 0
    ensures var ps := Packetise(k, s, mtu);
            && Whole(ps, k) && Some(|ps|) == MctpPackets(|s.msg|, mtu) && Sum(Sizes(ps)) == |s.msg| + 1
            && ps[0].payload != [] && ps[0].payload[0] == s.msgType && ps[0].ver == s.ver
  {
    PacketisedSizes(k, s.ver, [s.msgType] + s.msg, s.seqNo, true, mtu);
    PacketisedShape(k, s.ver, [s.msgType] + s.msg, s.seqNo, true, mtu);
  }

  ghost function PacketiseAll(k: Key, sents: seq<Sent>, mtu: nat): (runs: seq<seq<Packet>>)
    requires mtu > 0
    ensures |runs| == |sents|
  {
    seq(|sents|, i requires 0 <= i < |sents| => Packetise(k, sents[i], mtu))
  }

  /** `m` reports exactly the message sent. */
  ghost predicate Delivered(m: Message, s: Sent, k: Key, mtu: nat) {
    && m.key == k && m.ver == s.ver && m.msgType == Some(s.msgType) && m.complete
    && m.bytes == |s.msg| + 1 && Some(m.packets) == MctpPackets(|s.msg|, mtu)
  }

  /** Any interleaving of packetised streams: every message comes back under its key with its
      exact byte and packet counts, and no problem is reported. */
  lemma {:induction false} InterleavedStreamsComeBack(ps: seq<(nat, Packet)>, streams: map<Key, seq<Sent>>, mtu: nat)
    requires mtu > 0
    requires forall k :: Packets(Project(ps, k)) ==
               (if k in streams then Concat(PacketiseAll(k, streams[k], mtu)) else [])
    ensures Grouped(ps).problems == []
    ensures forall k :: k in streams ==>
              && |OfKey(Grouped(ps).messages, k)| == |streams[k]|
              && forall i :: 0 <= i < |streams[k]| ==>
                   Delivered(OfKey(Grouped(ps).messages, k)[i], streams[k][i], k, mtu)
    ensures forall k :: k !in streams ==> OfKey(Grouped(ps).messages, k) == []
  {
    forall k
      ensures ProblemsOf(Grouped(ps).problems, k) == []
      ensures k in streams ==>
              && |OfKey(Grouped(ps).messages, k)| == |streams[k]|
              && forall i :: 0 <= i < |streams[k]| ==>
                   Delivered(OfKey(Grouped(ps).messages, k)[i], streams[k][i], k, mtu)
      ensures k !in streams ==> OfKey(Grouped(ps).messages, k) == []
    {
      StreamComesBack(ps, k, if k in streams then streams[k] else [], mtu);
    }
    ProblemsByKey(Grouped(ps).problems);
  }

  lemma {:induction false} StreamComesBack(ps: seq<(nat, Packet)>, k: Key, sents: seq<Sent>, mtu: nat)
    requires mtu > 0 && Packets(Project(ps, k)) == Concat(PacketiseAll(k, sents, mtu))
    ensures ProblemsOf(Grouped(ps).problems, k) == []
    ensures |OfKey(Grouped(ps).messages, k)| == |sents|
    ensures forall i :: 0 <= i < |sents| ==> Delivered(OfKey(Grouped(ps).messages, k)[i], sents[i], k, mtu)
  {
    var runs := PacketiseAll(k, sents, mtu);
    forall i | 0 <= i < |sents|
      ensures Whole(runs[i], k)
    {
      PacketiseIsWhole(k, sents[i], mtu);
    }
    SeriesReportedInCapture(ps, k, runs);
    var ms := OfKey(Grouped(ps).messages, k);
    forall i | 0 <= i < |sents|
      ensures Delivered(ms[i], sents[i], k, mtu)
    {
      PacketiseIsWhole(k, sents[i], mtu);
      assert Describes(ms[i], runs[i], k);
    }
  }

  // ---- conservation ---------------------------------------------------------------

  function CountPackets(ms: seq<Message>): nat {
    if ms == [] then 0 else ms[0].packets + CountPackets(ms[1..])
  }

  function CountBytes(ms: seq<Message>): nat {
    if ms == [] then 0 else ms[0].bytes + CountBytes(ms[1..])
  }

  lemma {:induction false} CountsAppend(a: seq<Message>, b: seq<Message>)
    ensures CountPackets(a + b) == CountPackets(a) + CountPackets(b)
    ensures CountBytes(a + b) == CountBytes(a) + CountBytes(b)
  {
    if a == [] {
      assert a + b == b;
    } else {
      CountsAppend(a[1..], b);
      assert (a + b)[0] == a[0] && (a + b)[1..] == a[1..] + b;
    }
  }

  /** Putting or removing under a key changes the counts by that key's entry alone. */
  lemma {:induction false} CountsPut(open: seq<Message>, m: Message)
    requires Distinct(open)
    ensures var was := Lookup(open, m.key);
            && CountPackets(Put(open, m)) ==
                 CountPackets(open) + m.packets - (if was.Some? then was.value.packets else 0)
            && CountBytes(Put(open, m)) == CountBytes(open) + m.bytes - (if was.Some? then was.value.bytes else 0)
            && CountPackets(Remove(open, m.key)) == CountPackets(open) - (if was.Some? then was.value.packets else 0)
            && CountBytes(Remove(open, m.key)) == CountBytes(open) - (if was.Some? then was.value.bytes else 0)
  {
    if open != [] {
      CountsPut(open[1..], m);
      if open[0].key != m.key {
        assert Put(open, m)[1..] == Put(open[1..], m);
        assert Remove(open, m.key)[1..] == Remove(open[1..], m.key);
      } else {
        assert Put(open, m)[1..] == open[1..];
      }
    }
  }

  function PayloadBytes(ps: seq<(nat, Packet)>): nat {
    if ps == [] then 0 else |ps[0].1.payload| + PayloadBytes(ps[1..])
  }

  lemma {:induction false} StepConserves(st: Link, index: nat, p: Packet)
    requires Distinct(st.open) && Step(st, index, p).problems == st.problems
    ensures var r := Step(st, index, p);
            && CountPackets(r.messages) + CountPackets(r.open) == CountPackets(st.messages) + CountPackets(st.open) + 1
            && CountBytes(r.messages) + CountBytes(r.open) ==
                 CountBytes(st.messages) + CountBytes(st.open) + |p.payload|
  {
    hide Lookup, Put, Remove, CountPackets, CountBytes;
    var cur := Lookup(st.open, p.Stream());
    LookupKey(st.open, p.Stream());
    assert Complaints(cur, index, p) == [];
    var m := Joined(cur, index, p).value;
    CountsPut(st.open, m);
    var done := m.(complete := true, lastIndex := Some(index));
    CountsAppend(st.messages, [done]);
    CountsOne(done);
  }

  lemma {:induction false} CountsOne(m: Message)
    ensures CountPackets([m]) == m.packets && CountBytes([m]) == m.bytes
  {
  }

  lemma {:induction false} RunConserves(st: Link, ps: seq<(nat, Packet)>)
    requires Distinct(st.open) && Run(st, ps).problems == st.problems
    ensures var r := Run(st, ps);
            && CountPackets(r.messages) + CountPackets(r.open) ==
                 CountPackets(st.messages) + CountPackets(st.open) + |ps|
            && CountBytes(r.messages) + CountBytes(r.open)
                 == CountBytes(st.messages) + CountBytes(st.open) + PayloadBytes(ps)
    decreases |ps|
  {
    if ps != [] {
      hide Distinct, CountPackets, CountBytes, Step;
      var next := Step(st, ps[0].0, ps[0].1);
      StepIsPerKey(st, ps[0].0, ps[0].1, ps[0].1.Stream());
      StepGrows(st, ps[0].0, ps[0].1);
      RunGrows(next, ps[1..]);
      StepConserves(st, ps[0].0, ps[0].1);
      RunConserves(next, ps[1..]);
    }
  }

  lemma {:induction false} StepGrows(st: Link, index: nat, p: Packet)
    ensures st.problems <= Step(st, index, p).problems
  {
  }

  lemma {:induction false} RunGrows(st: Link, ps: seq<(nat, Packet)>)
    ensures st.problems <= Run(st, ps).problems
    decreases |ps|
  {
    if ps != [] {
      RunGrows(Step(st, ps[0].0, ps[0].1), ps[1..]);
    }
  }

  /** If nothing is reported, the messages account for every packet and every payload byte,
      and each of them is complete. */
  lemma {:induction false} QuietCaptureConserves(ps: seq<(nat, Packet)>)
    requires Grouped(ps).problems == []
    ensures CountPackets(Grouped(ps).messages) == |ps| && CountBytes(Grouped(ps).messages) == PayloadBytes(ps)
    ensures forall m :: m in Grouped(ps).messages ==> m.complete
  {
    var st := Run(START, ps);
    RunConserves(START, ps);
    assert st.open == [];
    assert st.messages + [] == st.messages;
    MessagesComplete(START, ps);
  }

  lemma {:induction false} MessagesComplete(st: Link, ps: seq<(nat, Packet)>)
    requires forall m :: m in st.messages ==> m.complete
    ensures forall m :: m in Run(st, ps).messages ==> m.complete
    decreases |ps|
  {
    if ps != [] {
      MessagesComplete(Step(st, ps[0].0, ps[0].1), ps[1..]);
    }
  }

  // ---- loss ---------------------------------------------------------------------

  lemma {:induction false} SequenceAt(ps: seq<Packet>, i: nat, j: nat)
    requires Consecutive(ps) && i < j < |ps|
    ensures ps[j].seqNo == (ps[i].seqNo + (j - i)) % 4
  {
    if i + 1 < j {
      SequenceAt(ps, i, j - 1);
    }
  }

  /** What is left of a message after `d` packets from position `i` are lost. */
  function Without<T>(ps: seq<T>, i: nat, d: nat): seq<T>
    requires i + d <= |ps|
  {
    ps[..i] + ps[i + d..]
  }

  /** Inside a message the sequence closes over the gap exactly when the gap is a multiple of 4. */
  lemma {:induction false} GapCloses(ps: seq<Packet>, i: nat, d: nat)
    requires Consecutive(ps) && 0 < i && i + d < |ps|
    ensures ps[i + d].seqNo == (ps[i - 1].seqNo + 1) % 4 <==> d % 4 == 0
  {
    SequenceAt(ps, i - 1, i + d);
    var n := ps[i - 1].seqNo + 1;
    assert (n + d) % 4 == n % 4 <==> d % 4 == 0;
  }

  lemma {:induction false} RestConsecutive(ps: seq<Packet>, i: nat, d: nat)
    requires Consecutive(ps) && 0 < i && i + d < |ps|
    ensures Consecutive(Without(ps, i, d)) <==> ps[i + d].seqNo == (ps[i - 1].seqNo + 1) % 4
  {
    var rest := Without(ps, i, d);
    assert rest[i] == ps[i + d] && rest[i - 1] == ps[i - 1];
    forall j | 0 < j < |rest| && j != i
      ensures rest[j].seqNo == (rest[j - 1].seqNo + 1) % 4
    {
      var at := if j < i then j else j + d;
      assert rest[j] == ps[at] && rest[j - 1] == ps[at - 1];
    }
  }

  lemma {:induction false} RestIsWholeExactly(ps: seq<Packet>, i: nat, d: nat, k: Key)
    requires Whole(ps, k) && 0 < d < |ps| && i + d <= |ps|
    ensures Whole(Without(ps, i, d), k) <==> 0 < i && i + d < |ps| && d % 4 == 0
  {
    hide Consecutive;
    var rest := Without(ps, i, d);
    assert forall j :: 0 <= j < |rest| ==> rest[j] == if j < i then ps[j] else ps[j + d];
    if 0 < i && i + d < |ps| {
      RestConsecutive(ps, i, d);
      GapCloses(ps, i, d);
    } else {
      assert !rest[0].som || !rest[|rest| - 1].eom;
    }
  }

  lemma {:induction false} SecondStart(runs: seq<seq<Packet>>, k: Key)
    requires |runs| > 1 && AllWhole(runs, k)
    ensures 0 < |runs[0]| < |Concat(runs)| && Concat(runs)[|runs[0]|].som
  {
    assert Whole(runs[0], k) && Whole(runs[1], k);
    assert Concat(runs[1..]) == runs[1] + Concat(runs[2..]);
    assert Concat(runs)[|runs[0]|] == Concat(runs[1..])[0] == runs[1][0];
  }

  /** A series that holds one SOM, at its start, is a single message. */
  lemma {:induction false} OneStartOneMessage(rest: seq<Packet>, runs: seq<seq<Packet>>, k: Key)
    requires rest != [] && rest == Concat(runs) && AllWhole(runs, k)
    requires forall j :: 0 < j < |rest| ==> !rest[j].som
    ensures runs == [rest]
  {
    if |runs| > 1 {
      SecondStart(runs, k);
    }
    assert |runs| == 1;
    assert rest == runs[0] + Concat(runs[1..]) == runs[0];
  }

  lemma {:induction false} AllWholeAppend(a: seq<seq<Packet>>, b: seq<seq<Packet>>, k: Key)
    requires AllWhole(a, k) && AllWhole(b, k)
    ensures AllWhole(a + b, k)
  {
    hide Whole;
  }

  lemma {:induction false} ConcatOfOne(rest: seq<Packet>)
    ensures Concat([rest]) == rest
  {
    assert Concat([rest]) == rest + Concat([]) == rest;
  }

  /** A message left open draws a complaint, from the next message or at the end. */
  lemma {:induction false} LeftOpenIsNoticed(v: View, ps: seq<(nat, Packet)>, runs: seq<seq<Packet>>, k: Key)
    requires v.cur.Some? && Packets(ps) == Concat(runs) && AllWhole(runs, k)
    ensures FinishView(RunView(v, ps), k).problems != []
  {
    if runs != [] {
      assert Whole(runs[0], k);
      assert ps[0].1 == Packets(ps)[0] == runs[0][0];
      ProblemsGrow(StepView(v, ps[0].0, ps[0].1), ps[1..]);
    }
  }

  /** Between whole messages of its key, what is left of a message is quiet only if it is
      itself a whole message. */
  lemma {:induction false} QuietRestIsWhole(own: seq<(nat, Packet)>, before: seq<seq<Packet>>, rest: seq<Packet>,
                                            after: seq<seq<Packet>>, k: Key)
    requires AllWhole(before, k) && AllWhole(after, k) && Packets(own) == Concat(before) + rest + Concat(after)
    requires rest != [] && forall j :: 0 <= j < |rest| ==> rest[j].Stream() == k && (j > 0 ==> !rest[j].som)
    requires FinishView(RunView(View(None, [], []), own), k).problems == []
    ensures Whole(rest, k)
  {
    hide Whole, StepView, FinishView;
    var n, m := |Concat(before)|, |Concat(before)| + |rest|;
    var first, middle, last := own[..n], own[n..m], own[m..];
    assert own == (first + middle) + last;
    assert Packets(first) == Packets(own)[..n] == Concat(before);
    assert Packets(middle) == Packets(own)[n..m] == rest;
    assert Packets(last) == Packets(own)[m..] == Concat(after);
    var start := View(None, [], []);
    RunViewAppend(start, first + middle, last);
    RunViewAppend(start, first, middle);
    var ms := SeriesIsReported(start, first, before, k);
    var v := RunView(start, first);
    var w := RunView(v, middle);
    MiddleIsQuiet(w, last, after, k);
    forall j | 0 <= j < |middle|
      ensures middle[j].1.Stream() == k
    {
      assert middle[j].1 == rest[j];
    }
    var runs := QuietTrafficIsASeries(v, middle, [], k);
    assert [] + rest == rest;
    OneStartOneMessage(rest, runs, k);
    assert Whole(runs[0], k);
  }

  lemma {:induction false} MiddleIsQuiet(w: View, last: seq<(nat, Packet)>, after: seq<seq<Packet>>, k: Key)
    requires Packets(last) == Concat(after) && AllWhole(after, k)
    requires FinishView(RunView(w, last), k).problems == []
    ensures w.cur.None? && w.problems == []
  {
    hide Whole, StepView;
    ProblemsGrow(w, last);
    if w.cur.Some? {
      LeftOpenIsNoticed(w, last, after, k);
    }
  }

  lemma {:induction false} RestStarts(sent: seq<Packet>, i: nat, d: nat, k: Key)
    requires Whole(sent, k) && 0 < d < |sent| && i + d <= |sent|
    ensures var rest := Without(sent, i, d);
            rest != [] && forall j :: 0 <= j < |rest| ==> rest[j].Stream() == k && (j > 0 ==> !rest[j].som)
  {
  }

  /** Losing a run of packets from one message, anywhere in the traffic of its key, goes
      unreported exactly when the whole message is lost, or the run is strictly inside it and
      its length is a multiple of four. */
  lemma {:induction false} LossGoesUnseenExactly(ps: seq<(nat, Packet)>, k: Key, before: seq<seq<Packet>>,
                                                 sent: seq<Packet>, after: seq<seq<Packet>>, i: nat, d: nat)
    requires AllWhole(before, k) && Whole(sent, k) && AllWhole(after, k) && 0 < d && i + d <= |sent|
    requires Packets(Project(ps, k)) == Concat(before) + Without(sent, i, d) + Concat(after)
    ensures ProblemsOf(Grouped(ps).problems, k) == []
        <==> d == |sent| || (0 < i && i + d < |sent| && d % 4 == 0)
  {
    hide Grouped, Project, Whole, ProblemsOf, RunView, FinishView;
    var own, rest := Project(ps, k), Without(sent, i, d);
    if d < |sent| {
      RestIsWholeExactly(sent, i, d, k);
      RestStarts(sent, i, d, k);
    } else {
      assert rest == [];
    }
    var runs := if d < |sent| then before + [rest] + after else before + after;
    ConcatOfOne(rest);
    ConcatAppend(before, [rest]);
    ConcatAppend(before + [rest], after);
    ConcatAppend(before, after);
    assert Packets(own) == Concat(runs);
    if d == |sent| || Whole(rest, k) {
      AllWholeAppend(before, after, k);
      if d < |sent| {
        AllWholeAppend(before, [rest], k);
        AllWholeAppend(before + [rest], after, k);
      }
      QuietExactlyWhenWhole(ps, k);
    }
    if ProblemsOf(Grouped(ps).problems, k) == [] && d < |sent| {
      GroupingIsPerKey(ps, k);
      QuietRestIsWhole(own, before, rest, after, k);
    }
  }

  /** Packet `i` of a message of six. */
  function OfSix(i: int): Packet {
    Packet(1, 8, 9, i == 0, i == 5, i % 4, true, 0, [5])
  }

  /** Six packets are sent, the four in the middle are lost, and nothing is reported. */
  lemma {:induction false} FourLostUnseen()
    ensures var k := OfSix(0).Stream();
            && Whole(seq(6, i => OfSix(i)), k)
            && ProblemsOf(Grouped([(1, OfSix(0)), (2, OfSix(5))]).problems, k) == []
  {
    hide Grouped, ProblemsOf;
    var k := OfSix(0).Stream();
    var sent := seq(6, i => OfSix(i));
    var ps := [(1, OfSix(0)), (2, OfSix(5))];
    var nothing: seq<(nat, Packet)> := [];
    assert ps[1..] == [(2, OfSix(5))] && ps[1..][1..] == nothing;
    assert Project(nothing, k) == nothing && Project(ps[1..], k) == ps[1..];
    assert Project(ps, k) == [ps[0]] + ps[1..] == ps;
    assert Without(sent, 1, 4) == [OfSix(0)] + [OfSix(5)] == Packets(ps);
    var none: seq<seq<Packet>> := [];
    assert Concat(none) + Without(sent, 1, 4) + Concat(none) == Without(sent, 1, 4);
    LossGoesUnseenExactly(ps, k, none, sent, none, 1, 4);
  }
}
