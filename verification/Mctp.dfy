/**
 bench/exp04_fragmentation.py: MCTP packets (DSP0236, section 8) and the grouping of a
 captured link back into messages, one open message per (src, dest, tag, TO).
 */
module Mctp {
  import opened Bytes

  datatype Key = Key(src: byte, dest: byte, tag: nat, to: bool)

  datatype Packet = Packet(ver: byte, dest: byte, src: byte, som: bool, eom: bool, seqNo: nat, to: bool, tag: nat,
                           payload: seq<byte>)
  {
    function Stream(): Key { Key(src, dest, tag, to) }
  }

  /** `parse_mctp_packet`; None is the ValueError for fewer bytes than a header. */
  function ParsePacket(raw: seq<byte>): Option<Packet> {
    if |raw| < 4 then None
    else
      var flags := raw[3];
      Some(Packet(raw[0], raw[1], raw[2], flags >= 0x80, flags / 0x40 % 2 == 1, flags / 0x10 % 4,
                  flags / 0x08 % 2 == 1, flags % 8, raw[4..]))
  }

  /** The flags byte DSP0236 lays out: SOM, EOM, two bits of sequence, TO and three bits of tag. */
  function Flags(p: Packet): byte
    requires p.seqNo < 4 && p.tag < 8
  {
    (if p.som then 0x80 else 0) + (if p.eom then 0x40 else 0) + 0x10 * p.seqNo + (if p.to then 0x08 else 0) + p.tag
  }

  function PacketBytes(p: Packet): seq<byte>
    requires p.seqNo < 4 && p.tag < 8
  {
    [p.ver, p.dest, p.src, Flags(p)] + p.payload
  }

  lemma {:induction false} FlagsRead(p: Packet)
    requires p.seqNo < 4 && p.tag < 8
    ensures var f := Flags(p);
            && (f >= 0x80 <==> p.som) && (f / 0x40 % 2 == 1 <==> p.eom) && f / 0x10 % 4 == p.seqNo
            && (f / 0x08 % 2 == 1 <==> p.to) && f % 8 == p.tag
  {
    var high := (if p.som then 8 else 0) + (if p.eom then 4 else 0) + p.seqNo;
    assert Flags(p) == 0x10 * high + (if p.to then 8 else 0) + p.tag;
  }

  lemma {:induction false} FlagsOf(f: byte, p: Packet)
    requires p.som == (f >= 0x80) && p.eom == (f / 0x40 % 2 == 1) && p.seqNo == f / 0x10 % 4
    requires p.to == (f / 0x08 % 2 == 1) && p.tag == f % 8
    ensures Flags(p) == f
  {
  }

  lemma {:induction false} PacketRoundTrip(p: Packet)
    requires p.seqNo < 4 && p.tag < 8
    ensures ParsePacket(PacketBytes(p)) == Some(p)
  {
    hide Flags;
    FlagsRead(p);
    assert PacketBytes(p)[4..] == p.payload;
  }

  lemma {:induction false} ParsedPacketRoundTrip(raw: seq<byte>)
    requires |raw| >= 4
    ensures var p := ParsePacket(raw).value; p.seqNo < 4 && p.tag < 8 && PacketBytes(p) == raw
  {
    hide Flags;
    var p := ParsePacket(raw).value;
    FlagsOf(raw[3], p);
    assert raw == [raw[0], raw[1], raw[2], raw[3]] + raw[4..];
  }

  datatype Message = Message(key: Key, firstIndex: nat, ver: byte, packets: nat, bytes: nat, sizes: seq<nat>,
                             msgType: Option<byte>, next: nat, complete: bool, lastIndex: Option<nat>)

  datatype Problem =
    | SomWhileOpen(index: nat, key: Key)
    | NoSom(index: nat, key: Key)
    | BadSequence(index: nat, key: Key)
    | NeverEnded(index: nat, key: Key)

  // ---- the dictionary of open messages, in insertion order --------------------------

  function Lookup(open: seq<Message>, k: Key): Option<Message> {
    if open == [] then None else if open[0].key == k then Some(open[0]) else Lookup(open[1..], k)
  }

  function Put(open: seq<Message>, m: Message): seq<Message> {
    if open == [] then [m] else if open[0].key == m.key then [m] + open[1..] else [open[0]] + Put(open[1..], m)
  }

  function Remove(open: seq<Message>, k: Key): seq<Message> {
    if open == [] then [] else if open[0].key == k then open[1..] else [open[0]] + Remove(open[1..], k)
  }

  // ---- grouping -----------------------------------------------------------------

  datatype Link = Link(open: seq<Message>, messages: seq<Message>, problems: seq<Problem>)

  function Opened(index: nat, p: Packet): Message {
    Message(p.Stream(), index, p.ver, 0, 0, [], if p.payload != [] then Some(p.payload[0]) else None,
            p.seqNo, false, None)
  }

  function Extended(m: Message, p: Packet): Message {
    m.(packets := m.packets + 1, bytes := m.bytes + |p.payload|, sizes := m.sizes + [|p.payload|],
       next := (p.seqNo + 1) % 4)
  }

  /** What packet `p` is reported for, given what is open under its key. */
  function Complaints(cur: Option<Message>, index: nat, p: Packet): seq<Problem> {
    if p.som then (if cur.Some? then [SomWhileOpen(index, p.Stream())] else [])
    else if cur.None? then [NoSom(index, p.Stream())]
    else if p.seqNo != cur.value.next then [BadSequence(index, p.Stream())]
    else []
  }

  /** The message packet `p` joins; None for a continuation of nothing. */
  function Joined(cur: Option<Message>, index: nat, p: Packet): Option<Message> {
    if p.som then Some(Extended(Opened(index, p), p))
    else if cur.None? then None
    else Some(Extended(cur.value, p))
  }

  function Step(st: Link, index: nat, p: Packet): Link {
    var cur := Lookup(st.open, p.Stream());
    var reported := st.(problems := st.problems + Complaints(cur, index, p));
    match Joined(cur, index, p)
    case None => reported
    case Some(m) =>
      if p.eom then
        reported.(messages := st.messages + [m.(complete := true, lastIndex := Some(index))],
                  open := Remove(st.open, p.Stream()))
      else reported.(open := Put(st.open, m))
  }

  function Run(st: Link, ps: seq<(nat, Packet)>): Link
    decreases |ps|
  {
    if ps == [] then st else Run(Step(st, ps[0].0, ps[0].1), ps[1..])
  }

  function Unended(open: seq<Message>): seq<Problem> {
    if open == [] then [] else [NeverEnded(open[0].firstIndex, open[0].key)] + Unended(open[1..])
  }

  function Finish(st: Link): Link {
    Link([], st.messages + st.open, st.problems + Unended(st.open))
  }

  const START := Link([], [], [])

  /** The specification of `group_mctp_messages`, on packets with their capture indices. */
  function Grouped(ps: seq<(nat, Packet)>): Link {
    Finish(Run(START, ps))
  }

  /** `enumerate` */
  function Indexed(packets: seq<Packet>): (ps: seq<(nat, Packet)>)
    ensures |ps| == |packets|
  {
    seq(|packets|, i requires 0 <= i < |packets| => (i, packets[i]))
  }

  /** `group_mctp_messages`, with the loops and the branches of the source. */
  method GroupMessages(packets: seq<Packet>) returns (messages: seq<Message>, problems: seq<Problem>)
    ensures messages == Grouped(Indexed(packets)).messages && problems == Grouped(Indexed(packets)).problems
  {
    hide Lookup, Put, Remove;
    var open: seq<Message> := [];
    messages, problems := [], [];
    ghost var ps := Indexed(packets);
    for idx := 0 to |packets|
      invariant Run(START, ps) == Run(Link(open, messages, problems), ps[idx..])
    {
      var pkt := packets[idx];
      ghost var before := Link(open, messages, problems);
      assert ps[idx..][0] == (idx, pkt) && ps[idx..][1..] == ps[idx + 1..];
      var key := pkt.Stream();
      var cur := Lookup(open, key);
      if pkt.som {
        if cur.Some? {
          problems := problems + [SomWhileOpen(idx, key)];
        }
        cur := Some(Opened(idx, pkt));
      } else if cur.None? {
        problems := problems + [NoSom(idx, key)];
        assert Step(before, idx, pkt) == Link(open, messages, problems);
        continue;
      } else if pkt.seqNo != cur.value.next {
        problems := problems + [BadSequence(idx, key)];
      }
      assert problems == before.problems + Complaints(Lookup(before.open, key), idx, pkt);
      var m := cur.value;
      m := m.(packets := m.packets + 1, bytes := m.bytes + |pkt.payload|, sizes := m.sizes + [|pkt.payload|],
              next := (pkt.seqNo + 1) % 4);
      if pkt.eom {
        messages := messages + [m.(complete := true, lastIndex := Some(idx))];
        open := Remove(open, key);
      } else {
        open := Put(open, m);
      }
      assert Step(before, idx, pkt) == Link(open, messages, problems);
    }
    ghost var st := Link(open, messages, problems);
    for i := 0 to |open|
      invariant messages == st.messages + open[..i]
      invariant problems + Unended(open[i..]) == st.problems + Unended(open)
    {
      Assoc(problems, [NeverEnded(open[i].firstIndex, open[i].key)], Unended(open[i + 1..]));
      assert open[i..][1..] == open[i + 1..] && open[..i + 1] == open[..i] + [open[i]];
      problems := problems + [NeverEnded(open[i].firstIndex, open[i].key)];
      messages := messages + [open[i]];
    }
    assert open[..|open|] == open;
  }

  // ---- one key at a time ----------------------------------------------------------

  /** A dictionary holds a key once. */
  ghost predicate Distinct(open: seq<Message>) {
    open == [] || (Lookup(open[1..], open[0].key).None? && Distinct(open[1..]))
  }

  function OfKey(ms: seq<Message>, k: Key): seq<Message> {
    if ms == [] then [] else if ms[0].key == k then [ms[0]] + OfKey(ms[1..], k) else OfKey(ms[1..], k)
  }

  function ProblemsOf(qs: seq<Problem>, k: Key): seq<Problem> {
    if qs == [] then [] else if qs[0].key == k then [qs[0]] + ProblemsOf(qs[1..], k) else ProblemsOf(qs[1..], k)
  }

  /** The sub-capture of one key, with the original indices. */
  function Project(ps: seq<(nat, Packet)>, k: Key): seq<(nat, Packet)> {
    if ps == [] then [] else if ps[0].1.Stream() == k then [ps[0]] + Project(ps[1..], k) else Project(ps[1..], k)
  }

  /** What one key's traffic has produced so far. */
  datatype View = View(cur: Option<Message>, messages: seq<Message>, problems: seq<Problem>)

  function ViewOf(st: Link, k: Key): View {
    View(Lookup(st.open, k), OfKey(st.messages, k), ProblemsOf(st.problems, k))
  }

  function StepView(v: View, index: nat, p: Packet): View {
    var problems := v.problems + Complaints(v.cur, index, p);
    match Joined(v.cur, index, p)
    case None => v.(problems := problems)
    case Some(m) =>
      if p.eom then View(None, v.messages + [m.(complete := true, lastIndex := Some(index))], problems)
      else View(Some(m), v.messages, problems)
  }

  function RunView(v: View, ps: seq<(nat, Packet)>): View
    decreases |ps|
  {
    if ps == [] then v else RunView(StepView(v, ps[0].0, ps[0].1), ps[1..])
  }

  function FinishView(v: View, k: Key): View {
    if v.cur.None? then v
    else View(None, v.messages + [v.cur.value], v.problems + [NeverEnded(v.cur.value.firstIndex, k)])
  }

  lemma {:induction false} OfKeyAppend(a: seq<Message>, b: seq<Message>, k: Key)
    ensures OfKey(a + b, k) == OfKey(a, k) + OfKey(b, k)
  {
    if a == [] {
      assert a + b == b;
    } else {
      OfKeyAppend(a[1..], b, k);
      assert (a + b)[0] == a[0] && (a + b)[1..] == a[1..] + b;
    }
  }

  lemma {:induction false} ProblemsAppend(a: seq<Problem>, b: seq<Problem>, k: Key)
    ensures ProblemsOf(a + b, k) == ProblemsOf(a, k) + ProblemsOf(b, k)
  {
    if a == [] {
      assert a + b == b;
    } else {
      ProblemsAppend(a[1..], b, k);
      assert (a + b)[0] == a[0] && (a + b)[1..] == a[1..] + b;
    }
  }

  lemma {:induction false} LookupKey(open: seq<Message>, k: Key)
    ensures Lookup(open, k).Some? ==> Lookup(open, k).value.key == k
  {
    if open != [] {
      LookupKey(open[1..], k);
    }
  }

  lemma {:induction false} PutKeeps(open: seq<Message>, m: Message, k: Key)
    requires Distinct(open)
    ensures Distinct(Put(open, m))
    ensures Lookup(Put(open, m), k) == if k == m.key then Some(m) else Lookup(open, k)
  {
    if open != [] && open[0].key != m.key {
      PutKeeps(open[1..], m, k);
      PutKeeps(open[1..], m, open[0].key);
      assert Put(open, m)[1..] == Put(open[1..], m);
    } else if open != [] {
      assert Put(open, m)[1..] == open[1..];
    }
  }

  lemma {:induction false} RemoveKeeps(open: seq<Message>, gone: Key, k: Key)
    requires Distinct(open)
    ensures Distinct(Remove(open, gone))
    ensures Lookup(Remove(open, gone), k) == if k == gone then None else Lookup(open, k)
  {
    if open != [] && open[0].key != gone {
      RemoveKeeps(open[1..], gone, k);
      RemoveKeeps(open[1..], gone, open[0].key);
      assert Remove(open, gone)[1..] == Remove(open[1..], gone);
    }
  }

  lemma {:induction false} OfKeyOne(m: Message, k: Key)
    ensures OfKey([m], k) == if m.key == k then [m] else []
  {
  }

  lemma {:induction false} ComplaintsOfKey(cur: Option<Message>, index: nat, p: Packet, k: Key)
    ensures ProblemsOf(Complaints(cur, index, p), k) == if p.Stream() == k then Complaints(cur, index, p) else []
  {
  }

  lemma {:induction false} StepIsPerKey(st: Link, index: nat, p: Packet, k: Key)
    requires Distinct(st.open)
    ensures Distinct(Step(st, index, p).open)
    ensures ViewOf(Step(st, index, p), k) ==
            if p.Stream() == k then StepView(ViewOf(st, k), index, p) else ViewOf(st, k)
  {
    hide Lookup, Put, Remove, OfKey, ProblemsOf;
    var cur := Lookup(st.open, p.Stream());
    LookupKey(st.open, p.Stream());
    ProblemsAppend(st.problems, Complaints(cur, index, p), k);
    ComplaintsOfKey(cur, index, p, k);
    var joined := Joined(cur, index, p);
    if joined.Some? {
      var m := joined.value;
      OfKeyAppend(st.messages, [m.(complete := true, lastIndex := Some(index))], k);
      OfKeyOne(m.(complete := true, lastIndex := Some(index)), k);
      PutKeeps(st.open, m, k);
      RemoveKeeps(st.open, p.Stream(), k);
    }
  }

  lemma {:induction false} RunIsPerKey(st: Link, ps: seq<(nat, Packet)>, k: Key)
    requires Distinct(st.open)
    ensures Distinct(Run(st, ps).open)
    ensures ViewOf(Run(st, ps), k) == RunView(ViewOf(st, k), Project(ps, k))
    decreases |ps|
  {
    if ps != [] {
      StepIsPerKey(st, ps[0].0, ps[0].1, k);
      RunIsPerKey(Step(st, ps[0].0, ps[0].1), ps[1..], k);
      if ps[0].1.Stream() == k {
        assert Project(ps, k)[1..] == Project(ps[1..], k);
      }
    }
  }

  lemma {:induction false} OpenOfKey(open: seq<Message>, k: Key)
    requires Distinct(open)
    ensures OfKey(open, k) == (if Lookup(open, k).Some? then [Lookup(open, k).value] else [])
    ensures ProblemsOf(Unended(open), k)
         == (if Lookup(open, k).Some? then [NeverEnded(Lookup(open, k).value.firstIndex, k)] else [])
  {
    if open != [] {
      OpenOfKey(open[1..], k);
    }
  }

  /** Grouping treats each key on its own: what it makes of a key is what it would make of
      that key's packets alone. */
  lemma {:induction false} GroupingIsPerKey(ps: seq<(nat, Packet)>, k: Key)
    ensures var st := Grouped(ps);
            View(None, OfKey(st.messages, k), ProblemsOf(st.problems, k))
              == FinishView(RunView(View(None, [], []), Project(ps, k)), k)
  {
    var st := Run(START, ps);
    RunIsPerKey(START, ps, k);
    OpenOfKey(st.open, k);
    OfKeyAppend(st.messages, st.open, k);
    ProblemsAppend(st.problems, Unended(st.open), k);
  }

  lemma {:induction false} ProjectTwice(ps: seq<(nat, Packet)>, k: Key)
    ensures Project(Project(ps, k), k) == Project(ps, k)
  {
    if ps != [] {
      ProjectTwice(ps[1..], k);
      if ps[0].1.Stream() == k {
        assert Project(ps, k)[1..] == Project(ps[1..], k);
      }
    }
  }

  lemma {:induction false} InterleavingIsInvisible(ps: seq<(nat, Packet)>, k: Key)
    ensures OfKey(Grouped(ps).messages, k) == OfKey(Grouped(Project(ps, k)).messages, k)
    ensures ProblemsOf(Grouped(ps).problems, k) == ProblemsOf(Grouped(Project(ps, k)).problems, k)
  {
    GroupingIsPerKey(ps, k);
    GroupingIsPerKey(Project(ps, k), k);
    ProjectTwice(ps, k);
  }

  /** No problem is reported exactly when none is reported for any key. */
  lemma {:induction false} ProblemsByKey(problems: seq<Problem>)
    ensures problems == [] <==> forall k :: ProblemsOf(problems, k) == []
  {
    if problems != [] {
      assert ProblemsOf(problems, problems[0].key) != [];
    }
  }
}
