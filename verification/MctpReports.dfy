/**
 bench/exp04_fragmentation.py: what grouping reports about any traffic of a key, broken or not,
 read from the positions of its packets alone.
 */
module MctpReports {
  import opened Bytes
  import opened Mctp
  import opened MctpRuns

  /** Packet `i` belongs to the message begun at `j`: no message begins or ends between them. */
  ghost predicate Belongs(own: seq<(nat, Packet)>, j: nat, i: nat) {
    && j <= i < |own| && own[j].1.som
    && (forall t :: j < t <= i ==> !own[t].1.som) && forall t :: j <= t < i ==> !own[t].1.eom
  }

  /** Where the message of packet `i` began, if it belongs to one. */
  function Start(own: seq<(nat, Packet)>, i: nat): (s: Option<nat>)
    requires i < |own|
    ensures match s case Some(j) => Belongs(own, j, i) case None => forall j: nat :: !Belongs(own, j, i)
  {
    if own[i].1.som then Some(i)
    else if i == 0 || own[i - 1].1.eom then None
    else
      var s := Start(own, i - 1);
      assert forall j: nat :: Belongs(own, j, i) ==> Belongs(own, j, i - 1);
      s
  }

  /** Where the message still open before packet `i` began. */
  function OpenAt(own: seq<(nat, Packet)>, i: nat): (s: Option<nat>)
    requires i <= |own|
    ensures s.Some? ==> s.value < i && Belongs(own, s.value, i - 1) && !own[i - 1].1.eom
  {
    if i == 0 || own[i - 1].1.eom then None else Start(own, i - 1)
  }

  /** The report of the packets from `j` up to `i`. */
  function MessageOf(own: seq<(nat, Packet)>, j: nat, i: nat, complete: bool): Message
    requires j < i <= |own|
  {
    var (first, last) := (own[j], own[i - 1]);
    var sizes := Sizes(Packets(own[j..i]));
    Message(first.1.Stream(), first.0, first.1.ver, i - j, Sum(sizes), sizes,
            if |first.1.payload| > 0 then Some(first.1.payload[0]) else None,
            (last.1.seqNo + 1) % 4, complete, if complete then Some(last.0) else None)
  }

  /** The messages that end before packet `i`. */
  function Ended(own: seq<(nat, Packet)>, i: nat): seq<Message>
    requires i <= |own|
  {
    if i == 0 then []
    else Ended(own, i - 1) +
         if own[i - 1].1.eom && Start(own, i - 1).Some? then [MessageOf(own, Start(own, i - 1).value, i, true)] else []
  }

  /** What is wrong with packet `i`. */
  function WrongAt(own: seq<(nat, Packet)>, i: nat): seq<Problem>
    requires i < |own|
  {
    var (index, p) := own[i];
    if p.som then (if OpenAt(own, i).Some? then [SomWhileOpen(index, p.Stream())] else [])
    else if Start(own, i).None? then [NoSom(index, p.Stream())]
    else if p.seqNo != (own[i - 1].1.seqNo + 1) % 4 then [BadSequence(index, p.Stream())]
    else []
  }

  function Wrong(own: seq<(nat, Packet)>, i: nat): seq<Problem>
    requires i <= |own|
  {
    if i == 0 then [] else Wrong(own, i - 1) + WrongAt(own, i - 1)
  }

  lemma {:induction false} ExtendedIsLonger(own: seq<(nat, Packet)>, j: nat, i: nat)
    requires j < i < |own|
    ensures Extended(MessageOf(own, j, i, false), own[i].1) == MessageOf(own, j, i + 1, false)
  {
    assert own[j..i + 1] == own[j..i] + [own[i]];
    assert Sizes(Packets(own[j..i + 1])) == Sizes(Packets(own[j..i])) + [|own[i].1.payload|];
    SumAppend(Sizes(Packets(own[j..i])), [|own[i].1.payload|]);
    assert Sum([|own[i].1.payload|]) == |own[i].1.payload|;
  }

  lemma {:induction false} OpenedIsShort(own: seq<(nat, Packet)>, i: nat)
    requires i < |own|
    ensures Extended(Opened(own[i].0, own[i].1), own[i].1) == MessageOf(own, i, i + 1, false)
  {
    assert own[i..i + 1] == [own[i]];
    assert Sizes(Packets(own[i..i + 1])) == [|own[i].1.payload|];
    assert Sum([|own[i].1.payload|]) == |own[i].1.payload|;
  }

  /** What one key's traffic has produced before packet `i`. */
  function ViewAt(own: seq<(nat, Packet)>, i: nat): View
    requires i <= |own|
  {
    View(match OpenAt(own, i) case Some(j) => Some(MessageOf(own, j, i, false)) case None => None,
         Ended(own, i), Wrong(own, i))
  }

  lemma {:induction false} StepReads(own: seq<(nat, Packet)>, i: nat)
    requires i < |own|
    ensures StepView(ViewAt(own, i), own[i].0, own[i].1) == ViewAt(own, i + 1)
  {
    hide MessageOf, Extended, Opened, Belongs, Ended, Wrong;
    var (index, p) := own[i];
    var v := ViewAt(own, i);
    if p.som {
      OpenedIsShort(own, i);
      MessageEnds(own, i, i + 1);
    } else if v.cur.Some? {
      var j := OpenAt(own, i).value;
      ExtendedIsLonger(own, j, i);
      MessageEnds(own, j, i);
      MessageEnds(own, j, i + 1);
    }
    StepEnds(own, i);
  }

  lemma {:induction false} MessageEnds(own: seq<(nat, Packet)>, j: nat, i: nat)
    requires j < i <= |own|
    ensures MessageOf(own, j, i, false).next == (own[i - 1].1.seqNo + 1) % 4
    ensures MessageOf(own, j, i, false).(complete := true, lastIndex := Some(own[i - 1].0)) ==
            MessageOf(own, j, i, true)
  {
    hide Sizes, Packets, Sum;
  }

  lemma {:induction false} StepEnds(own: seq<(nat, Packet)>, i: nat)
    requires i < |own|
    ensures Ended(own, i + 1) == Ended(own, i) +
              if own[i].1.eom && Start(own, i).Some? then [MessageOf(own, Start(own, i).value, i + 1, true)] else []
    ensures Wrong(own, i + 1) == Wrong(own, i) + WrongAt(own, i)
  {
    hide MessageOf, WrongAt, Start;
  }

  lemma {:induction false} RunReads(own: seq<(nat, Packet)>, i: nat)
    requires i <= |own|
    ensures RunView(ViewAt(own, i), own[i..]) == ViewAt(own, |own|)
    decreases |own| - i
  {
    hide ViewAt, StepView;
    if i < |own| {
      StepReads(own, i);
      RunReads(own, i + 1);
      assert own[i..][0] == own[i] && own[i..][1..] == own[i + 1..];
    }
  }

  lemma {:induction false} NothingYet(own: seq<(nat, Packet)>)
    ensures ViewAt(own, 0) == View(None, [], [])
  {
  }

  lemma {:induction false} FirstOfMessage(own: seq<(nat, Packet)>, j: nat, i: nat)
    requires j < i <= |own|
    ensures MessageOf(own, j, i, false).firstIndex == own[j].0
  {
  }

  /** Everything grouping reports for a key. The messages that ended come first, each made of
      exactly the packets that belong to it, with the capture positions of the first and the
      last of them; then the one left open, if there is one. The problems are those of the single
      packets in order, and then that one. */
  lemma {:induction false} ReportIsExact(ps: seq<(nat, Packet)>, k: Key)
    ensures var own := Project(ps, k);
            var n := |own|;
            && OfKey(Grouped(ps).messages, k) ==
               Ended(own, n) + (match OpenAt(own, n) case Some(j) => [MessageOf(own, j, n, false)] case None => [])
            && ProblemsOf(Grouped(ps).problems, k) ==
               Wrong(own, n) + (match OpenAt(own, n) case Some(j) => [NeverEnded(own[j].0, k)] case None => [])
  {
    hide MessageOf, RunView, Start, OpenAt;
    var own := Project(ps, k);
    GroupingIsPerKey(ps, k);
    RunReads(own, 0);
    assert own[0..] == own;
    NothingYet(own);
    if OpenAt(own, |own|).Some? {
      FirstOfMessage(own, OpenAt(own, |own|).value, |own|);
    }
  }
}
