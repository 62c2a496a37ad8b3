/**
 harness/tamper_proxy.py: what a run of the proxy reports at its end: how many frames it
 forwarded each way, and whether it succeeded.
 */
module ProxyReport {
  import opened Bytes
  import opened Measurements
  import opened Proxy
  import opened ProxySafety

  lemma {:induction false} FramesCons(data: seq<byte>, k: nat)
    requires FrameAt(data).Some?
    ensures var size := FRAME_HEADER + |FrameAt(data).value.payload|;
            FramesEnd(data, k + 1) ==
            match FramesEnd(data[size..], k) case None => None case Some(end) => Some(size + end)
  {
    hide FrameAt;
  }

  /** What a requester frame teaches: a GET_MEASUREMENTS is learned, and nothing else is. */
  lemma {:induction false} RequesterTeaches(w: Watch, f: Frame, q: Request)
    ensures q.Valid() && f.command == 1 && f.payload == [5] + q.Bytes() ==>
              RequesterStep(w, f).learned ==
              w.learned.(signatureRequested := Some(q.Signed()), contextBytes := Some(|q.context|))
    ensures !(f.command == 1 && |f.payload| >= 5 && f.payload[0] == 5 && f.payload[2] == 0xE0) ==>
              RequesterStep(w, f).learned == w.learned
  {
    hide AfterGetMeasurements, Request.Bytes;
    if q.Valid() && f.command == 1 && f.payload == [5] + q.Bytes() {
      RequestLength(q);
      SpdmExactly(f, q.Bytes());
      RequestIsLearned(w.learned, q);
    }
  }

  lemma {:induction false} RequestLength(q: Request)
    ensures |q.Bytes()| >= 4 && q.Bytes()[1] == 0xE0
  {
  }

  /** What a responder frame teaches: an ALGORITHMS response is learned, and nothing else is; and a
      frame that is no MEASUREMENTS response passes as it came, with nothing reported of it. */
  lemma {:induction false} ResponderTeaches(w: Watch, f: Frame)
    ensures var (next, out) := ResponderStep(w, f);
            var code := if f.command == 1 && |f.payload| >= 5 && f.payload[0] == 5 then Some(f.payload[2]) else None;
            && (code == Some(0x63) ==> next.learned == AfterAlgorithms(w.learned, f.payload[1..]))
            && (code != Some(0x63) ==> next.learned == w.learned)
            && (code != Some(0x60) ==>
                  out == f && next.layout == w.layout && next.tamper == w.tamper && next.refusals == w.refusals)
            && (code == Some(0x60) && ParseMeasurements(f.payload[1..], w.learned).Ok? ==>
                  next.layout == Some(ParseMeasurements(f.payload[1..], w.learned).value))
            && (code == Some(0x60) && ParseMeasurements(f.payload[1..], w.learned).Refused? ==>
                  out == f && next.refusals == w.refusals + [ParseMeasurements(f.payload[1..], w.learned).check])
  {
    hide AfterAlgorithms, ParseMeasurements, Target;
  }

  /** The counters after a service are the counters before and the frames it forwarded. */
  lemma {:induction false} ServeCounts(w: Watch, client: seq<byte>, upstream: seq<byte>, schedule: seq<bool>)
    returns (ups: nat, downs: nat)
    ensures var (w', up, down) := Serve(w, client, upstream, schedule);
            && w'.up == w.up + ups && w'.down == w.down + downs
            && FramesEnd(client, ups) == Some(|up|) && FramesEnd(upstream, downs) == Some(|down|)
    decreases |schedule|
  {
    hide FrameAt, RequesterStep, ResponderStep, FramesEnd;
    if schedule == [] || FrameAt(if schedule[0] then client else upstream).None? {
      ups, downs := 0, 0;
      NoFrames(client);
      NoFrames(upstream);
    } else if schedule[0] {
      var f := FrameAt(client).value;
      CountedUp(w, f);
      ups, downs := ServeCounts(RequesterStep(w, f), client[FRAME_HEADER + |f.payload|..], upstream, schedule[1..]);
      FramesCons(client, ups);
      ups := ups + 1;
    } else {
      var f := FrameAt(upstream).value;
      CountedDown(w, f);
      ups, downs := ServeCounts(ResponderStep(w, f).0, client, upstream[FRAME_HEADER + |f.payload|..], schedule[1..]);
      FramesCons(upstream, downs);
      downs := downs + 1;
    }
  }

  lemma {:induction false} NoFrames(data: seq<byte>)
    ensures FramesEnd(data, 0) == Some(0)
  {
  }

  lemma {:induction false} CountedUp(w: Watch, f: Frame)
    ensures RequesterStep(w, f).up == w.up + 1 && RequesterStep(w, f).down == w.down
  {
    hide AfterGetMeasurements;
  }

  lemma {:induction false} CountedDown(w: Watch, f: Frame)
    ensures ResponderStep(w, f).0.down == w.down + 1 && ResponderStep(w, f).0.up == w.up
    ensures |ResponderStep(w, f).1.payload| == |f.payload|
  {
    hide AfterAlgorithms, ParseMeasurements, Target;
    if f.Spdm().Some? {
      var msg := f.Spdm().value;
      if ParseMeasurements(msg, w.learned).Ok? && !w.mode.Passthrough? {
        TargetInside(msg, w.learned, w.mode);
      }
    }
  }

  /** And over a whole run the reported counts are the frames forwarded in all connections. */
  lemma {:induction false} RunCounts(w: Watch, conns: seq<Connection>) returns (ups: seq<nat>, downs: seq<nat>)
    ensures var (w', outs) := RunAll(w, conns);
            && |ups| == |downs| == |outs| == |conns|
            && w'.up == w.up + Sum(ups) && w'.down == w.down + Sum(downs)
            && forall i :: 0 <= i < |conns| ==>
                 && FramesEnd(Concat(conns[i].client), ups[i]) == Some(|outs[i].0|)
                 && FramesEnd(Concat(conns[i].upstream), downs[i]) == Some(|outs[i].1|)
    decreases |conns|
  {
    hide Serve, FramesEnd, Concat;
    if conns == [] {
      ups, downs := [], [];
    } else {
      var c := conns[0];
      var u, d := ServeCounts(w, Concat(c.client), Concat(c.upstream), c.schedule);
      var next := Serve(w, Concat(c.client), Concat(c.upstream), c.schedule).0;
      var us, ds := RunCounts(next, conns[1..]);
      ups, downs := [u] + us, [d] + ds;
      assert ups[1..] == us && downs[1..] == ds;
    }
  }

  /** The program succeeds exactly when it had nothing to change or changed a byte, and that is when
      it only passed on or when some served frame names the byte asked for; if it fails it says
      why. */
  lemma {:induction false} ExitExactly(mode: Mode, conns: seq<Connection>)
    ensures var start := Watch(mode, Learned(None, None, None, 0, None, None, 0), 0, 0, None, None, []);
            var (report, code) := Finished(RunAll(start, conns).0);
            && (code == 0 <==> mode.Passthrough? || exists k: nat :: k < |conns| && EligibleIn(start, conns, k))
            && (code != 0 ==> code == 1 && report.refusals != [] && report.tamper.None?)
            && report.tamper == RunAll(start, conns).0.tamper
  {
    hide RunAll, EligibleIn, Complete, Untouched, OnlyTouched;
    WholeRunIsSafe(mode, conns);
    ModeStays(Watch(mode, NOTHING, 0, 0, None, None, []), conns);
  }

  lemma {:induction false} ModeStays(w: Watch, conns: seq<Connection>)
    ensures RunAll(w, conns).0.mode == w.mode
  {
    hide RunAll, OnlyTouched, Untouched, EligibleIn;
    RunIsSafe(w, conns);
  }
}
