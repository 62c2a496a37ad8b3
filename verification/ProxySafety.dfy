/**
 The safety of a whole run of the proxy: every frame whose turn comes is forwarded, in order
 and whole, and of all the bytes of all the connections in both directions exactly one is
 changed, in its lowest bit, if a frame is served that names one, and otherwise none.
 */
module ProxySafety {
  import opened Bytes
  import opened Measurements
  import opened Proxy

  /** `n` is at the end of a frame of the stream, or at its start. */
  ghost predicate Boundary(data: seq<byte>, n: nat)
    decreases |data|
  {
    n == 0
    || (FrameAt(data).Some?
        && var size := FRAME_HEADER + |FrameAt(data).value.payload|;
           size <= n && Boundary(data[size..], n - size))
  }

  /** Where the first `k` frames of the stream end, if it holds that many. */
  ghost function FramesEnd(data: seq<byte>, k: nat): Option<nat>
    decreases k
  {
    if k == 0 then Some(0)
    else match FrameAt(data)
      case None => None
      case Some(f) =>
        match FramesEnd(data[FRAME_HEADER + |f.payload|..], k - 1)
        case None => None
        case Some(end) => Some(FRAME_HEADER + |f.payload| + end)
  }

  /** How many of the turns are this side's. */
  ghost function Turns(schedule: seq<bool>, side: bool): nat {
    if schedule == [] then 0 else (if schedule[0] == side then 1 else 0) + Turns(schedule[1..], side)
  }

  /** Each of the first `n` turns finds a whole frame. */
  ghost predicate Reached(client: seq<byte>, upstream: seq<byte>, schedule: seq<bool>, n: nat)
    requires n <= |schedule|
  {
    && FramesEnd(client, Turns(schedule[..n], true)).Some?
    && FramesEnd(upstream, Turns(schedule[..n], false)).Some?
  }

  /** The service ends after `n` turns, at the end of the schedule or at a turn that finds none. */
  ghost predicate Ends(client: seq<byte>, upstream: seq<byte>, schedule: seq<bool>, n: nat) {
    && n <= |schedule| && Reached(client, upstream, schedule, n)
    && (n < |schedule| ==> !Reached(client, upstream, schedule, n + 1))
  }

  /** Both sides were sent as many bytes as the frames of the turns served have. */
  ghost predicate AllForwarded(client: seq<byte>, upstream: seq<byte>, schedule: seq<bool>, up: seq<byte>,
                               down: seq<byte>) {
    exists n: nat ::
      && Ends(client, upstream, schedule, n)
      && FramesEnd(client, Turns(schedule[..n], true)) == Some(|up|)
      && FramesEnd(upstream, Turns(schedule[..n], false)) == Some(|down|)
  }

  /** Byte `p` of the stream is the one the mode names, in the frame at `start`: a MEASUREMENTS
      response that closed under what the proxy knew. */
  ghost predicate Named(data: seq<byte>, start: nat, known: Learned, mode: Mode, p: nat) {
    && start <= |data| && Boundary(data, start) && FrameAt(data[start..]).Some?
    && var f := FrameAt(data[start..]).value;
       && f.Spdm().Some? && f.Spdm().value[1] == 0x60
       && ParseMeasurements(f.Spdm().value, known).Ok?
       && !mode.Passthrough? && Target(ParseMeasurements(f.Spdm().value, known).value, mode).Ok?
       && p == start + FRAME_HEADER + 1 + Target(ParseMeasurements(f.Spdm().value, known).value, mode).value
       && p < start + FRAME_HEADER + |f.payload|
  }

  /** It is the byte named at the step of the service that forwarded that frame, under exactly
      what the proxy had learned by then. */
  ghost predicate NamedAtStep(w: Watch, client: seq<byte>, upstream: seq<byte>, schedule: seq<bool>, n: nat, p: nat)
    requires n < |schedule|
  {
    && !schedule[n] && Reached(client, upstream, schedule, n)
    && var (then_, _, down) := Serve(w, client, upstream, schedule[..n]);
       Named(upstream, |down|, then_.learned, w.mode, p)
  }

  /** Some step names a byte. */
  ghost predicate Eligible(w: Watch, client: seq<byte>, upstream: seq<byte>, schedule: seq<bool>) {
    exists n: nat, p: nat :: n < |schedule| && NamedAtStep(w, client, upstream, schedule, n, p)
  }

  /** It is named at step `n`, and no step before names any. */
  ghost predicate FirstNamed(w: Watch, client: seq<byte>, upstream: seq<byte>, schedule: seq<bool>, n: nat, p: nat)
    requires n < |schedule|
  {
    && NamedAtStep(w, client, upstream, schedule, n, p)
    && forall m: nat, q: nat :: m < n ==> !NamedAtStep(w, client, upstream, schedule, m, q)
  }

  /** What was forwarded is a prefix of what came in, made of whole frames. */
  ghost predicate Faithful(data: seq<byte>, sent: seq<byte>) {
    |sent| <= |data| && Boundary(data, |sent|) && sent == data[..|sent|]
  }

  /** What a service sent down is the same, with one bit of the first named byte changed. */
  ghost predicate OneBitOff(w: Watch, client: seq<byte>, upstream: seq<byte>, schedule: seq<bool>, sent: seq<byte>) {
    && |sent| <= |upstream| && Boundary(upstream, |sent|)
    && exists n: nat, p: nat ::
         && n < |schedule| && FirstNamed(w, client, upstream, schedule, n, p)
         && p < |sent| && sent == upstream[..|sent|][p := FlipLow(upstream[p])]
  }

  lemma {:induction false} OneBitIsNotFaithful(w: Watch, client: seq<byte>, upstream: seq<byte>, schedule: seq<bool>,
                                               sent: seq<byte>)
    requires OneBitOff(w, client, upstream, schedule, sent)
    ensures !Faithful(upstream, sent)
  {
    hide NamedAtStep, FirstNamed;
    var n: nat, p: nat :| n < |schedule| && FirstNamed(w, client, upstream, schedule, n, p)
                          && p < |sent| && sent == upstream[..|sent|][p := FlipLow(upstream[p])];
    assert sent[p] == FlipLow(upstream[p]) != upstream[p];
  }

  // ---- one frame more -----------------------------------------------------------------

  lemma {:induction false} FaithfulCons(data: seq<byte>, rest: seq<byte>)
    requires FrameAt(data).Some?
    requires Faithful(data[FRAME_HEADER + |FrameAt(data).value.payload|..], rest)
    ensures Faithful(data, FrameAt(data).value.Encode() + rest)
  {
    hide FrameAt;
    var size := FRAME_HEADER + |FrameAt(data).value.payload|;
    EncodeUndoesRead(data);
    assert data[..size + |rest|] == data[..size] + data[size..][..|rest|];
  }

  lemma {:induction false} ReachedAfterClient(client: seq<byte>, upstream: seq<byte>, schedule: seq<bool>, n: nat)
    requires schedule != [] && schedule[0] && FrameAt(client).Some? && n < |schedule|
    ensures var size := FRAME_HEADER + |FrameAt(client).value.payload|;
            var own := FramesEnd(client[size..], Turns(schedule[1..][..n], true));
            && (Reached(client, upstream, schedule, n + 1) <==> Reached(client[size..], upstream, schedule[1..], n))
            && FramesEnd(client, Turns(schedule[..n + 1], true)) == (if own.Some? then Some(size + own.value) else None)
            && Turns(schedule[..n + 1], false) == Turns(schedule[1..][..n], false)
  {
    hide FrameAt;
    assert schedule[..n + 1][1..] == schedule[1..][..n];
  }

  lemma {:induction false} ReachedAfterUpstream(client: seq<byte>, upstream: seq<byte>, schedule: seq<bool>, n: nat)
    requires schedule != [] && !schedule[0] && FrameAt(upstream).Some? && n < |schedule|
    ensures var size := FRAME_HEADER + |FrameAt(upstream).value.payload|;
            var own := FramesEnd(upstream[size..], Turns(schedule[1..][..n], false));
            && (Reached(client, upstream, schedule, n + 1) <==> Reached(client, upstream[size..], schedule[1..], n))
            && FramesEnd(upstream, Turns(schedule[..n + 1], false)) ==
                 (if own.Some? then Some(size + own.value) else None)
            && Turns(schedule[..n + 1], true) == Turns(schedule[1..][..n], true)
  {
    hide FrameAt;
    assert schedule[..n + 1][1..] == schedule[1..][..n];
  }

  /** A turn that finds no whole frame is not reached, nor is any after it. */
  lemma {:induction false} NotReached(client: seq<byte>, upstream: seq<byte>, schedule: seq<bool>, n: nat)
    requires n < |schedule| && FrameAt(if schedule[0] then client else upstream).None?
    ensures !Reached(client, upstream, schedule, n + 1)
  {
    hide FrameAt;
    assert schedule[..n + 1][0] == schedule[0];
  }

  lemma {:induction false} NoTurns(client: seq<byte>, upstream: seq<byte>, schedule: seq<bool>)
    ensures Reached(client, upstream, schedule, 0)
    ensures FramesEnd(client, Turns(schedule[..0], true)) == Some(0) == FramesEnd(upstream, Turns(schedule[..0], false))
  {
    assert schedule[..0] == [];
  }

  /** The steps after the client's first frame name what the steps of the rest do. */
  lemma {:induction false} NamedAfterClient(w: Watch, client: seq<byte>, upstream: seq<byte>, schedule: seq<bool>,
                                            n: nat, p: nat)
    requires schedule != [] && schedule[0] && FrameAt(client).Some? && n < |schedule[1..]|
    ensures var f := FrameAt(client).value;
            NamedAtStep(w, client, upstream, schedule, n + 1, p) <==>
            NamedAtStep(RequesterStep(w, f), client[FRAME_HEADER + |f.payload|..], upstream, schedule[1..], n, p)
  {
    hide FrameAt, ParseMeasurements, Target, Named, Reached;
    RequesterKeeps(w, FrameAt(client).value);
    ReachedAfterClient(client, upstream, schedule, n);
    assert schedule[..n + 1][1..] == schedule[1..][..n];
  }

  lemma {:induction false} NamedFurther(data: seq<byte>, start: nat, known: Learned, mode: Mode, p: nat)
    requires FrameAt(data).Some?
    ensures var size := FRAME_HEADER + |FrameAt(data).value.payload|;
            && (Named(data, size + start, known, mode, size + p) <==> Named(data[size..], start, known, mode, p))
            && (Named(data, size + start, known, mode, p) ==> p >= size)
  {
    hide FrameAt, ParseMeasurements, Target;
    var size := FRAME_HEADER + |FrameAt(data).value.payload|;
    FrameFits(data);
    if start <= |data| - size {
      assert data[size..][start..] == data[size + start..];
    }
  }

  lemma {:induction false} FrameFits(data: seq<byte>)
    requires FrameAt(data).Some?
    ensures FRAME_HEADER + |FrameAt(data).value.payload| <= |data|
  {
  }

  /** Those after the upstream's first frame do too, a frame later in the stream. */
  lemma {:induction false} NamedAfterUpstream(w: Watch, client: seq<byte>, upstream: seq<byte>, schedule: seq<bool>,
                                              n: nat, p: nat)
    requires schedule != [] && !schedule[0] && FrameAt(upstream).Some? && n < |schedule[1..]|
    ensures var f := FrameAt(upstream).value;
            var size := FRAME_HEADER + |f.payload|;
            && (NamedAtStep(w, client, upstream, schedule, n + 1, size + p) <==>
                NamedAtStep(ResponderStep(w, f).0, client, upstream[size..], schedule[1..], n, p))
            && (NamedAtStep(w, client, upstream, schedule, n + 1, p) ==> p >= size)
  {
    hide FrameAt, ParseMeasurements, Target, ResponderStep, Reached, Named;
    var f := FrameAt(upstream).value;
    var size := FRAME_HEADER + |f.payload|;
    var (next, out) := ResponderStep(w, f);
    ResponderChangesOnlyByFlip(w, f);
    ReachedAfterUpstream(client, upstream, schedule, n);
    assert schedule[..n + 1][1..] == schedule[1..][..n];
    var r := Serve(next, client, upstream[size..], schedule[1..][..n]);
    assert Serve(w, client, upstream, schedule[..n + 1]).0 == r.0;
    assert |Serve(w, client, upstream, schedule[..n + 1]).2| == size + |r.2|;
    NamedFurther(upstream, |r.2|, r.0.learned, w.mode, p);
  }

  lemma {:induction false} OneBitOffAfterClient(w: Watch, client: seq<byte>, upstream: seq<byte>, schedule: seq<bool>,
                                                sent: seq<byte>)
    requires schedule != [] && schedule[0] && FrameAt(client).Some?
    requires var f := FrameAt(client).value;
             OneBitOff(RequesterStep(w, f), client[FRAME_HEADER + |f.payload|..], upstream, schedule[1..], sent)
    ensures OneBitOff(w, client, upstream, schedule, sent)
  {
    hide FrameAt, NamedAtStep, RequesterStep, Boundary;
    var next, rest := RequesterStep(w, FrameAt(client).value), client[FRAME_HEADER + |FrameAt(client).value.payload|..];
    var n: nat, p: nat :| n < |schedule[1..]| && FirstNamed(next, rest, upstream, schedule[1..], n, p)
                          && p < |sent| && sent == upstream[..|sent|][p := FlipLow(upstream[p])];
    NamedAfterClient(w, client, upstream, schedule, n, p);
    forall m: nat, q: nat | m < n + 1
      ensures !NamedAtStep(w, client, upstream, schedule, m, q)
    {
      if m == 0 {
        ClientNamesNothing(w, client, upstream, schedule, q);
      } else {
        NamedAfterClient(w, client, upstream, schedule, m - 1, q);
      }
    }
    assert FirstNamed(w, client, upstream, schedule, n + 1, p);
  }

  lemma {:induction false} ClientNamesNothing(w: Watch, client: seq<byte>, upstream: seq<byte>, schedule: seq<bool>,
                                              p: nat)
    requires schedule != [] && schedule[0]
    ensures !NamedAtStep(w, client, upstream, schedule, 0, p)
  {
    hide Serve, Named, Reached;
  }

  /** The upstream's first frame names a byte exactly when it is changed, if no flip is spent. */
  lemma {:induction false} NamedAtOnce(w: Watch, client: seq<byte>, upstream: seq<byte>, schedule: seq<bool>, p: nat)
    requires schedule != [] && !schedule[0]
    ensures NamedAtStep(w, client, upstream, schedule, 0, p) <==> Named(upstream, 0, w.learned, w.mode, p)
  {
    hide Named, Reached;
    ServeNothing(w, client, upstream);
    NoTurns(client, upstream, schedule);
    assert schedule[..0] == [];
  }

  lemma {:induction false} FlipsWhenNamed(w: Watch, upstream: seq<byte>, p: nat)
    requires w.tamper.None? && Named(upstream, 0, w.learned, w.mode, p)
    ensures FrameAt(upstream).Some? && ResponderStep(w, FrameAt(upstream).value).0.tamper.Some?
  {
    hide FrameAt, ParseMeasurements, Target;
    assert upstream[0..] == upstream;
  }

  lemma {:induction false} OneBitOffAfterUpstream(w: Watch, client: seq<byte>, upstream: seq<byte>, schedule: seq<bool>,
                                                  sent: seq<byte>)
    requires schedule != [] && !schedule[0] && FrameAt(upstream).Some? && w.tamper.None?
    requires var f := FrameAt(upstream).value;
             && ResponderStep(w, f).0.tamper.None?
             && OneBitOff(ResponderStep(w, f).0, client, upstream[FRAME_HEADER + |f.payload|..], schedule[1..], sent)
    ensures OneBitOff(w, client, upstream, schedule, FrameAt(upstream).value.Encode() + sent)
  {
    hide FrameAt, NamedAtStep, ResponderStep, Named;
    var size := FRAME_HEADER + |FrameAt(upstream).value.payload|;
    var next, tail := ResponderStep(w, FrameAt(upstream).value).0, upstream[size..];
    var n: nat, p: nat :| n < |schedule[1..]| && FirstNamed(next, client, tail, schedule[1..], n, p)
                          && p < |sent| && sent == tail[..|sent|][p := FlipLow(tail[p])];
    EncodeUndoesRead(upstream);
    NamedAfterUpstream(w, client, upstream, schedule, n, p);
    forall m: nat, q: nat | m < n + 1
      ensures !NamedAtStep(w, client, upstream, schedule, m, q)
    {
      NothingNamedBefore(w, client, upstream, schedule, n, p, m, q);
    }
    assert FirstNamed(w, client, upstream, schedule, n + 1, size + p);
    var all := FrameAt(upstream).value.Encode() + sent;
    assert upstream[..|all|] == upstream[..size] + tail[..|sent|];
    assert all == upstream[..|all|][size + p := FlipLow(upstream[size + p])];
  }

  lemma {:induction false} NothingNamedBefore(w: Watch, client: seq<byte>, upstream: seq<byte>, schedule: seq<bool>,
                                              n: nat, p: nat, m: nat, q: nat)
    requires schedule != [] && !schedule[0] && FrameAt(upstream).Some? && w.tamper.None? && m <= n < |schedule[1..]|
    requires var f := FrameAt(upstream).value;
             && ResponderStep(w, f).0.tamper.None?
             && FirstNamed(ResponderStep(w, f).0, client, upstream[FRAME_HEADER + |f.payload|..], schedule[1..], n, p)
    ensures !NamedAtStep(w, client, upstream, schedule, m, q)
  {
    hide FrameAt, NamedAtStep, ResponderStep, Named;
    if NamedAtStep(w, client, upstream, schedule, m, q) {
      if m == 0 {
        NamedAtOnce(w, client, upstream, schedule, q);
        FlipsWhenNamed(w, upstream, q);
      } else {
        var size := FRAME_HEADER + |FrameAt(upstream).value.payload|;
        NamedAfterUpstream(w, client, upstream, schedule, m - 1, q);
        NamedAfterUpstream(w, client, upstream, schedule, m - 1, q - size);
      }
    }
  }

  /** The frame the flip is in, followed by frames forwarded as they came. */
  lemma {:induction false} FlippedFrame(w: Watch, client: seq<byte>, upstream: seq<byte>, schedule: seq<bool>,
                                        rest: seq<byte>)
    requires schedule != [] && !schedule[0] && FrameAt(upstream).Some?
    requires var f := FrameAt(upstream).value;
             ResponderStep(w, f).0.tamper != w.tamper && Faithful(upstream[FRAME_HEADER + |f.payload|..], rest)
    ensures OneBitOff(w, client, upstream, schedule, ResponderStep(w, FrameAt(upstream).value).1.Encode() + rest)
  {
    hide FrameAt, ParseMeasurements, Target, BE, ToBE, Serve;
    var f := FrameAt(upstream).value;
    var size := FRAME_HEADER + |f.payload|;
    var msg := f.Spdm().value;
    var at := Target(ParseMeasurements(msg, w.learned).value, w.mode).value;
    TargetInside(msg, w.learned, w.mode);
    EncodeUndoesRead(upstream);
    var out := ResponderStep(w, f).1;
    var p := FRAME_HEADER + 1 + at;
    assert f.payload[..1] + Flipped(msg, at) == f.payload[1 + at := FlipLow(msg[at])];
    assert out.Encode() == f.Encode()[p := FlipLow(msg[at])];
    var sent := out.Encode() + rest;
    assert upstream[..|sent|] == upstream[..size] + upstream[size..][..|rest|];
    assert f.Encode()[p] == upstream[p] == msg[at];
    assert sent == upstream[..|sent|][p := FlipLow(upstream[p])];
    assert upstream[0..] == upstream;
    assert Named(upstream, 0, w.learned, w.mode, p);
    NamedAtOnce(w, client, upstream, schedule, p);
    assert FirstNamed(w, client, upstream, schedule, 0, p);
  }

  lemma {:induction false} ServeNothing(w: Watch, client: seq<byte>, upstream: seq<byte>)
    ensures Serve(w, client, upstream, []) == (w, [], [])
  {
  }

  lemma {:induction false} ResponderChangesOnlyByFlip(w: Watch, f: Frame)
    ensures var (next, out) := ResponderStep(w, f);
            && next.mode == w.mode
            && |out.Encode()| == FRAME_HEADER + |f.payload|
            && (next.tamper == w.tamper ==> out == f)
            && (next.tamper != w.tamper ==> w.tamper.None? && next.tamper.Some? && !w.mode.Passthrough?)
  {
    hide ParseMeasurements, Target;
    if ResponderStep(w, f).1 != f {
      TargetInside(f.Spdm().value, w.learned, w.mode);
    }
  }

  // ---- one connection -----------------------------------------------------------------

  /** The turns served before `n + 1` are the first turn and those the rest serves before `n`. */
  lemma {:induction false} EndsLater(client: seq<byte>, upstream: seq<byte>, schedule: seq<bool>, n: nat)
    requires schedule != [] && FrameAt(if schedule[0] then client else upstream).Some?
    requires var size := FRAME_HEADER + |FrameAt(if schedule[0] then client else upstream).value.payload|;
             if schedule[0] then Ends(client[size..], upstream, schedule[1..], n)
             else Ends(client, upstream[size..], schedule[1..], n)
    ensures Ends(client, upstream, schedule, n + 1)
  {
    hide FrameAt, Reached;
    if schedule[0] {
      ReachedAfterClient(client, upstream, schedule, n);
      if n + 1 < |schedule| {
        ReachedAfterClient(client, upstream, schedule, n + 1);
      }
    } else {
      ReachedAfterUpstream(client, upstream, schedule, n);
      if n + 1 < |schedule| {
        ReachedAfterUpstream(client, upstream, schedule, n + 1);
      }
    }
  }

  /** Every frame whose turn comes is forwarded. */
  lemma {:induction false} ServeForwardsAll(w: Watch, client: seq<byte>, upstream: seq<byte>, schedule: seq<bool>)
    returns (n: nat)
    ensures Ends(client, upstream, schedule, n)
    ensures var (_, up, down) := Serve(w, client, upstream, schedule);
            && FramesEnd(client, Turns(schedule[..n], true)) == Some(|up|)
            && FramesEnd(upstream, Turns(schedule[..n], false)) == Some(|down|)
    decreases |schedule|
  {
    hide FrameAt, RequesterStep, ResponderStep, FramesEnd, Reached, Turns, Ends;
    if schedule == [] || FrameAt(if schedule[0] then client else upstream).None? {
      n := 0;
      NoTurns(client, upstream, schedule);
      EndsAtOnce(client, upstream, schedule);
    } else if schedule[0] {
      var f := FrameAt(client).value;
      var rest := client[FRAME_HEADER + |f.payload|..];
      n := ServeForwardsAll(RequesterStep(w, f), rest, upstream, schedule[1..]);
      EndsLater(client, upstream, schedule, n);
      EndsBound(rest, upstream, schedule[1..], n);
      ReachedAfterClient(client, upstream, schedule, n);
      n := n + 1;
    } else {
      var f := FrameAt(upstream).value;
      var (next, out) := ResponderStep(w, f);
      var tail := upstream[FRAME_HEADER + |f.payload|..];
      ResponderChangesOnlyByFlip(w, f);
      n := ServeForwardsAll(next, client, tail, schedule[1..]);
      EndsLater(client, upstream, schedule, n);
      EndsBound(client, tail, schedule[1..], n);
      ReachedAfterUpstream(client, upstream, schedule, n);
      n := n + 1;
    }
  }

  lemma {:induction false} EndsAtOnce(client: seq<byte>, upstream: seq<byte>, schedule: seq<bool>)
    requires schedule == [] || FrameAt(if schedule[0] then client else upstream).None?
    ensures Ends(client, upstream, schedule, 0)
  {
    hide Reached, FrameAt;
    NoTurns(client, upstream, schedule);
    if schedule != [] {
      NotReached(client, upstream, schedule, 0);
    }
  }

  lemma {:induction false} EndsBound(client: seq<byte>, upstream: seq<byte>, schedule: seq<bool>, n: nat)
    requires Ends(client, upstream, schedule, n)
    ensures n <= |schedule|
  {
  }

  /** A flip is spent exactly when none was and some step names a byte. */
  lemma {:induction false} FlipsExactly(w: Watch, client: seq<byte>, upstream: seq<byte>, schedule: seq<bool>, n: nat,
                                        p: nat)
    requires w.tamper.None? && n < |schedule| && NamedAtStep(w, client, upstream, schedule, n, p)
    ensures Serve(w, client, upstream, schedule).0.tamper.Some?
    decreases |schedule|
  {
    hide FrameAt, RequesterStep, ResponderStep, Named, Reached, NamedAtStep;
    FrameAtStep(w, client, upstream, schedule, n, p);
    if schedule[0] {
      if n == 0 {
        ClientNamesNothing(w, client, upstream, schedule, p);
      } else {
        var f := FrameAt(client).value;
        RequesterKeeps(w, f);
        NamedAfterClient(w, client, upstream, schedule, n - 1, p);
        FlipsExactly(RequesterStep(w, f), client[FRAME_HEADER + |f.payload|..], upstream, schedule[1..], n - 1, p);
      }
    } else {
      var f := FrameAt(upstream).value;
      var size := FRAME_HEADER + |f.payload|;
      var next := ResponderStep(w, f).0;
      if next.tamper.Some? {
        SpentStays(next, client, upstream[size..], schedule[1..]);
      } else if n == 0 {
        NamedAtOnce(w, client, upstream, schedule, p);
        FlipsWhenNamed(w, upstream, p);
      } else {
        NamedAfterUpstream(w, client, upstream, schedule, n - 1, p);
        NamedAfterUpstream(w, client, upstream, schedule, n - 1, p - size);
        FlipsExactly(next, client, upstream[size..], schedule[1..], n - 1, p - size);
      }
    }
  }

  lemma {:induction false} FrameAtStep(w: Watch, client: seq<byte>, upstream: seq<byte>, schedule: seq<bool>, n: nat,
                                       p: nat)
    requires n < |schedule| && NamedAtStep(w, client, upstream, schedule, n, p)
    ensures FrameAt(if schedule[0] then client else upstream).Some?
  {
    hide FrameAt, ParseMeasurements, Target, Reached;
    if FrameAt(if schedule[0] then client else upstream).None? {
      if n > 0 {
        NotReached(client, upstream, schedule, n - 1);
      } else {
        NamedAtOnce(w, client, upstream, schedule, p);
      }
    }
  }

  lemma {:induction false} SpentStays(w: Watch, client: seq<byte>, upstream: seq<byte>, schedule: seq<bool>)
    requires w.tamper.Some?
    ensures Serve(w, client, upstream, schedule).0.tamper == w.tamper
    decreases |schedule|
  {
    hide FrameAt, RequesterStep, ResponderStep;
    if schedule != [] && schedule[0] && FrameAt(client).Some? {
      var f := FrameAt(client).value;
      RequesterKeeps(w, f);
      SpentStays(RequesterStep(w, f), client[FRAME_HEADER + |f.payload|..], upstream, schedule[1..]);
    } else if schedule != [] && !schedule[0] && FrameAt(upstream).Some? {
      var f := FrameAt(upstream).value;
      ResponderChangesOnlyByFlip(w, f);
      SpentStays(ResponderStep(w, f).0, client, upstream[FRAME_HEADER + |f.payload|..], schedule[1..]);
    }
  }

  /** What is sent is what came, but for the first named byte if the flip was spent on it. */
  ghost predicate KeptBytes(w: Watch, client: seq<byte>, upstream: seq<byte>, schedule: seq<bool>) {
    var (w', up, down) := Serve(w, client, upstream, schedule);
    && w'.mode == w.mode && Faithful(client, up)
    && (w'.tamper == w.tamper ==> Faithful(upstream, down))
    && (w'.tamper != w.tamper ==>
          && w.tamper.None? && w'.tamper.Some? && !w.mode.Passthrough?
          && OneBitOff(w, client, upstream, schedule, down))
  }

  lemma {:induction false} ServeKeepsBytes(w: Watch, client: seq<byte>, upstream: seq<byte>, schedule: seq<bool>)
    ensures KeptBytes(w, client, upstream, schedule)
    decreases |schedule|
  {
    hide FrameAt, RequesterStep, ResponderStep, Faithful, OneBitOff;
    NothingIsFaithful(client);
    NothingIsFaithful(upstream);
    if schedule != [] && schedule[0] && FrameAt(client).Some? {
      var f := FrameAt(client).value;
      var rest := client[FRAME_HEADER + |f.payload|..];
      RequesterKeeps(w, f);
      ServeKeepsBytes(RequesterStep(w, f), rest, upstream, schedule[1..]);
      var r := Serve(RequesterStep(w, f), rest, upstream, schedule[1..]);
      FaithfulCons(client, r.1);
      if r.0.tamper != w.tamper {
        OneBitOffAfterClient(w, client, upstream, schedule, r.2);
      }
    } else if schedule != [] && !schedule[0] && FrameAt(upstream).Some? {
      var f := FrameAt(upstream).value;
      var (next, out) := ResponderStep(w, f);
      var tail := upstream[FRAME_HEADER + |f.payload|..];
      ResponderChangesOnlyByFlip(w, f);
      ServeKeepsBytes(next, client, tail, schedule[1..]);
      var r := Serve(next, client, tail, schedule[1..]);
      if next.tamper != w.tamper {
        FlippedFrame(w, client, upstream, schedule, r.2);
      } else if r.0.tamper == next.tamper {
        FaithfulCons(upstream, r.2);
      } else {
        OneBitOffAfterUpstream(w, client, upstream, schedule, r.2);
      }
    }
  }

  /** What one connection does to the two streams and to the flip. */
  ghost predicate ServedSafely(w: Watch, client: seq<byte>, upstream: seq<byte>, schedule: seq<bool>) {
    var (w', up, down) := Serve(w, client, upstream, schedule);
    && KeptBytes(w, client, upstream, schedule) && AllForwarded(client, upstream, schedule, up, down)
    && (w'.tamper != w.tamper <==> w.tamper.None? && Eligible(w, client, upstream, schedule))
  }

  lemma {:induction false} ServeIsSafe(w: Watch, client: seq<byte>, upstream: seq<byte>, schedule: seq<bool>)
    ensures ServedSafely(w, client, upstream, schedule)
  {
    hide Serve, Faithful, NamedAtStep, Ends, FramesEnd;
    ServeKeepsBytes(w, client, upstream, schedule);
    var n := ServeForwardsAll(w, client, upstream, schedule);
    EndsBound(client, upstream, schedule, n);
    if w.tamper.None? && Eligible(w, client, upstream, schedule) {
      var m: nat, p: nat :| m < |schedule| && NamedAtStep(w, client, upstream, schedule, m, p);
      FlipsExactly(w, client, upstream, schedule, m, p);
    }
  }

  lemma {:induction false} NothingIsFaithful(data: seq<byte>)
    ensures Faithful(data, [])
  {
  }

  lemma {:induction false} RequesterKeeps(w: Watch, f: Frame)
    ensures RequesterStep(w, f).mode == w.mode && RequesterStep(w, f).tamper == w.tamper
  {
  }

  // ---- a whole run --------------------------------------------------------------------

  /** What the proxy carries into connection `k`. */
  ghost function Before(w: Watch, conns: seq<Connection>, k: nat): Watch
    requires k <= |conns|
  {
    RunAll(w, conns[..k]).0
  }

  /** Connection `k` serves a frame that names a byte. */
  ghost predicate EligibleIn(w: Watch, conns: seq<Connection>, k: nat)
    requires k < |conns|
  {
    Eligible(Before(w, conns, k), Concat(conns[k].client), Concat(conns[k].upstream), conns[k].schedule)
  }

  lemma {:induction false} EligibleLater(w: Watch, conns: seq<Connection>, k: nat)
    requires k + 1 < |conns|
    ensures var c := conns[0];
            var next := Serve(w, Concat(c.client), Concat(c.upstream), c.schedule).0;
            && Before(w, conns, k + 1) == Before(next, conns[1..], k)
            && (EligibleIn(w, conns, k + 1) <==> EligibleIn(next, conns[1..], k))
  {
    hide Serve, Eligible, Concat;
    assert conns[..k + 1][0] == conns[0] && conns[..k + 1][1..] == conns[1..][..k];
  }

  /** The connection forwarded every frame whose turn came, on both sides. */
  ghost predicate Complete(c: Connection, out: (seq<byte>, seq<byte>)) {
    AllForwarded(Concat(c.client), Concat(c.upstream), c.schedule, out.0, out.1)
  }

  /** It forwarded both streams faithfully. */
  ghost predicate Untouched(c: Connection, out: (seq<byte>, seq<byte>)) {
    Complete(c, out) && Faithful(Concat(c.client), out.0) && Faithful(Concat(c.upstream), out.1)
  }

  /** The connection, served from `w`, is the one the flip went into. */
  ghost predicate Touched(w: Watch, c: Connection, out: (seq<byte>, seq<byte>)) {
    && Complete(c, out) && Faithful(Concat(c.client), out.0)
    && OneBitOff(w, Concat(c.client), Concat(c.upstream), c.schedule, out.1)
  }

  /** Connection `k` is the only one that was touched, and the first that could be. */
  ghost predicate OnlyTouched(w: Watch, conns: seq<Connection>, outs: seq<(seq<byte>, seq<byte>)>, k: nat)
    requires |outs| == |conns|
  {
    && k < |conns| && Touched(Before(w, conns, k), conns[k], outs[k])
    && (forall i :: 0 <= i < |conns| && i != k ==> Untouched(conns[i], outs[i]))
    && forall i: nat :: i < k ==> !EligibleIn(w, conns, i)
  }

  /** From `w`, all connections are untouched, or, when a flip is left and one is eligible, all
      but the first such. */
  ghost predicate RanSafely(w: Watch, conns: seq<Connection>) {
    var (w', outs) := RunAll(w, conns);
    && |outs| == |conns| && w'.mode == w.mode
    && (w'.tamper != w.tamper <==> w.tamper.None? && exists k: nat :: k < |conns| && EligibleIn(w, conns, k))
    && (w'.tamper == w.tamper ==> forall i :: 0 <= i < |conns| ==> Untouched(conns[i], outs[i]))
    && (w'.tamper != w.tamper ==>
          && w.tamper.None? && w'.tamper.Some? && !w.mode.Passthrough?
          && exists k: nat :: OnlyTouched(w, conns, outs, k))
  }

  lemma {:induction false} RunIsSafe(w: Watch, conns: seq<Connection>)
    ensures RanSafely(w, conns)
    decreases |conns|
  {
    hide Serve, Faithful, OneBitOff, AllForwarded, Eligible;
    if conns != [] {
      var c := conns[0];
      ServeIsSafe(w, Concat(c.client), Concat(c.upstream), c.schedule);
      var (next, up, down) := Serve(w, Concat(c.client), Concat(c.upstream), c.schedule);
      RunIsSafe(next, conns[1..]);
      var (w', rest) := RunAll(next, conns[1..]);
      var outs := [(up, down)] + rest;
      assert forall i :: 0 < i < |conns| ==> outs[i] == rest[i - 1] && conns[i] == conns[1..][i - 1];
      assert conns[..0] == [];
      assert EligibleIn(w, conns, 0) <==> Eligible(w, Concat(c.client), Concat(c.upstream), c.schedule);
      forall k: nat | k + 1 < |conns|
        ensures Before(w, conns, k + 1) == Before(next, conns[1..], k)
        ensures EligibleIn(w, conns, k + 1) <==> EligibleIn(next, conns[1..], k)
      {
        EligibleLater(w, conns, k);
      }
      FirstThenRest(w, next, conns, (up, down), rest, w');
    }
  }

  /** The first connection and the run of the rest, put together. */
  lemma {:induction false} FirstThenRest(w: Watch, next: Watch, conns: seq<Connection>, out: (seq<byte>, seq<byte>),
                                         rest: seq<(seq<byte>, seq<byte>)>, w': Watch)
    requires conns != [] && |rest| == |conns| - 1
    requires var c := conns[0];
             && ServedSafely(w, Concat(c.client), Concat(c.upstream), c.schedule)
             && Serve(w, Concat(c.client), Concat(c.upstream), c.schedule) == (next, out.0, out.1)
             && (EligibleIn(w, conns, 0) <==> Eligible(w, Concat(c.client), Concat(c.upstream), c.schedule))
             && Before(w, conns, 0) == w
    requires RanSafely(next, conns[1..]) && RunAll(next, conns[1..]) == (w', rest)
    requires forall k: nat :: k + 1 < |conns| ==>
               && Before(w, conns, k + 1) == Before(next, conns[1..], k)
               && (EligibleIn(w, conns, k + 1) <==> EligibleIn(next, conns[1..], k))
    ensures RanSafely(w, conns)
  {
    hide Serve, Faithful, OneBitOff, AllForwarded, Eligible, EligibleIn, Before, Concat;
    var outs := [out] + rest;
    assert RunAll(w, conns) == (w', outs);
    forall i | 0 < i < |conns|
      ensures outs[i] == rest[i - 1] && conns[i] == conns[1..][i - 1]
    {
    }
    if next.tamper != w.tamper {
      assert OnlyTouched(w, conns, outs, 0);
      assert EligibleIn(w, conns, 0);
    } else {
      assert w.tamper.None? ==> !EligibleIn(w, conns, 0);
      if k: nat :| k < |conns[1..]| && EligibleIn(next, conns[1..], k) {
        assert EligibleIn(w, conns, k + 1);
      }
      if k: nat :| k < |conns| && EligibleIn(w, conns, k) && w.tamper.None? {
        assert EligibleIn(next, conns[1..], k - 1);
      }
      if w'.tamper != next.tamper {
        var k: nat :| OnlyTouched(next, conns[1..], rest, k);
        forall i: nat | i < k + 1
          ensures !EligibleIn(w, conns, i)
        {
          assert i > 0 ==> (EligibleIn(w, conns, (i - 1) + 1) <==> EligibleIn(next, conns[1..], i - 1));
        }
        forall i | 0 <= i < |conns| && i != k + 1
          ensures Untouched(conns[i], outs[i])
        {
          assert i > 0 ==> Untouched(conns[1..][i - 1], rest[i - 1]);
        }
        assert OnlyTouched(w, conns, outs, k + 1);
      }
    }
  }

  /** Over a whole run of a new proxy, for every segmentation of every stream and every order
      of service: every frame whose turn comes is forwarded, and what is forwarded is what came
      in, except that the first byte a served frame names has its lowest bit changed, exactly
      when the report says a tamper was applied, and exactly when a frame that names one is
      served at all; in passthrough nothing is ever changed. */
  lemma {:induction false} WholeRunIsSafe(mode: Mode, conns: seq<Connection>)
    ensures var start := Watch(mode, NOTHING, 0, 0, None, None, []);
            var (w, outs) := RunAll(start, conns);
            && |outs| == |conns|
            && (forall i :: 0 <= i < |conns| ==> Complete(conns[i], outs[i]))
            && (w.tamper.Some? <==> exists k: nat :: k < |conns| && EligibleIn(start, conns, k))
            && (w.tamper.None? <==> forall i :: 0 <= i < |conns| ==> Untouched(conns[i], outs[i]))
            && (w.tamper.Some? ==> !mode.Passthrough? && exists k: nat :: OnlyTouched(start, conns, outs, k))
  {
    hide RunAll, Faithful, OneBitOff, AllForwarded, EligibleIn;
    var start := Watch(mode, NOTHING, 0, 0, None, None, []);
    RunIsSafe(start, conns);
    var (w, outs) := RunAll(start, conns);
    if w.tamper.Some? {
      var k: nat :| OnlyTouched(start, conns, outs, k);
      var c := conns[k];
      OneBitIsNotFaithful(Before(start, conns, k), Concat(c.client), Concat(c.upstream), c.schedule, outs[k].1);
    }
  }

  /** How TCP cut the streams does not matter. */
  ghost predicate SameTraffic(a: seq<Connection>, b: seq<Connection>) {
    |a| == |b| && forall i :: 0 <= i < |a| ==>
      && Concat(a[i].client) == Concat(b[i].client) && Concat(a[i].upstream) == Concat(b[i].upstream)
      && a[i].schedule == b[i].schedule
  }

  lemma {:induction false} SegmentationIsInvisible(w: Watch, a: seq<Connection>, b: seq<Connection>)
    requires SameTraffic(a, b)
    ensures RunAll(w, a) == RunAll(w, b)
    decreases |a|
  {
    hide Serve, Concat;
    if a != [] {
      var next := Serve(w, Concat(a[0].client), Concat(a[0].upstream), a[0].schedule).0;
      SegmentationIsInvisible(next, a[1..], b[1..]);
    }
  }
}
