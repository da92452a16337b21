/** What every run of the decoder keeps, whatever the transform answers. */
module DecoderSafety {
  import opened Bytes
  import opened Decoder
  import AnnexB
  import Session
  import Sps

  // ----- Order of events --------------------------------------------------------------

  /** The life of one transform: built, fed its first keyframe, running, broken; Illegal never happens. */
  datatype Phase =
    | Off
    | Fresh(sps: seq<byte>, pps: seq<byte>)
    | Running(sps: seq<byte>, pps: seq<byte>)
    | Broken
    | Illegal

  /** A keyframe may only be fed to a transform built for its parameter sets. */
  predicate Matches(p: Phase, s: VideoSample)
    requires p.Fresh? || p.Running?
  {
    s.isKeyframe ==> s.sps == p.sps && (s.pps != [] ==> s.pps == p.pps)
  }

  function Next(p: Phase, e: Event): Phase {
    match e
    case Built(sps, pps) => if p.Off? then Fresh(sps, pps) else Illegal
    case Reset => if p.Running? || p.Broken? then Off else Illegal
    case Fed(s) =>
      if p.Fresh? && s.isKeyframe && Matches(p, s) then Running(p.sps, p.pps)
      else if p.Running? && Matches(p, s) then p
      else Illegal
    case FeedFailed => if p.Fresh? || p.Running? then Broken else Illegal
    case KeyframeAsked(_) => if p.Off? then Off else Illegal
    case _ => if p.Running? then p else Illegal
  }

  function PhaseAfter(p: Phase, log: seq<Event>): Phase
    decreases |log|
  {
    if log == [] then p else PhaseAfter(Next(p, log[0]), log[1..])
  }

  lemma {:induction false} PhaseAppend(p: Phase, a: seq<Event>, b: seq<Event>)
    ensures PhaseAfter(p, a + b) == PhaseAfter(PhaseAfter(p, a), b)
    decreases |a|
  {
    if a == [] {
      assert a + b == b;
    } else {
      assert (a + b)[1..] == a[1..] + b;
      PhaseAppend(Next(p, a[0]), a[1..], b);
    }
  }

  lemma PhaseOne(p: Phase, e: Event)
    ensures PhaseAfter(p, [e]) == Next(p, e)
  {
    assert [e][1..] == [];
  }

  function PhaseOf(d: State): Phase {
    if d.ready then Running(d.lastSps, d.lastPps) else Off
  }

  /** Neither publishing nor draining touches anything but the timestamp queue. */
  lemma {:induction false} DrainKeeps(d: State, outputs: seq<Output>)
    ensures var (ok, d', events) := Drain(d, outputs);
            && d' == d.(times := d'.times)
            && forall p: Phase | p.Running? :: PhaseAfter(p, events) == p
    decreases |outputs|
  {
    if outputs != [] && !(outputs[0].StreamChange? && !outputs[0].nv12) {
      if outputs[0].Decoded? {
        var (d', shown) := PublishStep(d, outputs[0].picture);
        DrainKeeps(d', outputs[1..]);
        forall p: Phase | p.Running?
          ensures PhaseAfter(p, shown + Drain(d', outputs[1..]).2) == p
        {
          PhaseAppend(p, shown, Drain(d', outputs[1..]).2);
          ShownKeeps(p, d, outputs[0].picture);
        }
      } else if outputs[0].StreamChange? {
        DrainKeeps(d, outputs[1..]);
      }
    }
  }

  lemma ShownKeeps(p: Phase, d: State, pic: Picture)
    requires p.Running?
    ensures PhaseAfter(p, PublishStep(d, pic).1) == p
  {
    var shown := PublishStep(d, pic).1;
    PhaseOne(p, shown[0]);
    if |shown| == 1 {
      assert shown == [shown[0]];
    } else {
      assert shown == [shown[0]] + [shown[1]];
      PhaseOne(p, shown[1]);
      PhaseAppend(p, [shown[0]], [shown[1]]);
    }
  }

  lemma TakeKeeps(d: State, s: VideoSample, o: Oracle, p: Phase)
    requires p.Running?
    ensures var (ok, d', events) := Take(d, s, o);
            d' == d.(times := d'.times) && PhaseAfter(p, events) == p
  {
    var e := d.(times := d.times + [(s.captureMs, s.arrivalMs)]);
    DrainKeeps(e, o.outputs);
    PhaseAppend(p, [Taken(s.captureMs, s.arrivalMs)], Drain(e, o.outputs).2);
    PhaseOne(p, Taken(s.captureMs, s.arrivalMs));
  }

  /** A unit reaches the transform only where it may. */
  lemma FeedKeeps(d: State, s: VideoSample, o: Oracle, p: Phase)
    requires p.Running? || (p.Fresh? && s.isKeyframe)
    requires Matches(p, s)
    ensures var (ok, d', events) := FeedStep(d, s, o);
            && d' == d.(times := d'.times)
            && (PhaseAfter(p, events) == Running(p.sps, p.pps) || (!ok && PhaseAfter(p, events) == p))
  {
    var q := Running(p.sps, p.pps);
    PhaseOne(p, Fed(s));
    if o.alloc {
      DrainKeeps(d, o.drained);
      var (drained, e, events) := Drain(d, o.drained);
      TakeKeeps(e, s, o, q);
      TakeKeeps(d, s, o, q);
      PhaseAppend(p, [Fed(s)], events);
      PhaseAppend(q, events, Take(e, s, o).2);
      PhaseAppend(p, [Fed(s)], events + Take(e, s, o).2);
      PhaseAppend(p, [Fed(s)], Take(d, s, o).2);
    }
  }

  lemma FailureKeeps(p: Phase, asked: seq<Event>)
    requires p.Fresh? || p.Running?
    requires asked == [] || (|asked| == 1 && asked[0].KeyframeAsked?)
    ensures PhaseAfter(p, [FeedFailed, Reset] + asked) == Off
  {
    PhaseAppend(p, [FeedFailed, Reset], asked);
    assert [FeedFailed, Reset][1..] == [Reset];
    PhaseOne(Broken, Reset);
    AskedKeeps(asked);
  }

  lemma AskedKeeps(asked: seq<Event>)
    requires asked == [] || (|asked| == 1 && asked[0].KeyframeAsked?)
    ensures PhaseAfter(Off, asked) == Off
  {
    if asked != [] {
      assert asked == [asked[0]];
      PhaseOne(Off, asked[0]);
    }
  }

  lemma FeedOrResetKeeps(d: State, s: VideoSample, size: Option<Sps.Dimensions>, o: Oracle, p: Phase)
    requires d.ready && (p == Running(d.lastSps, d.lastPps) || (p == Fresh(d.lastSps, d.lastPps) && s.isKeyframe))
    requires Matches(p, s)
    ensures var (d', events) := FeedOrReset(d, s, size, o);
            PhaseAfter(p, events) == PhaseOf(d')
  {
    var v := WithVisible(d, s, size);
    FeedKeeps(v, s, o, p);
    var (ok, d', fed) := FeedStep(v, s, o);
    if !ok {
      var asked := Ask(ResetOf(d'), o.now).1;
      PhaseAppend(p, fed, [FeedFailed, Reset] + asked);
      var q := PhaseAfter(p, fed);
      assert q.Fresh? || q.Running?;
      FailureKeeps(q, asked);
    }
  }

  lemma BuildAndFeedKeeps(d: State, s: VideoSample, size: Option<Sps.Dimensions>, o: Oracle)
    requires !d.ready && s.isKeyframe
    ensures var (d', events) := BuildAndFeed(d, s, size, o);
            PhaseAfter(Off, events) == PhaseOf(d')
  {
    if o.setup {
      var b := d.(ready := true, lastSps := s.sps, lastPps := s.pps);
      PhaseAppend(Off, [Built(s.sps, s.pps)], FeedOrReset(b, s, size, o).1);
      PhaseOne(Off, Built(s.sps, s.pps));
      FeedOrResetKeeps(b, s, size, o, Fresh(s.sps, s.pps));
    } else {
      AskedKeeps(Ask(d, o.now).1);
    }
  }

  ghost predicate KeyHasSps(s: VideoSample) { s.isKeyframe ==> s.sps != [] }

  lemma SubmitKeeps(d: State, s: VideoSample, size: Option<Sps.Dimensions>, o: Oracle)
    requires KeyHasSps(s)
    ensures var (d', events) := SubmitStep(d, s, size, o);
            PhaseAfter(PhaseOf(d), events) == PhaseOf(d')
  {
    if s.annexb != [] {
      if !d.ready {
        if s.isKeyframe {
          BuildAndFeedKeeps(d, s, size, o);
        } else {
          AskedKeeps(Ask(d, o.now).1);
        }
      } else if ParametersChanged(d, s) && s.isKeyframe {
        PhaseAppend(PhaseOf(d), [Reset], BuildAndFeed(ResetOf(d), s, size, o).1);
        PhaseOne(PhaseOf(d), Reset);
        BuildAndFeedKeeps(ResetOf(d), s, size, o);
      } else {
        FeedOrResetKeeps(d, s, size, o, PhaseOf(d));
      }
    }
  }

  ghost predicate KeysHaveSps(calls: seq<Call>) {
    forall k | 0 <= k < |calls| :: KeyHasSps(calls[k].sample)
  }

  /** Samples of the session meet the assumption. */
  lemma SessionSamplesOk(f: AnnexB.VideoFrame, arrivalMs: int)
    ensures KeyHasSps(Session.SampleOf(f, arrivalMs))
  {
  }

  function StateAfter(d: State, calls: seq<Call>): State
    decreases |calls|
  {
    if calls == [] then d else StateAfter(Step(d, calls[0]).0, calls[1..])
  }

  lemma {:induction false} RunKeeps(d: State, calls: seq<Call>)
    requires KeysHaveSps(calls)
    ensures PhaseAfter(PhaseOf(d), RunAll(d, calls)) == PhaseOf(StateAfter(d, calls))
    decreases |calls|
  {
    if calls != [] {
      var (d', events) := Step(d, calls[0]);
      SubmitKeeps(d, calls[0].sample, calls[0].size, calls[0].oracle);
      PhaseAppend(PhaseOf(d), events, RunAll(d', calls[1..]));
      RunKeeps(d', calls[1..]);
    }
  }

  lemma {:induction false} IllegalStays(log: seq<Event>)
    ensures PhaseAfter(Illegal, log) == Illegal
    decreases |log|
  {
    if log != [] {
      IllegalStays(log[1..]);
    }
  }

  /**
  In every run each transform is fed a keyframe first, keyframes only ever
  reach a transform built for their own SPS and PPS, and after a failed feed
  nothing is fed until a new transform starts at a keyframe: no prefix of the
  log is illegal.
  */
  lemma EveryRunLegal(calls: seq<Call>, n: nat)
    requires KeysHaveSps(calls) && n <= |RunAll(INITIAL, calls)|
    ensures PhaseAfter(Off, RunAll(INITIAL, calls)[..n]) != Illegal
  {
    var log := RunAll(INITIAL, calls);
    RunKeeps(INITIAL, calls);
    assert log[..n] + log[n..] == log;
    PhaseAppend(Off, log[..n], log[n..]);
    IllegalStays(log[n..]);
  }

  // ----- Keyframe requests --------------------------------------------------------------

  function AskTimes(log: seq<Event>): seq<int> {
    if log == [] then []
    else (match log[0] case KeyframeAsked(now) => [now] case _ => []) + AskTimes(log[1..])
  }

  lemma {:induction false} AskTimesAppend(a: seq<Event>, b: seq<Event>)
    ensures AskTimes(a + b) == AskTimes(a) + AskTimes(b)
  {
    if a == [] {
      assert a + b == b;
    } else {
      assert (a + b)[1..] == a[1..] + b;
      AskTimesAppend(a[1..], b);
      ConcatAssoc(match a[0] case KeyframeAsked(now) => [now] case _ => [], AskTimes(a[1..]), AskTimes(b));
    }
  }

  ghost predicate Apart(last: int, times: seq<int>, gap: int)
    decreases |times|
  {
    times == [] || (times[0] - last >= gap && Apart(times[0], times[1..], gap))
  }

  /** What a step asked for: nothing, or one request the state remembers. */
  ghost predicate AskedOnce(d: State, d': State, log: seq<Event>) {
    || (AskTimes(log) == [] && d'.lastKfRequestMs == d.lastKfRequestMs)
    || (AskTimes(log) == [d'.lastKfRequestMs] && d'.lastKfRequestMs - d.lastKfRequestMs >= KEYFRAME_REQUEST_GAP_MS)
  }

  lemma {:induction false} DrainAsksNothing(d: State, outputs: seq<Output>)
    ensures AskTimes(Drain(d, outputs).2) == []
    decreases |outputs|
  {
    if outputs != [] {
      if outputs[0].Decoded? {
        var (d', shown) := PublishStep(d, outputs[0].picture);
        DrainAsksNothing(d', outputs[1..]);
        AskTimesAppend(shown, Drain(d', outputs[1..]).2);
        assert |shown| == 1 ==> shown[1..] == [];
        assert |shown| == 2 ==> shown[1..][1..] == [];
      } else if outputs[0].StreamChange? {
        DrainAsksNothing(d, outputs[1..]);
      }
    }
  }

  lemma TakeAsksNothing(d: State, s: VideoSample, o: Oracle)
    ensures AskTimes(Take(d, s, o).2) == []
  {
    var e := d.(times := d.times + [(s.captureMs, s.arrivalMs)]);
    DrainAsksNothing(e, o.outputs);
    AskTimesAppend([Taken(s.captureMs, s.arrivalMs)], Drain(e, o.outputs).2);
    assert [Taken(s.captureMs, s.arrivalMs)][1..] == [];
  }

  lemma FeedAsksNothing(d: State, s: VideoSample, o: Oracle)
    ensures AskTimes(FeedStep(d, s, o).2) == []
  {
    assert AskTimes([Fed(s)]) == [] by { assert [Fed(s)][1..] == []; }
    DrainAsksNothing(d, o.drained);
    var (ok, e, drained) := Drain(d, o.drained);
    TakeAsksNothing(e, s, o);
    TakeAsksNothing(d, s, o);
    AskTimesAppend([Fed(s)], drained);
    AskTimesAppend(drained, Take(e, s, o).2);
    AskTimesAppend([Fed(s)], drained + Take(e, s, o).2);
    AskTimesAppend([Fed(s)], Take(d, s, o).2);
  }

  lemma AskAsksOnce(d: State, now: int)
    ensures AskedOnce(d, Ask(d, now).0, Ask(d, now).1)
  {
    assert [KeyframeAsked(now)][1..] == [];
  }

  lemma FeedOrResetAsksOnce(d: State, s: VideoSample, size: Option<Sps.Dimensions>, o: Oracle)
    ensures AskedOnce(d, FeedOrReset(d, s, size, o).0, FeedOrReset(d, s, size, o).1)
  {
    var v := WithVisible(d, s, size);
    var (ok, d', fed) := FeedStep(v, s, o);
    FeedAsksNothing(v, s, o);
    FeedRemembers(v, s, o);
    if !ok {
      var (d'', asked) := Ask(ResetOf(d'), o.now);
      AskAsksOnce(ResetOf(d'), o.now);
      AskTimesAppend(fed, [FeedFailed, Reset] + asked);
      AskTimesAppend([FeedFailed, Reset], asked);
      assert [FeedFailed, Reset][1..] == [Reset] && [Reset][1..] == [];
    }
  }

  lemma FeedRemembers(d: State, s: VideoSample, o: Oracle)
    ensures FeedStep(d, s, o).1.lastKfRequestMs == d.lastKfRequestMs
  {
    DrainKeeps(d, o.drained);
    var e := Drain(d, o.drained).1;
    DrainKeeps(e.(times := e.times + [(s.captureMs, s.arrivalMs)]), o.outputs);
    DrainKeeps(d.(times := d.times + [(s.captureMs, s.arrivalMs)]), o.outputs);
  }

  lemma BuildAndFeedAsksOnce(d: State, s: VideoSample, size: Option<Sps.Dimensions>, o: Oracle)
    ensures AskedOnce(d, BuildAndFeed(d, s, size, o).0, BuildAndFeed(d, s, size, o).1)
  {
    AskAsksOnce(d, o.now);
    if o.setup {
      var b := d.(ready := true, lastSps := s.sps, lastPps := s.pps);
      FeedOrResetAsksOnce(b, s, size, o);
      AskTimesAppend([Built(s.sps, s.pps)], FeedOrReset(b, s, size, o).1);
      assert [Built(s.sps, s.pps)][1..] == [];
    }
  }

  lemma SubmitAsksOnce(d: State, s: VideoSample, size: Option<Sps.Dimensions>, o: Oracle)
    ensures AskedOnce(d, SubmitStep(d, s, size, o).0, SubmitStep(d, s, size, o).1)
  {
    AskAsksOnce(d, o.now);
    BuildAndFeedAsksOnce(d, s, size, o);
    BuildAndFeedAsksOnce(ResetOf(d), s, size, o);
    FeedOrResetAsksOnce(d, s, size, o);
    AskTimesAppend([Reset], BuildAndFeed(ResetOf(d), s, size, o).1);
    assert [Decoder.Event.Reset][1..] == [];
  }

  /** Over every run this decoder's keyframe requests are at least 500 ms apart. */
  lemma {:induction false} RequestsApart(d: State, calls: seq<Call>)
    ensures Apart(d.lastKfRequestMs, AskTimes(RunAll(d, calls)), KEYFRAME_REQUEST_GAP_MS)
    decreases |calls|
  {
    if calls != [] {
      var (d', events) := Step(d, calls[0]);
      var more := AskTimes(RunAll(d', calls[1..]));
      SubmitAsksOnce(d, calls[0].sample, calls[0].size, calls[0].oracle);
      AskTimesAppend(events, RunAll(d', calls[1..]));
      RequestsApart(d', calls[1..]);
      if AskTimes(events) == [] {
        assert [] + more == more;
      } else {
        assert ([d'.lastKfRequestMs] + more)[1..] == more;
      }
    }
  }
}
