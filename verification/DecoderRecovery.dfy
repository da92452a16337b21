/**
What one Submit does, told by the transform's answers alone
(video/h264_decoder.cpp): when the transform is built and fed, which failures
make it unusable, when a keyframe is asked for, and what is shown.
*/
module DecoderRecovery {
  import opened Bytes
  import opened Decoder
  import Sps

  // ----- The transform's answers ----------------------------------------------------------------

  /** An answer of ProcessOutput behind which there may be more. */
  predicate MoreBehind(o: Output) { o.Decoded? || (o.StreamChange? && o.nv12) }

  predicate Fatal(o: Output) { o.OutputFailed? || (o.StreamChange? && !o.nv12) }

  /** The drain's ending answer is a failure or a format that cannot be selected. */
  ghost predicate DrainFails(outputs: seq<Output>) {
    exists k | 0 <= k < |outputs| :: Fatal(outputs[k]) && forall j | 0 <= j < k :: MoreBehind(outputs[j])
  }

  /** The unit was accepted, at once or behind a drain that helped. */
  ghost predicate UnitAccepted(o: Oracle) {
    o.alloc && (o.input == Accepted || (o.input == NotAccepting && !DrainFails(o.drained) && o.retry == Accepted))
  }

  /** Allocation, the last ProcessInput or a drain failed. */
  ghost predicate Fails(o: Oracle) {
    || !o.alloc
    || o.input == InputFailed
    || (o.input == NotAccepting && (DrainFails(o.drained) || o.retry != Accepted))
    || DrainFails(o.outputs)
  }

  /** A keyframe builds a new transform when there is none or its parameter sets are other ones. */
  predicate Rebuilds(d: State, s: VideoSample) {
    s.isKeyframe && (!d.ready || (s.sps != [] && s.sps != d.lastSps) || (s.pps != [] && s.pps != d.lastPps))
  }

  predicate Feeds(d: State, c: Call) {
    c.sample.annexb != [] && if Rebuilds(d, c.sample) then c.oracle.setup else d.ready
  }

  ghost predicate Works(d: State, c: Call) { Feeds(d, c) && !Fails(c.oracle) }

  lemma DrainFailsFirst(outputs: seq<Output>)
    requires outputs != []
    ensures DrainFails(outputs) <==> Fatal(outputs[0]) || (MoreBehind(outputs[0]) && DrainFails(outputs[1..]))
  {
    if MoreBehind(outputs[0]) && DrainFails(outputs[1..]) {
      var k :| 0 <= k < |outputs| - 1 && Fatal(outputs[1..][k]) && forall j | 0 <= j < k :: MoreBehind(outputs[1..][j]);
      assert Fatal(outputs[k + 1]);
      forall j | 0 <= j < k + 1
        ensures MoreBehind(outputs[j])
      {
        assert j > 0 ==> outputs[j] == outputs[1..][j - 1];
      }
    }
    if DrainFails(outputs) && !Fatal(outputs[0]) {
      var k :| 0 <= k < |outputs| && Fatal(outputs[k]) && forall j | 0 <= j < k :: MoreBehind(outputs[j]);
      assert Fatal(outputs[1..][k - 1]);
    }
  }

  lemma {:induction false} DrainOkIff(d: State, outputs: seq<Output>)
    ensures Drain(d, outputs).0 <==> !DrainFails(outputs)
    ensures Drain(d, outputs).1.ready == d.ready
    decreases |outputs|
  {
    if outputs != [] {
      DrainFailsFirst(outputs);
      if outputs[0].Decoded? {
        DrainOkIff(PublishStep(d, outputs[0].picture).0, outputs[1..]);
      } else if MoreBehind(outputs[0]) {
        DrainOkIff(d, outputs[1..]);
      }
    }
  }

  lemma TakeOkIff(d: State, s: VideoSample, o: Oracle)
    ensures Take(d, s, o).0 <==> !DrainFails(o.outputs)
    ensures Take(d, s, o).1.ready == d.ready
  {
    DrainOkIff(d.(times := d.times + [(s.captureMs, s.arrivalMs)]), o.outputs);
  }

  lemma FeedOkIff(d: State, s: VideoSample, o: Oracle)
    ensures FeedStep(d, s, o).0 <==> !Fails(o)
    ensures FeedStep(d, s, o).1.ready == d.ready
  {
    DrainOkIff(d, o.drained);
    TakeOkIff(d, s, o);
    TakeOkIff(Drain(d, o.drained).1, s, o);
  }

  lemma FeedOrResetReady(d: State, s: VideoSample, size: Option<Sps.Dimensions>, o: Oracle)
    requires d.ready
    ensures FeedOrReset(d, s, size, o).0.ready <==> !Fails(o)
  {
    FeedOkIff(WithVisible(d, s, size), s, o);
  }

  /** After a Submit that is given anything, there is a transform if and only if one was fed and nothing failed. */
  lemma ReadyIff(d: State, c: Call)
    requires c.sample.annexb != []
    ensures Step(d, c).0.ready <==> Works(d, c)
  {
    var s, size, o := c.sample, c.size, c.oracle;
    if Rebuilds(d, s) {
      var built := if d.ready then ResetOf(d) else d;
      FeedOrResetReady(built.(ready := true, lastSps := s.sps, lastPps := s.pps), s, size, o);
    } else if d.ready {
      FeedOrResetReady(d, s, size, o);
    }
  }

  lemma NothingIgnored(d: State, c: Call)
    requires c.sample.annexb == []
    ensures Step(d, c) == (d, [])
  {
  }

  // ----- What is logged -------------------------------------------------------------------------

  /** Which kinds of events a log holds. */
  datatype Summary = Summary(built: bool, reset: bool, fed: bool, accepted: bool, asked: bool)

  const NOTHING := Summary(false, false, false, false, false)

  function Either(a: Summary, b: Summary): Summary {
    Summary(a.built || b.built, a.reset || b.reset, a.fed || b.fed, a.accepted || b.accepted, a.asked || b.asked)
  }

  /** The log holds exactly these kinds, each event about the sample and the clock of this Submit. */
  ghost predicate Sums(log: seq<Event>, s: VideoSample, now: int, m: Summary) {
    && (m.built <==> Built(s.sps, s.pps) in log)
    && (m.reset <==> Reset in log)
    && (m.fed <==> Fed(s) in log)
    && (m.accepted <==> Taken(s.captureMs, s.arrivalMs) in log)
    && (m.asked <==> KeyframeAsked(now) in log)
    && forall k | 0 <= k < |log| :: About(log[k], s, now)
  }

  predicate About(e: Event, s: VideoSample, now: int) {
    && (e.Built? ==> e == Built(s.sps, s.pps))
    && (e.Fed? ==> e == Fed(s))
    && (e.Taken? ==> e == Taken(s.captureMs, s.arrivalMs))
    && (e.KeyframeAsked? ==> e == KeyframeAsked(now))
  }

  lemma SumsAppend(a: seq<Event>, b: seq<Event>, s: VideoSample, now: int, m: Summary, n: Summary)
    requires Sums(a, s, now, m) && Sums(b, s, now, n)
    ensures Sums(a + b, s, now, Either(m, n))
  {
    forall k | 0 <= k < |a + b|
      ensures About((a + b)[k], s, now)
    {
      assert (a + b)[k] == if k < |a| then a[k] else b[k - |a|];
    }
  }

  lemma SumsOne(e: Event, s: VideoSample, now: int)
    requires About(e, s, now)
    ensures Sums([e], s, now, Summary(e.Built?, e.Reset?, e.Fed?, e.Taken?, e.KeyframeAsked?))
  {
    assert [e][0] == e;
  }

  lemma PublishSums(d: State, p: Picture, s: VideoSample, now: int)
    ensures Sums(PublishStep(d, p).1, s, now, NOTHING)
  {
  }

  lemma {:induction false} DrainSums(d: State, outputs: seq<Output>, s: VideoSample, now: int)
    ensures Sums(Drain(d, outputs).2, s, now, NOTHING)
    ensures Drain(d, outputs).1.lastKfRequestMs == d.lastKfRequestMs
    decreases |outputs|
  {
    if outputs != [] {
      if outputs[0].Decoded? {
        var (d', shown) := PublishStep(d, outputs[0].picture);
        PublishSums(d, outputs[0].picture, s, now);
        DrainSums(d', outputs[1..], s, now);
        SumsAppend(shown, Drain(d', outputs[1..]).2, s, now, NOTHING, NOTHING);
      } else if MoreBehind(outputs[0]) {
        DrainSums(d, outputs[1..], s, now);
      }
    }
  }

  lemma TakeSums(d: State, s: VideoSample, o: Oracle)
    ensures Sums(Take(d, s, o).2, s, o.now, NOTHING.(accepted := true))
    ensures Take(d, s, o).1.lastKfRequestMs == d.lastKfRequestMs
  {
    var e := d.(times := d.times + [(s.captureMs, s.arrivalMs)]);
    SumsOne(Taken(s.captureMs, s.arrivalMs), s, o.now);
    DrainSums(e, o.outputs, s, o.now);
    SumsAppend([Taken(s.captureMs, s.arrivalMs)], Drain(e, o.outputs).2, s, o.now,
               NOTHING.(accepted := true), NOTHING);
  }

  lemma FeedSums(d: State, s: VideoSample, o: Oracle)
    ensures Sums(FeedStep(d, s, o).2, s, o.now, NOTHING.(fed := o.alloc, accepted := UnitAccepted(o)))
    ensures FeedStep(d, s, o).1.lastKfRequestMs == d.lastKfRequestMs
  {
    var fed, taken := NOTHING.(fed := true), NOTHING.(accepted := true);
    SumsOne(Fed(s), s, o.now);
    if o.alloc && o.input == NotAccepting {
      var (ok, d', drained) := Drain(d, o.drained);
      DrainOkIff(d, o.drained);
      DrainSums(d, o.drained, s, o.now);
      if ok && o.retry == Accepted {
        TakeSums(d', s, o);
        SumsAppend(drained, Take(d', s, o).2, s, o.now, NOTHING, taken);
        SumsAppend([Fed(s)], drained + Take(d', s, o).2, s, o.now, fed, taken);
      } else {
        SumsAppend([Fed(s)], drained, s, o.now, fed, NOTHING);
      }
    } else if o.alloc && o.input == Accepted {
      TakeSums(d, s, o);
      SumsAppend([Fed(s)], Take(d, s, o).2, s, o.now, fed, taken);
    }
  }

  /** The last request is at least 500 ms ago. */
  predicate MayAsk(d: State, now: int) { now - d.lastKfRequestMs >= 500 }

  lemma AskSums(d: State, s: VideoSample, now: int)
    ensures Sums(Ask(d, now).1, s, now, NOTHING.(asked := MayAsk(d, now)))
    ensures Ask(d, now).0.lastKfRequestMs == if MayAsk(d, now) then now else d.lastKfRequestMs
  {
  }

  function FeedSummary(o: Oracle, accepted: bool, fails: bool, asks: bool): Summary {
    Summary(false, fails, o.alloc, accepted, fails && asks)
  }

  lemma FeedOrResetSums(d: State, s: VideoSample, size: Option<Sps.Dimensions>, o: Oracle)
    ensures var (d', log) := FeedOrReset(d, s, size, o);
            && Sums(log, s, o.now, FeedSummary(o, UnitAccepted(o), Fails(o), MayAsk(d, o.now)))
            && d'.lastKfRequestMs == if Fails(o) && MayAsk(d, o.now) then o.now else d.lastKfRequestMs
  {
    var e := WithVisible(d, s, size);
    var (ok, d', fed) := FeedStep(e, s, o);
    FeedOkIff(e, s, o);
    FeedSums(e, s, o);
    if !ok {
      var asked := Ask(ResetOf(d'), o.now).1;
      AskSums(ResetOf(d'), s, o.now);
      SumsOne(FeedFailed, s, o.now);
      SumsOne(Reset, s, o.now);
      SumsAppend([FeedFailed], [Reset], s, o.now, NOTHING, NOTHING.(reset := true));
      assert [FeedFailed] + [Reset] == [FeedFailed, Reset];
      SumsAppend([FeedFailed, Reset], asked, s, o.now, NOTHING.(reset := true), NOTHING.(asked := MayAsk(d, o.now)));
      SumsAppend(fed, [FeedFailed, Reset] + asked, s, o.now, NOTHING.(fed := o.alloc, accepted := UnitAccepted(o)),
                 NOTHING.(reset := true, asked := MayAsk(d, o.now)));
    }
  }

  lemma BuildSums(d: State, s: VideoSample, size: Option<Sps.Dimensions>, o: Oracle)
    ensures var (d', log) := BuildAndFeed(d, s, size, o);
            var fails, asks := Fails(o), MayAsk(d, o.now);
            && (o.setup ==> Sums(log, s, o.now, FeedSummary(o, UnitAccepted(o), fails, asks).(built := true)))
            && (!o.setup ==> Sums(log, s, o.now, NOTHING.(asked := MayAsk(d, o.now))))
            && d'.lastKfRequestMs ==
               if (!o.setup || fails) && MayAsk(d, o.now) then o.now else d.lastKfRequestMs
  {
    if o.setup {
      var built := d.(ready := true, lastSps := s.sps, lastPps := s.pps);
      SumsOne(Built(s.sps, s.pps), s, o.now);
      FeedOrResetSums(built, s, size, o);
      SumsAppend([Built(s.sps, s.pps)], FeedOrReset(built, s, size, o).1, s, o.now, NOTHING.(built := true),
                 FeedSummary(o, UnitAccepted(o), Fails(o), MayAsk(d, o.now)));
    } else {
      AskSums(d, s, o.now);
    }
  }

  /**
  Everything a Submit logs, from the transform's answers: a transform is built
  for a keyframe that needs one, the sample is fed exactly when there is a
  transform for it, any failure resets it, and a keyframe is asked for whenever
  no working transform is left and the last request is 500 ms ago.
  */
  lemma SubmitSums(d: State, c: Call)
    requires c.sample.annexb != []
    ensures var (d', log) := Step(d, c);
            var s, o := c.sample, c.oracle;
            var asks := !Works(d, c) && MayAsk(d, o.now);
            && Sums(log, s, o.now,
                    Summary(Rebuilds(d, s) && o.setup, (d.ready && Rebuilds(d, s)) || (Feeds(d, c) && Fails(o)),
                            Feeds(d, c) && o.alloc, Feeds(d, c) && UnitAccepted(o), asks))
            && d'.lastKfRequestMs == if asks then o.now else d.lastKfRequestMs
  {
    var s, size, o := c.sample, c.size, c.oracle;
    if !d.ready {
      BuildSums(d, s, size, o);
      AskSums(d, s, o.now);
    } else if Rebuilds(d, s) {
      SumsOne(Reset, s, o.now);
      BuildSums(ResetOf(d), s, size, o);
      var m := if o.setup
               then FeedSummary(o, UnitAccepted(o), Fails(o), MayAsk(d, o.now)).(built := true)
               else NOTHING.(asked := MayAsk(d, o.now));
      SumsAppend([Reset], BuildAndFeed(ResetOf(d), s, size, o).1, s, o.now, NOTHING.(reset := true), m);
    } else {
      FeedOrResetSums(d, s, size, o);
    }
  }

  // ----- Over runs ------------------------------------------------------------------------------

  function After(d: State, calls: seq<Call>): State
    decreases |calls|
  {
    if calls == [] then d else After(Step(d, calls[0]).0, calls[1..])
  }

  /** The first unit fed is a keyframe behind a transform built for its parameter sets. */
  ghost predicate RebuiltFirst(log: seq<Event>) {
    forall k | FirstFed(log, k) :: RebuiltBefore(log, k)
  }

  ghost predicate FirstFed(log: seq<Event>, k: int) {
    0 <= k < |log| && log[k].Fed? && forall j | 0 <= j < k :: !log[j].Fed?
  }

  /** The unit fed at k is a keyframe, and its transform was built before. */
  ghost predicate RebuiltBefore(log: seq<Event>, k: int)
    requires 0 <= k < |log| && log[k].Fed?
  {
    log[k].sample.isKeyframe && Built(log[k].sample.sps, log[k].sample.pps) in log[..k]
  }

  ghost predicate NoneFed(log: seq<Event>) { forall k | 0 <= k < |log| :: !log[k].Fed? }

  lemma RebuiltLater(a: seq<Event>, b: seq<Event>)
    requires NoneFed(a) && RebuiltFirst(b)
    ensures RebuiltFirst(a + b)
  {
    var log := a + b;
    forall k | FirstFed(log, k)
      ensures RebuiltBefore(log, k)
    {
      assert k >= |a| && log[k] == b[k - |a|];
      assert log[..k] == a + b[..k - |a|];
      forall j | 0 <= j < k - |a|
        ensures !b[j].Fed?
      {
        assert log[|a| + j] == b[j];
      }
      assert FirstFed(b, k - |a|);
    }
  }

  lemma RebuiltAtOnce(e: Event, f: Event, b: seq<Event>)
    requires f.Fed? && f.sample.isKeyframe && e == Built(f.sample.sps, f.sample.pps)
    ensures RebuiltFirst([e] + ([f] + b))
  {
    var log := [e] + ([f] + b);
    assert log[0] == e && log[1] == f;
    forall k | FirstFed(log, k)
      ensures RebuiltBefore(log, k)
    {
      assert k == 1;
      assert log[..k][0] == e;
    }
  }

  /** What a keyframe logs when it builds the first transform. */
  lemma BuildsFirst(d: State, c: Call) returns (rest: seq<Event>)
    requires !d.ready && c.sample.annexb != [] && c.sample.isKeyframe && c.oracle.setup
    ensures Step(d, c).1 == [Built(c.sample.sps, c.sample.pps)] + rest
    ensures c.oracle.alloc ==> rest != [] && rest[0] == Fed(c.sample)
  {
    rest := Step(d, c).1[1..];
  }

  lemma NoFedWithout(d: State, c: Call)
    requires c.sample.annexb == [] || !(Feeds(d, c) && c.oracle.alloc)
    ensures NoneFed(Step(d, c).1)
  {
    if c.sample.annexb != [] {
      SubmitSums(d, c);
      var log := Step(d, c).1;
      forall k | 0 <= k < |log|
        ensures !log[k].Fed?
      {
        assert About(log[k], c.sample, c.oracle.now);
      }
    }
  }

  /** Without a transform nothing is fed before a keyframe has built one. */
  lemma {:induction false} NextFedRebuilt(d: State, calls: seq<Call>)
    requires !d.ready
    ensures RebuiltFirst(RunAll(d, calls))
    decreases |calls|
  {
    if calls != [] {
      var c := calls[0];
      var log, later := Step(d, c).1, RunAll(Step(d, c).0, calls[1..]);
      if Feeds(d, c) && c.oracle.alloc {
        var rest := BuildsFirst(d, c);
        assert rest == [rest[0]] + rest[1..];
        ConcatAssoc([Built(c.sample.sps, c.sample.pps)], rest, later);
        ConcatAssoc([rest[0]], rest[1..], later);
        RebuiltAtOnce(Built(c.sample.sps, c.sample.pps), rest[0], rest[1..] + later);
      } else {
        NoFedWithout(d, c);
        if c.sample.annexb != [] {
          ReadyIff(d, c);
        }
        NextFedRebuilt(Step(d, c).0, calls[1..]);
        RebuiltLater(log, later);
      }
    }
  }

  lemma {:induction false} RunSplits(d: State, calls: seq<Call>, i: nat)
    requires i <= |calls|
    ensures RunAll(d, calls) == RunAll(d, calls[..i]) + RunAll(After(d, calls[..i]), calls[i..])
    ensures i < |calls| ==> After(d, calls[..i + 1]) == Step(After(d, calls[..i]), calls[i]).0
    decreases i
  {
    if i == 0 {
      assert calls[..0] == [] && calls[0..] == calls && [] + RunAll(d, calls) == RunAll(d, calls);
      if calls != [] {
        assert calls[..1][1..] == [];
      }
    } else {
      var d', first := Step(d, calls[0]).0, Step(d, calls[0]).1;
      assert calls[..i][1..] == calls[1..][..i - 1] && calls[i..] == calls[1..][i - 1..];
      assert i < |calls| ==> calls[..i + 1][1..] == calls[1..][..i];
      RunSplits(d', calls[1..], i - 1);
      ConcatAssoc(first, RunAll(d', calls[1..][..i - 1]), RunAll(After(d', calls[1..][..i - 1]), calls[i..]));
    }
  }

  /**
  In every run a Submit that feeds a transform and meets any failure leaves no
  transform behind, and the next unit fed after it, in whichever Submit, is a
  keyframe behind a newly built one.
  */
  lemma FailureRecovers(calls: seq<Call>, i: nat)
    requires i < |calls| && Feeds(After(INITIAL, calls[..i]), calls[i]) && Fails(calls[i].oracle)
    ensures !After(INITIAL, calls[..i + 1]).ready
    ensures var later := RunAll(After(INITIAL, calls[..i + 1]), calls[i + 1..]);
            RunAll(INITIAL, calls) == RunAll(INITIAL, calls[..i + 1]) + later && RebuiltFirst(later)
  {
    RunSplits(INITIAL, calls, i);
    RunSplits(INITIAL, calls, i + 1);
    ReadyIff(After(INITIAL, calls[..i]), calls[i]);
    NextFedRebuilt(After(INITIAL, calls[..i + 1]), calls[i + 1..]);
  }

  // ----- The parameter sets of a transform -----------------------------------------------------

  lemma {:induction false} DrainKeepsSets(d: State, outputs: seq<Output>)
    ensures var e := Drain(d, outputs).1; e.lastSps == d.lastSps && e.lastPps == d.lastPps
    decreases |outputs|
  {
    if outputs != [] {
      if outputs[0].Decoded? {
        DrainKeepsSets(PublishStep(d, outputs[0].picture).0, outputs[1..]);
      } else if MoreBehind(outputs[0]) {
        DrainKeepsSets(d, outputs[1..]);
      }
    }
  }

  lemma FeedKeepsSets(d: State, s: VideoSample, o: Oracle)
    ensures var e := FeedStep(d, s, o).1; e.lastSps == d.lastSps && e.lastPps == d.lastPps
  {
    var taken := (s.captureMs, s.arrivalMs);
    DrainKeepsSets(d, o.drained);
    DrainKeepsSets(d.(times := d.times + [taken]), o.outputs);
    var e := Drain(d, o.drained).1;
    DrainKeepsSets(e.(times := e.times + [taken]), o.outputs);
  }

  /** The remembered parameter sets are those the last transform was built for. */
  lemma SetsRemembered(d: State, c: Call)
    ensures var (d', s) := (Step(d, c).0, c.sample);
            if s.annexb != [] && Rebuilds(d, s) && c.oracle.setup then d'.lastSps == s.sps && d'.lastPps == s.pps
            else d'.lastSps == d.lastSps && d'.lastPps == d.lastPps
  {
    var s, o := c.sample, c.oracle;
    var built := (if d.ready then ResetOf(d) else d).(ready := true, lastSps := s.sps, lastPps := s.pps);
    FeedKeepsSets(WithVisible(d, s, c.size), s, o);
    FeedKeepsSets(WithVisible(built, s, c.size), s, o);
  }
}
