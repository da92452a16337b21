/**
What the decoder shows (video/h264_decoder.cpp): every complete picture the
transform gives, in order, cropped to the size its stream announced.
*/
module DecoderShows {
  import opened Bytes
  import opened Decoder
  import opened DecoderRecovery
  import Sps

  // ----- Which pictures -------------------------------------------------------------------------

  predicate Complete(p: Picture) { p.buffer && p.complete && p.width > 0 && p.height > 0 }

  /** The coded sizes of the complete pictures before the drain ends. */
  function CompleteSizes(outputs: seq<Output>): seq<(int, int)> {
    if outputs == [] || !MoreBehind(outputs[0]) then []
    else
      (if outputs[0].Decoded? && Complete(outputs[0].picture)
       then [(outputs[0].picture.width, outputs[0].picture.height)] else []) + CompleteSizes(outputs[1..])
  }

  /** The coded sizes of the frames a log shows. */
  function ShownSizes(log: seq<Event>): seq<(int, int)> {
    if log == [] then []
    else (if log[0].Published? then [(log[0].frame.width, log[0].frame.height)] else []) + ShownSizes(log[1..])
  }

  lemma {:induction false} ShownAppend(a: seq<Event>, b: seq<Event>)
    ensures ShownSizes(a + b) == ShownSizes(a) + ShownSizes(b)
  {
    if a == [] {
      assert a + b == b;
    } else {
      assert (a + b)[0] == a[0] && (a + b)[1..] == a[1..] + b;
      ShownAppend(a[1..], b);
      ConcatAssoc(if a[0].Published? then [(a[0].frame.width, a[0].frame.height)] else [], ShownSizes(a[1..]),
                  ShownSizes(b));
    }
  }

  lemma {:induction false} NothingShown(log: seq<Event>)
    requires forall k | 0 <= k < |log| :: !log[k].Published?
    ensures ShownSizes(log) == []
  {
    if log != [] {
      NothingShown(log[1..]);
    }
  }

  lemma PublishShows(d: State, p: Picture)
    ensures ShownSizes(PublishStep(d, p).1) == if Complete(p) then [(p.width, p.height)] else []
  {
    var log := PublishStep(d, p).1;
    var shown := log[1..];
    assert log == [Emitted(p)] + shown;
    ShownAppend([Emitted(p)], shown);
    NothingShown([Emitted(p)]);
    if Complete(p) {
      assert shown == [shown[0]] && shown[1..] == [];
    }
  }

  lemma {:induction false} DrainShows(d: State, outputs: seq<Output>)
    ensures ShownSizes(Drain(d, outputs).2) == CompleteSizes(outputs)
    decreases |outputs|
  {
    if outputs != [] {
      if outputs[0].Decoded? {
        var (d', shown) := PublishStep(d, outputs[0].picture);
        PublishShows(d, outputs[0].picture);
        DrainShows(d', outputs[1..]);
        ShownAppend(shown, Drain(d', outputs[1..]).2);
      } else if MoreBehind(outputs[0]) {
        DrainShows(d, outputs[1..]);
        assert [] + CompleteSizes(outputs[1..]) == CompleteSizes(outputs[1..]);
      }
    }
  }

  /** The pictures of one Submit: those of the drain behind a refusal, then those of the drain behind the unit. */
  ghost function OracleSizes(o: Oracle): seq<(int, int)> {
    (if o.alloc && o.input == NotAccepting then CompleteSizes(o.drained) else []) +
    (if UnitAccepted(o) then CompleteSizes(o.outputs) else [])
  }

  lemma TakeShows(d: State, s: VideoSample, o: Oracle)
    ensures ShownSizes(Take(d, s, o).2) == CompleteSizes(o.outputs)
  {
    var e := d.(times := d.times + [(s.captureMs, s.arrivalMs)]);
    NothingShown([Taken(s.captureMs, s.arrivalMs)]);
    ShownAppend([Taken(s.captureMs, s.arrivalMs)], Drain(e, o.outputs).2);
    DrainShows(e, o.outputs);
  }

  lemma FeedShows(d: State, s: VideoSample, o: Oracle)
    ensures ShownSizes(FeedStep(d, s, o).2) == OracleSizes(o)
  {
    NothingShown([Fed(s)]);
    if o.alloc && o.input == NotAccepting {
      var (ok, d', drained) := Drain(d, o.drained);
      DrainOkIff(d, o.drained);
      DrainShows(d, o.drained);
      if ok && o.retry == Accepted {
        TakeShows(d', s, o);
        ShownAppend(drained, Take(d', s, o).2);
        ShownAppend([Fed(s)], drained + Take(d', s, o).2);
      } else {
        ShownAppend([Fed(s)], drained);
      }
    } else if o.alloc && o.input == Accepted {
      TakeShows(d, s, o);
      ShownAppend([Fed(s)], Take(d, s, o).2);
    }
  }

  lemma FeedOrResetShows(d: State, s: VideoSample, size: Option<Sps.Dimensions>, o: Oracle)
    ensures ShownSizes(FeedOrReset(d, s, size, o).1) == OracleSizes(o)
  {
    var e := WithVisible(d, s, size);
    var (ok, d', fed) := FeedStep(e, s, o);
    FeedShows(e, s, o);
    if !ok {
      var rest := [FeedFailed, Reset] + Ask(ResetOf(d'), o.now).1;
      NothingShown(rest);
      ShownAppend(fed, rest);
    }
  }

  lemma BuildShows(d: State, s: VideoSample, size: Option<Sps.Dimensions>, o: Oracle)
    ensures ShownSizes(BuildAndFeed(d, s, size, o).1) == if o.setup then OracleSizes(o) else []
  {
    if o.setup {
      var built := d.(ready := true, lastSps := s.sps, lastPps := s.pps);
      NothingShown([Built(s.sps, s.pps)]);
      ShownAppend([Built(s.sps, s.pps)], FeedOrReset(built, s, size, o).1);
      FeedOrResetShows(built, s, size, o);
    } else {
      NothingShown(Ask(d, o.now).1);
    }
  }

  /** A Submit that feeds shows every complete picture the transform gave, in order, and no Submit shows others. */
  lemma SubmitShows(d: State, c: Call)
    ensures ShownSizes(Step(d, c).1) == if Feeds(d, c) then OracleSizes(c.oracle) else []
  {
    var s, size, o := c.sample, c.size, c.oracle;
    if s.annexb != [] {
      if !d.ready {
        BuildShows(d, s, size, o);
        NothingShown(Ask(d, o.now).1);
      } else if Rebuilds(d, s) {
        NothingShown([Reset]);
        BuildShows(ResetOf(d), s, size, o);
        ShownAppend([Reset], BuildAndFeed(ResetOf(d), s, size, o).1);
      } else {
        FeedOrResetShows(d, s, size, o);
      }
    }
  }

  // ----- How they are cropped --------------------------------------------------------------------

  /** On each axis the shown part is the visible size when that is positive and fits, and all of it otherwise. */
  predicate CroppedTo(f: Shown, width: int, height: int) {
    && f.width - f.cropRight == (if 0 < width <= f.width then width else f.width)
    && f.height - f.cropBottom == (if 0 < height <= f.height then height else f.height)
  }

  ghost predicate AllCropped(log: seq<Event>, width: int, height: int) {
    forall k | 0 <= k < |log| && log[k].Published? :: CroppedTo(log[k].frame, width, height)
  }

  lemma CroppedAppend(a: seq<Event>, b: seq<Event>, width: int, height: int)
    requires AllCropped(a, width, height) && AllCropped(b, width, height)
    ensures AllCropped(a + b, width, height)
  {
    forall k | 0 <= k < |a + b| && (a + b)[k].Published?
      ensures CroppedTo((a + b)[k].frame, width, height)
    {
      assert (a + b)[k] == if k < |a| then a[k] else b[k - |a|];
    }
  }

  ghost predicate SameVisible(d: State, e: State) { d.visibleW == e.visibleW && d.visibleH == e.visibleH }

  lemma PublishCropped(d: State, p: Picture)
    ensures AllCropped(PublishStep(d, p).1, d.visibleW, d.visibleH) && SameVisible(d, PublishStep(d, p).0)
  {
  }

  lemma {:induction false} DrainCropped(d: State, outputs: seq<Output>)
    ensures AllCropped(Drain(d, outputs).2, d.visibleW, d.visibleH) && SameVisible(d, Drain(d, outputs).1)
    decreases |outputs|
  {
    if outputs != [] {
      if outputs[0].Decoded? {
        var (d', shown) := PublishStep(d, outputs[0].picture);
        PublishCropped(d, outputs[0].picture);
        DrainCropped(d', outputs[1..]);
        CroppedAppend(shown, Drain(d', outputs[1..]).2, d.visibleW, d.visibleH);
      } else if MoreBehind(outputs[0]) {
        DrainCropped(d, outputs[1..]);
      }
    }
  }

  lemma TakeCropped(d: State, s: VideoSample, o: Oracle)
    ensures AllCropped(Take(d, s, o).2, d.visibleW, d.visibleH) && SameVisible(d, Take(d, s, o).1)
  {
    var e := d.(times := d.times + [(s.captureMs, s.arrivalMs)]);
    DrainCropped(e, o.outputs);
    CroppedAppend([Taken(s.captureMs, s.arrivalMs)], Drain(e, o.outputs).2, d.visibleW, d.visibleH);
  }

  lemma FeedCropped(d: State, s: VideoSample, o: Oracle)
    ensures AllCropped(FeedStep(d, s, o).2, d.visibleW, d.visibleH) && SameVisible(d, FeedStep(d, s, o).1)
  {
    if o.alloc && o.input == NotAccepting {
      var (ok, d', drained) := Drain(d, o.drained);
      DrainCropped(d, o.drained);
      if ok && o.retry == Accepted {
        TakeCropped(d', s, o);
        CroppedAppend(drained, Take(d', s, o).2, d.visibleW, d.visibleH);
        CroppedAppend([Fed(s)], drained + Take(d', s, o).2, d.visibleW, d.visibleH);
      } else {
        CroppedAppend([Fed(s)], drained, d.visibleW, d.visibleH);
      }
    } else if o.alloc && o.input == Accepted {
      TakeCropped(d, s, o);
      CroppedAppend([Fed(s)], Take(d, s, o).2, d.visibleW, d.visibleH);
    }
  }

  /** The size a sample announces: that of a keyframe's SPS when it could be parsed. */
  function Announced(s: VideoSample, size: Option<Sps.Dimensions>, before: (int, int)): (int, int) {
    if s.isKeyframe && s.sps != [] && size.Some? then (size.value.width, size.value.height) else before
  }

  lemma FeedOrResetCropped(d: State, s: VideoSample, size: Option<Sps.Dimensions>, o: Oracle)
    ensures var (d', log) := FeedOrReset(d, s, size, o);
            var v := Announced(s, size, (d.visibleW, d.visibleH));
            AllCropped(log, v.0, v.1) && (d'.visibleW, d'.visibleH) == if Fails(o) then (0, 0) else v
  {
    var e := WithVisible(d, s, size);
    var (ok, d', fed) := FeedStep(e, s, o);
    FeedOkIff(e, s, o);
    FeedCropped(e, s, o);
    if !ok {
      CroppedAppend(fed, [FeedFailed, Reset] + Ask(ResetOf(d'), o.now).1, e.visibleW, e.visibleH);
    }
  }

  /** The visible size the frames of this Submit are cropped to: a new transform starts without one. */
  function VisibleIn(d: State, c: Call): (int, int) {
    Announced(c.sample, c.size, if d.ready && Rebuilds(d, c.sample) then (0, 0) else (d.visibleW, d.visibleH))
  }

  /** Every frame shown is cropped to the last size its transform's keyframes announced. */
  lemma SubmitCropped(d: State, c: Call)
    ensures var (d', log) := Step(d, c);
            && AllCropped(log, VisibleIn(d, c).0, VisibleIn(d, c).1)
            && (Works(d, c) ==> (d'.visibleW, d'.visibleH) == VisibleIn(d, c))
            && (c.sample.annexb != [] && d.ready && !Works(d, c) ==> d'.visibleW == d'.visibleH == 0)
  {
    var s, size, o := c.sample, c.size, c.oracle;
    if s.annexb != [] {
      if Rebuilds(d, s) {
        var e := (if d.ready then ResetOf(d) else d).(ready := true, lastSps := s.sps, lastPps := s.pps);
        FeedOrResetCropped(e, s, size, o);
      } else if d.ready {
        FeedOrResetCropped(d, s, size, o);
      }
    }
  }

  // ----- The timestamp queue ----------------------------------------------------------------------

  /** A picture takes the oldest times, and never more than 64 stay queued behind it. */
  lemma StampTaken(d: State, p: Picture)
    requires p.buffer
    ensures var (d', log) := PublishStep(d, p);
            && |d'.times| <= 64
            && (0 < |d.times| <= 65 ==> d'.times == d.times[1..])
            && (|d.times| > 65 ==> d'.times == [])
            && forall k | 0 <= k < |log| && log[k].Published? ::
                 (log[k].frame.captureMs, log[k].frame.arrivalMs) == if d.times == [] then (-1, 0) else d.times[0]
  {
  }
}
