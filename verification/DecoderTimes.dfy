/** Which timestamps published frames carry (video/h264_decoder.cpp, the capture-time FIFO). */
module DecoderTimes {
  import opened Bytes
  import opened Decoder
  import DecoderSafety
  import Sps

  /** Stamps of the units accepted and of the frames published since the last reset. */
  datatype Track = Track(accepted: seq<Stamp>, published: seq<Stamp>)

  const START := Track([], [])

  function Note(t: Track, e: Event): Track {
    match e
    case Reset => START
    case Taken(captureMs, arrivalMs) => t.(accepted := t.accepted + [(captureMs, arrivalMs)])
    case Published(f) => t.(published := t.published + [(f.captureMs, f.arrivalMs)])
    case _ => t
  }

  function Follow(t: Track, log: seq<Event>): Track
    decreases |log|
  {
    if log == [] then t else Follow(Note(t, log[0]), log[1..])
  }

  lemma {:induction false} FollowAppend(t: Track, a: seq<Event>, b: seq<Event>)
    ensures Follow(t, a + b) == Follow(Follow(t, a), b)
    decreases |a|
  {
    if a == [] {
      assert a + b == b;
    } else {
      assert (a + b)[1..] == a[1..] + b;
      FollowAppend(Note(t, a[0]), a[1..], b);
    }
  }

  lemma FollowOne(t: Track, e: Event)
    ensures Follow(t, [e]) == Note(t, e)
  {
    assert [e][1..] == [];
  }

  /**
  A well-behaved transform: every emitted sample can be shown, there was an
  accepted unit for it, and at most 64 more units wait behind it.
  */
  predicate OrderlyAt(t: Track, e: Event) {
    e.Emitted? ==> CanShow(e.picture) && 0 < |t.accepted| - |t.published| <= DRIFT_LIMIT + 1
  }

  predicate Orderly(t: Track, log: seq<Event>)
    decreases |log|
  {
    log == [] || (OrderlyAt(t, log[0]) && Orderly(Note(t, log[0]), log[1..]))
  }

  lemma {:induction false} OrderlyAppend(t: Track, a: seq<Event>, b: seq<Event>)
    ensures Orderly(t, a + b) == (Orderly(t, a) && Orderly(Follow(t, a), b))
    decreases |a|
  {
    if a == [] {
      assert a + b == b;
    } else {
      assert (a + b)[1..] == a[1..] + b;
      OrderlyAppend(Note(t, a[0]), a[1..], b);
    }
  }

  /** A published frame carries the stamp of the oldest accepted unit that has no frame yet. */
  predicate CarriesAt(t: Track, e: Event) {
    e.Published? ==>
      |t.published| < |t.accepted| && (e.frame.captureMs, e.frame.arrivalMs) == t.accepted[|t.published|]
  }

  /** Every frame does, as long as the transform has been well-behaved. */
  predicate Carries(t: Track, log: seq<Event>)
    decreases |log|
  {
    log == [] || (OrderlyAt(t, log[0]) ==> CarriesAt(t, log[0]) && Carries(Note(t, log[0]), log[1..]))
  }

  lemma {:induction false} CarriesAppend(t: Track, a: seq<Event>, b: seq<Event>)
    ensures Carries(t, a + b) == (Carries(t, a) && (Orderly(t, a) ==> Carries(Follow(t, a), b)))
    decreases |a|
  {
    if a == [] {
      assert a + b == b;
    } else {
      assert (a + b)[1..] == a[1..] + b;
      CarriesAppend(Note(t, a[0]), a[1..], b);
    }
  }

  lemma CarriesOne(t: Track, e: Event)
    ensures Carries(t, [e]) == (OrderlyAt(t, e) ==> CarriesAt(t, e))
    ensures Orderly(t, [e]) == OrderlyAt(t, e)
    ensures Follow(t, [e]) == Note(t, e)
  {
    assert [e][1..] == [];
  }

  /** How the three notions read over two consecutive stretches of a log. */
  lemma Consecutive(t: Track, a: seq<Event>, b: seq<Event>)
    ensures Orderly(t, a + b) == (Orderly(t, a) && Orderly(Follow(t, a), b))
    ensures Follow(t, a + b) == Follow(Follow(t, a), b)
    ensures Carries(t, a + b) == (Carries(t, a) && (Orderly(t, a) ==> Carries(Follow(t, a), b)))
  {
    OrderlyAppend(t, a, b);
    FollowAppend(t, a, b);
    CarriesAppend(t, a, b);
  }

  /** Published stamps are the first accepted ones; the queue holds the rest. */
  ghost predicate Aligned(d: State, t: Track) {
    && |t.published| <= |t.accepted|
    && t.published == t.accepted[..|t.published|]
    && d.times == t.accepted[|t.published|..]
  }

  /** Frames carry their times, and the queue is aligned again behind a well-behaved stretch. */
  ghost predicate Kept(t: Track, d: State, events: seq<Event>) {
    Carries(t, events) && (Orderly(t, events) ==> Aligned(d, Follow(t, events)))
  }

  /** A stretch that keeps the times, followed by one that does so from wherever the first ends. */
  lemma KeptAppend(t: Track, a: seq<Event>, d: State, b: seq<Event>)
    requires Carries(t, a)
    requires Orderly(t, a) ==> Kept(Follow(t, a), d, b)
    ensures Kept(t, d, a + b)
  {
    Consecutive(t, a, b);
  }

  lemma PublishKept(d: State, pic: Picture, t: Track)
    requires Aligned(d, t)
    ensures Kept(t, PublishStep(d, pic).0, PublishStep(d, pic).1)
  {
    var shown := PublishStep(d, pic).1;
    CarriesOne(t, shown[0]);
    if |shown| == 1 {
      assert shown == [shown[0]];
    } else {
      assert shown == [shown[0]] + [shown[1]];
      Consecutive(t, [shown[0]], [shown[1]]);
      CarriesOne(t, shown[1]);
    }
  }

  lemma {:induction false} DrainKept(d: State, outputs: seq<Output>, t: Track)
    requires Aligned(d, t)
    ensures Kept(t, Drain(d, outputs).1, Drain(d, outputs).2)
    decreases |outputs|
  {
    if outputs != [] {
      if outputs[0].Decoded? {
        var pic := outputs[0].picture;
        var (d', shown) := PublishStep(d, pic);
        PublishKept(d, pic, t);
        if Orderly(t, shown) {
          DrainKept(d', outputs[1..], Follow(t, shown));
        }
        KeptAppend(t, shown, Drain(d', outputs[1..]).1, Drain(d', outputs[1..]).2);
      } else if outputs[0].StreamChange? && outputs[0].nv12 {
        DrainKept(d, outputs[1..], t);
      }
    }
  }

  lemma TakeKept(d: State, s: VideoSample, o: Oracle, t: Track)
    requires Aligned(d, t)
    ensures Kept(t, Take(d, s, o).1, Take(d, s, o).2)
  {
    var e := d.(times := d.times + [(s.captureMs, s.arrivalMs)]);
    var taken := Taken(s.captureMs, s.arrivalMs);
    CarriesOne(t, taken);
    DrainKept(e, o.outputs, Note(t, taken));
    KeptAppend(t, [taken], Drain(e, o.outputs).1, Drain(e, o.outputs).2);
  }

  lemma FeedKept(d: State, s: VideoSample, o: Oracle, t: Track)
    requires Aligned(d, t)
    ensures Kept(t, FeedStep(d, s, o).1, FeedStep(d, s, o).2)
  {
    if o.alloc {
      CarriesOne(t, Fed(s));
      if o.input == NotAccepting {
        var (ok, d', drained) := Drain(d, o.drained);
        DrainKept(d, o.drained, t);
        if ok && o.retry == Accepted {
          if Orderly(t, drained) {
            TakeKept(d', s, o, Follow(t, drained));
          }
          KeptAppend(t, drained, Take(d', s, o).1, Take(d', s, o).2);
          KeptAppend(t, [Fed(s)], Take(d', s, o).1, drained + Take(d', s, o).2);
        } else {
          KeptAppend(t, [Fed(s)], d', drained);
        }
      } else if o.input == Accepted {
        TakeKept(d, s, o, t);
        KeptAppend(t, [Fed(s)], Take(d, s, o).1, Take(d, s, o).2);
      }
    }
  }

  /** A reset starts over with nothing accepted and nothing published. */
  lemma AfterReset(t: Track, asked: seq<Event>)
    requires asked == [] || (|asked| == 1 && asked[0].KeyframeAsked?)
    ensures Follow(t, [FeedFailed, Decoder.Event.Reset] + asked) == START
    ensures Carries(t, [FeedFailed, Decoder.Event.Reset] + asked)
  {
    var reset := Decoder.Event.Reset;
    assert [FeedFailed, reset] == [FeedFailed] + [reset];
    CarriesOne(t, FeedFailed);
    CarriesOne(t, reset);
    Consecutive(t, [FeedFailed], [reset]);
    Consecutive(t, [FeedFailed, reset], asked);
    AskedFollow(START, asked);
  }

  lemma AskedFollow(t: Track, asked: seq<Event>)
    requires asked == [] || (|asked| == 1 && asked[0].KeyframeAsked?)
    ensures Follow(t, asked) == t && Carries(t, asked)
  {
    if asked != [] {
      assert asked == [asked[0]];
      CarriesOne(t, asked[0]);
    }
  }

  lemma FeedOrResetKept(d: State, s: VideoSample, size: Option<Sps.Dimensions>, o: Oracle, t: Track)
    requires Aligned(d, t)
    ensures Kept(t, FeedOrReset(d, s, size, o).0, FeedOrReset(d, s, size, o).1)
  {
    var v := WithVisible(d, s, size);
    var (ok, d', fed) := FeedStep(v, s, o);
    FeedKept(v, s, o, t);
    if !ok {
      var (d'', asked) := Ask(ResetOf(d'), o.now);
      AfterReset(Follow(t, fed), asked);
      KeptAppend(t, fed, d'', [FeedFailed, Decoder.Event.Reset] + asked);
    }
  }

  lemma BuildAndFeedKept(d: State, s: VideoSample, size: Option<Sps.Dimensions>, o: Oracle, t: Track)
    requires Aligned(d, t)
    ensures Kept(t, BuildAndFeed(d, s, size, o).0, BuildAndFeed(d, s, size, o).1)
  {
    if o.setup {
      var b := d.(ready := true, lastSps := s.sps, lastPps := s.pps);
      var (d', events) := FeedOrReset(b, s, size, o);
      CarriesOne(t, Built(s.sps, s.pps));
      FeedOrResetKept(b, s, size, o, t);
      KeptAppend(t, [Built(s.sps, s.pps)], d', events);
    } else {
      AskedFollow(t, Ask(d, o.now).1);
    }
  }

  lemma SubmitKept(d: State, s: VideoSample, size: Option<Sps.Dimensions>, o: Oracle, t: Track)
    requires Aligned(d, t)
    ensures Kept(t, SubmitStep(d, s, size, o).0, SubmitStep(d, s, size, o).1)
  {
    if s.annexb != [] {
      if !d.ready {
        if s.isKeyframe {
          BuildAndFeedKept(d, s, size, o, t);
        } else {
          AskedFollow(t, Ask(d, o.now).1);
        }
      } else if ParametersChanged(d, s) && s.isKeyframe {
        var (d', events) := BuildAndFeed(ResetOf(d), s, size, o);
        CarriesOne(t, Decoder.Event.Reset);
        BuildAndFeedKept(ResetOf(d), s, size, o, START);
        KeptAppend(t, [Decoder.Event.Reset], d', events);
      } else {
        FeedOrResetKept(d, s, size, o, t);
      }
    }
  }

  lemma {:induction false} RunKept(d: State, calls: seq<Call>, t: Track)
    requires Aligned(d, t)
    ensures Kept(t, DecoderSafety.StateAfter(d, calls), RunAll(d, calls))
    decreases |calls|
  {
    if calls != [] {
      var (d', events) := Step(d, calls[0]);
      SubmitKept(d, calls[0].sample, calls[0].size, calls[0].oracle, t);
      if Orderly(t, events) {
        RunKept(d', calls[1..], Follow(t, events));
      }
      KeptAppend(t, events, DecoderSafety.StateAfter(d', calls[1..]), RunAll(d', calls[1..]));
    }
  }

  /** The frames since the last reset carry the first stamps accepted since then, in order. */
  ghost predicate FirstStamps(t: Track) {
    |t.published| <= |t.accepted| && t.published == t.accepted[..|t.published|]
  }

  lemma {:induction false} CarriedStamps(t: Track, log: seq<Event>, n: nat)
    requires FirstStamps(t) && Carries(t, log) && n <= |log| && Orderly(t, log[..n])
    ensures FirstStamps(Follow(t, log[..n]))
    decreases n
  {
    if n > 0 {
      assert log[..n][0] == log[0] && log[..n][1..] == log[1..][..n - 1];
      CarriedStamps(Note(t, log[0]), log[1..], n - 1);
    }
  }

  /**
  At every moment of a run, as long as the transform has been well-behaved, the
  i-th frame published since the last reset carries the capture and arrival
  times of the i-th unit accepted since that reset: within a Submit whose feed
  fails later as well, and also when units had to be retried after a drain.
  */
  lemma FramesCarryTheirTimes(calls: seq<Call>, n: nat)
    requires n <= |RunAll(INITIAL, calls)| && Orderly(START, RunAll(INITIAL, calls)[..n])
    ensures FirstStamps(Follow(START, RunAll(INITIAL, calls)[..n]))
  {
    RunKept(INITIAL, calls, START);
    CarriedStamps(START, RunAll(INITIAL, calls), n);
  }

  // ----- Without assumptions on the transform -------------------------------------------

  /** The queue is always the newest accepted stamps, in order. */
  ghost predicate QueueIsNewest(d: State, t: Track) {
    |d.times| <= |t.accepted| && d.times == t.accepted[|t.accepted| - |d.times|..]
  }

  lemma PublishNewest(d: State, pic: Picture, t: Track)
    requires QueueIsNewest(d, t)
    ensures QueueIsNewest(PublishStep(d, pic).0, Follow(t, PublishStep(d, pic).1))
  {
    var shown := PublishStep(d, pic).1;
    FollowOne(t, shown[0]);
    if |shown| == 1 {
      assert shown == [shown[0]];
    } else {
      assert shown == [shown[0]] + [shown[1]];
      FollowAppend(t, [shown[0]], [shown[1]]);
      FollowOne(t, shown[1]);
    }
  }

  lemma {:induction false} DrainNewest(d: State, outputs: seq<Output>, t: Track)
    requires QueueIsNewest(d, t)
    ensures QueueIsNewest(Drain(d, outputs).1, Follow(t, Drain(d, outputs).2))
    decreases |outputs|
  {
    if outputs != [] {
      if outputs[0].Decoded? {
        var (d', shown) := PublishStep(d, outputs[0].picture);
        FollowAppend(t, shown, Drain(d', outputs[1..]).2);
        PublishNewest(d, outputs[0].picture, t);
        DrainNewest(d', outputs[1..], Follow(t, shown));
      } else if outputs[0].StreamChange? && outputs[0].nv12 {
        DrainNewest(d, outputs[1..], t);
      }
    }
  }

  lemma TakeNewest(d: State, s: VideoSample, o: Oracle, t: Track)
    requires QueueIsNewest(d, t)
    ensures QueueIsNewest(Take(d, s, o).1, Follow(t, Take(d, s, o).2))
  {
    var e := d.(times := d.times + [(s.captureMs, s.arrivalMs)]);
    var head := [Taken(s.captureMs, s.arrivalMs)];
    FollowAppend(t, head, Drain(e, o.outputs).2);
    FollowOne(t, head[0]);
    DrainNewest(e, o.outputs, Follow(t, head));
  }

  lemma FeedNewest(d: State, s: VideoSample, o: Oracle, t: Track)
    requires QueueIsNewest(d, t)
    ensures QueueIsNewest(FeedStep(d, s, o).1, Follow(t, FeedStep(d, s, o).2))
  {
    if o.alloc {
      FollowOne(t, Fed(s));
      if o.input == NotAccepting {
        var (ok, d', drained) := Drain(d, o.drained);
        DrainNewest(d, o.drained, t);
        FollowAppend(t, [Fed(s)], drained);
        if ok && o.retry == Accepted {
          FollowAppend(t, [Fed(s)], drained + Take(d', s, o).2);
          FollowAppend(t, drained, Take(d', s, o).2);
          TakeNewest(d', s, o, Follow(t, drained));
        }
      } else if o.input == Accepted {
        FollowAppend(t, [Fed(s)], Take(d, s, o).2);
        TakeNewest(d, s, o, t);
      }
    }
  }

  lemma FeedOrResetNewest(d: State, s: VideoSample, size: Option<Sps.Dimensions>, o: Oracle, t: Track)
    requires QueueIsNewest(d, t)
    ensures QueueIsNewest(FeedOrReset(d, s, size, o).0, Follow(t, FeedOrReset(d, s, size, o).1))
  {
    var v := WithVisible(d, s, size);
    var (ok, d', fed) := FeedStep(v, s, o);
    if ok {
      FeedNewest(v, s, o, t);
    } else {
      var asked := Ask(ResetOf(d'), o.now).1;
      FollowAppend(t, fed, [FeedFailed, Decoder.Event.Reset] + asked);
      AfterReset(Follow(t, fed), asked);
    }
  }

  lemma BuildAndFeedNewest(d: State, s: VideoSample, size: Option<Sps.Dimensions>, o: Oracle, t: Track)
    requires QueueIsNewest(d, t)
    ensures QueueIsNewest(BuildAndFeed(d, s, size, o).0, Follow(t, BuildAndFeed(d, s, size, o).1))
  {
    if o.setup {
      var b := d.(ready := true, lastSps := s.sps, lastPps := s.pps);
      FollowAppend(t, [Built(s.sps, s.pps)], FeedOrReset(b, s, size, o).1);
      FollowOne(t, Built(s.sps, s.pps));
      FeedOrResetNewest(b, s, size, o, t);
    } else {
      AskedFollow(t, Ask(d, o.now).1);
    }
  }

  lemma SubmitNewest(d: State, s: VideoSample, size: Option<Sps.Dimensions>, o: Oracle, t: Track)
    requires QueueIsNewest(d, t)
    ensures QueueIsNewest(SubmitStep(d, s, size, o).0, Follow(t, SubmitStep(d, s, size, o).1))
  {
    if s.annexb != [] {
      if !d.ready {
        if s.isKeyframe {
          BuildAndFeedNewest(d, s, size, o, t);
        } else {
          AskedFollow(t, Ask(d, o.now).1);
        }
      } else if ParametersChanged(d, s) && s.isKeyframe {
        FollowAppend(t, [Decoder.Event.Reset], BuildAndFeed(ResetOf(d), s, size, o).1);
        FollowOne(t, Decoder.Event.Reset);
        BuildAndFeedNewest(ResetOf(d), s, size, o, START);
      } else {
        FeedOrResetNewest(d, s, size, o, t);
      }
    }
  }

  /**
  Whatever the transform does, after every run the queue is a suffix of the
  stamps accepted since the last reset, so a frame never gets the time of a
  unit accepted before one whose time was already used.
  */
  lemma {:induction false} QueueAlwaysNewest(d: State, calls: seq<Call>, t: Track)
    requires QueueIsNewest(d, t)
    ensures QueueIsNewest(DecoderSafety.StateAfter(d, calls), Follow(t, RunAll(d, calls)))
    decreases |calls|
  {
    if calls != [] {
      var (d', events) := Step(d, calls[0]);
      FollowAppend(t, events, RunAll(d', calls[1..]));
      SubmitNewest(d, calls[0].sample, calls[0].size, calls[0].oracle, t);
      QueueAlwaysNewest(d', calls[1..], Follow(t, events));
    }
  }
}
