/** The read threads, the queue and the decode thread together (app/main.cpp). */
module Pipeline {
  import opened Bytes
  import AnnexB
  import opened Decoder
  import opened DecoderSafety
  import DecoderRecovery
  import FrameBuffer
  import FrameRuns
  import Framing
  import Payloads
  import Session
  import SessionClock
  import VideoQueue
  import WireDelivery

  type Queue = VideoQueue.State<VideoSample>
  type Steps = seq<VideoQueue.Step<VideoSample>>

  const EMPTY: Queue := VideoQueue.State([], 0, false)

  /** The samples a session's loop passes to its video callback, which pushes each of them. */
  function Videos(events: seq<Session.Event>): seq<VideoSample> {
    if events == [] then []
    else (match events[0] case OnVideo(sample) => [sample] case _ => []) + Videos(events[1..])
  }

  lemma {:induction false} VideosAppend(a: seq<Session.Event>, b: seq<Session.Event>)
    ensures Videos(a + b) == Videos(a) + Videos(b)
  {
    if a == [] {
      assert a + b == b;
    } else {
      assert (a + b)[1..] == a[1..] + b;
      VideosAppend(a[1..], b);
      ConcatAssoc(match a[0] case OnVideo(sample) => [sample] case _ => [], Videos(a[1..]), Videos(b));
    }
  }

  // ----- What a session pushes --------------------------------------------------------------

  /** A sample made of some parsed picture. */
  ghost predicate Parsed(s: VideoSample) {
    exists f: AnnexB.VideoFrame, arrivalMs: int :: s == Session.SampleOf(f, arrivalMs)
  }

  ghost predicate AllParsed(samples: seq<VideoSample>) {
    forall k | 0 <= k < |samples| :: Parsed(samples[k])
  }

  lemma AllParsedAppend(a: seq<VideoSample>, b: seq<VideoSample>)
    requires AllParsed(a) && AllParsed(b)
    ensures AllParsed(a + b)
  {
  }

  lemma DispatchParsed(payload: seq<byte>, arrivalMs: int)
    ensures AllParsed(Videos(Session.Dispatch(payload, arrivalMs)))
  {
    var d := Session.Dispatch(payload, arrivalMs);
    if d != [] {
      assert d[1..] == [];
      if d[0].OnVideo? {
        assert Parsed(d[0].sample);
      }
    }
  }

  lemma {:induction false} HandedOnParsed(payloads: seq<seq<byte>>, clock: nat -> int)
    ensures AllParsed(Videos(Session.HandedOn(payloads, clock)))
  {
    if payloads != [] {
      var n := |payloads| - 1;
      HandedOnParsed(payloads[..n], clock);
      DispatchParsed(payloads[n], clock(n));
      VideosAppend(Session.HandedOn(payloads[..n], clock), Session.Dispatch(payloads[n], clock(n)));
    }
  }

  lemma NoVideo(events: seq<Session.Event>)
    requires |events| <= 1 && (events != [] ==> !events[0].OnVideo?)
    ensures Videos(events) == []
  {
    if events != [] {
      assert events[1..] == [];
    }
  }

  /** Every sample a session pushes was made of a parsed picture. */
  lemma {:induction false} RunParsed(st: Session.State, turns: seq<Session.Turn>)
    ensures AllParsed(Videos(Session.Run(st, turns)))
    decreases |turns|
  {
    if turns != [] {
      if SessionClock.GoesOn(st, turns[0]) {
        var next := SessionClock.After(st, turns[0]);
        RunParsed(next, turns[1..]);
        TurnParsed(st, turns);
      } else {
        LastTurnParsed(st, turns);
      }
    }
  }

  lemma TurnParsed(st: Session.State, turns: seq<Session.Turn>)
    requires turns != [] && SessionClock.GoesOn(st, turns[0])
    requires AllParsed(Videos(Session.Run(SessionClock.After(st, turns[0]), turns[1..])))
    ensures AllParsed(Videos(Session.Run(st, turns)))
  {
    var pings, handed := Session.PingIfDue(st, turns[0].now), SessionClock.Handed(st, turns[0]);
    var more := Session.Run(SessionClock.After(st, turns[0]), turns[1..]);
    SessionClock.GoingOn(st, turns);
    NoVideo(pings);
    VideosAppend(pings, handed + more);
    VideosAppend(handed, more);
    if turns[0].recv.Data? {
      HandedOnParsed(FrameBuffer.Delivered(st.rest + turns[0].recv.bytes), turns[0].arrival);
    }
    AllParsedAppend(Videos(handed), Videos(more));
  }

  lemma LastTurnParsed(st: Session.State, turns: seq<Session.Turn>)
    requires turns != [] && !SessionClock.GoesOn(st, turns[0])
    ensures AllParsed(Videos(Session.Run(st, turns)))
  {
    var pings, clean := SessionClock.LastTurn(st, turns);
    NoVideo(pings);
    NoVideo([Session.OnClosed(clean)]);
    VideosAppend(pings, [Session.OnClosed(clean)]);
  }

  // ----- Through the queue to the decoder -----------------------------------------------------

  /** A sample some session hands to its video callback. */
  ghost predicate FromSession(s: VideoSample) {
    exists st: Session.State, turns: seq<Session.Turn> :: s in Videos(Session.Run(st, turns))
  }

  /** The decode thread submits each frame its waits return, in order. */
  ghost predicate Submits(taken: seq<VideoQueue.Take<VideoSample>>, calls: seq<Call>) {
    |calls| == |taken| && forall k | 0 <= k < |calls| :: calls[k].sample == taken[k].item
  }

  lemma SessionKeyHasSps(s: VideoSample)
    requires FromSession(s)
    ensures KeyHasSps(s)
  {
    var st: Session.State, turns: seq<Session.Turn> :| s in Videos(Session.Run(st, turns));
    RunParsed(st, turns);
    var samples := Videos(Session.Run(st, turns));
    var k :| 0 <= k < |samples| && samples[k] == s;
    var f: AnnexB.VideoFrame, arrivalMs: int :| samples[k] == Session.SampleOf(f, arrivalMs);
    SessionSamplesOk(f, arrivalMs);
  }

  /**
  Whatever the read threads of all sessions push, whichever frames the queue
  drops and however the transform answers, every prefix of the decoder's run is
  legal.
  */
  lemma DecodeThreadLegal(capacity: nat, steps: Steps, calls: seq<Call>, n: nat)
    requires capacity > 0
    requires forall k | 0 <= k < |VideoQueue.Pushed(steps)| :: FromSession(VideoQueue.Pushed(steps)[k])
    requires Submits(VideoQueue.Taken(capacity, EMPTY, steps, 0), calls)
    requires n <= |RunAll(INITIAL, calls)|
    ensures PhaseAfter(Off, RunAll(INITIAL, calls)[..n]) != Illegal
  {
    var pushed := VideoQueue.Pushed(steps);
    assert [] + pushed == pushed;
    var at := VideoQueue.TakenInOrder(capacity, EMPTY, [], steps);
    forall k | 0 <= k < |calls|
      ensures KeyHasSps(calls[k].sample)
    {
      assert calls[k].sample == pushed[at[k]];
      SessionKeyHasSps(pushed[at[k]]);
    }
    EveryRunLegal(calls, n);
  }

  // ----- The whole way of a picture -----------------------------------------------------------

  /** Samples without the clock that noted their arrival. */
  function Undated(samples: seq<VideoSample>): (v: seq<VideoSample>)
    ensures |v| == |samples|
  {
    seq(|samples|, k requires 0 <= k < |samples| => samples[k].(arrivalMs := 0))
  }

  function Offered(calls: seq<Call>): (v: seq<VideoSample>)
    ensures |v| == |calls|
  {
    seq(|calls|, k requires 0 <= k < |calls| => calls[k].sample)
  }

  lemma UndatedVideo(e: Session.Event)
    ensures Videos(WireDelivery.Callback(e)) == Undated(Videos([e]))
  {
    assert [e][1..] == [];
    var first := WireDelivery.Callback(e);
    if first != [] {
      assert first[1..] == [];
    }
  }

  lemma UndatedAppend(a: seq<VideoSample>, b: seq<VideoSample>)
    ensures Undated(a + b) == Undated(a) + Undated(b)
  {
  }

  lemma {:induction false} UndatedVideos(events: seq<Session.Event>)
    ensures Videos(WireDelivery.Callbacks(events)) == Undated(Videos(events))
    decreases |events|
  {
    if events != [] {
      var e, rest := events[0], events[1..];
      assert events == [e] + rest;
      UndatedVideos(rest);
      UndatedVideo(e);
      VideosAppend(WireDelivery.Callback(e), WireDelivery.Callbacks(rest));
      VideosAppend([e], rest);
      UndatedAppend(Videos([e]), Videos(rest));
    }
  }

  lemma VideosPrefix(a: seq<Session.Event>, b: seq<Session.Event>)
    requires a <= b
    ensures Videos(a) <= Videos(b)
  {
    assert b == a + b[|a|..];
    VideosAppend(a, b[|a|..]);
  }

  lemma UndatedPrefix(a: seq<VideoSample>, b: seq<VideoSample>)
    requires a <= b
    ensures Undated(a) <= Undated(b)
  {
  }

  lemma OfferedAre(taken: seq<VideoQueue.Take<VideoSample>>, calls: seq<Call>)
    requires Submits(taken, calls)
    ensures Offered(calls) == VideoQueue.Items(taken)
  {
  }

  /** Without a drop the decoder is offered the first of what was pushed, and all of it once the queue is empty. */
  lemma OfferedInOrder(capacity: nat, steps: Steps, calls: seq<Call>)
    requires capacity > 0 && VideoQueue.Exec(capacity, EMPTY, steps).dropped == 0
    requires Submits(VideoQueue.Taken(capacity, EMPTY, steps, 0), calls)
    ensures Offered(calls) <= VideoQueue.Pushed(steps)
    ensures VideoQueue.Exec(capacity, EMPTY, steps).queue == [] ==> Offered(calls) == VideoQueue.Pushed(steps)
  {
    VideoQueue.CompleteIff(capacity, EMPTY, steps, 0);
    OfferedAre(VideoQueue.Taken(capacity, EMPTY, steps, 0), calls);
    var end, offered := VideoQueue.Exec(capacity, EMPTY, steps).queue, Offered(calls);
    assert [] + VideoQueue.Pushed(steps) == VideoQueue.Pushed(steps);
    assert end == [] ==> offered + end == offered;
  }

  /**
  From the sender to the decoder: however the items are cut into reads and the
  threads interleave, if no read exposes a payload and the queue drops nothing,
  the decoder is offered the first of the items' pictures in send order, and
  all of them once everything was read, pushed and taken.
  */
  lemma PicturesReachDecoder(now: int, turns: seq<Session.Turn>, items: seq<WireDelivery.Item>, later: seq<byte>,
                             capacity: nat, steps: Steps, calls: seq<Call>)
    requires forall k | 0 <= k < |items| :: WireDelivery.Deliverable(items[k])
    requires var taken := WireDelivery.Reads(Session.State([], now, now), turns);
             Flatten(taken) + later == Framing.Wire(WireDelivery.Payloads(items)) && FrameRuns.CleanReads([], taken)
    requires VideoQueue.Pushed(steps) <= Videos(Session.Run(Session.State([], now, now), turns))
    requires capacity > 0 && VideoQueue.Exec(capacity, EMPTY, steps).dropped == 0
    requires Submits(VideoQueue.Taken(capacity, EMPTY, steps, 0), calls)
    ensures Undated(Offered(calls)) <= Videos(WireDelivery.ExpectedAll(items))
    ensures later == [] && VideoQueue.Exec(capacity, EMPTY, steps).queue == [] &&
            VideoQueue.Pushed(steps) == Videos(Session.Run(Session.State([], now, now), turns)) ==>
              Undated(Offered(calls)) == Videos(WireDelivery.ExpectedAll(items))
  {
    var events := Session.Run(Session.State([], now, now), turns);
    WireDelivery.LoopDeliversItems(now, turns, items, later);
    VideosPrefix(WireDelivery.Callbacks(events), WireDelivery.ExpectedAll(items));
    UndatedVideos(events);
    OfferedInOrder(capacity, steps, calls);
    UndatedPrefix(Offered(calls), VideoQueue.Pushed(steps));
    UndatedPrefix(VideoQueue.Pushed(steps), Videos(events));
  }

  // ----- The first picture ----------------------------------------------------------------------

  /**
  A payload with an SPS and an IDR slice, wherever they stand among its units:
  its sample builds a transform for its last parameter sets and is fed to it,
  and the transform stays when nothing fails.
  */
  lemma KeyframePayloadBuilds(prefix: seq<byte>, nalus: seq<seq<byte>>, arrivalMs: int, d: State, c: Call)
    requires AnnexB.Clean(prefix) && AnnexB.AllClean(nalus) && Payloads.NoneMisleads(nalus)
    requires Payloads.HasUnit(nalus, 7) && Payloads.HasUnit(nalus, 5)
    requires Session.Dispatch(prefix + AnnexB.Serialize(nalus), arrivalMs) == [Session.OnVideo(c.sample)]
    requires !d.ready && c.oracle.setup
    ensures var (d', log) := Step(d, c);
            && log != [] && log[0] == Built(Payloads.LastOf(nalus, 7), Payloads.LastOf(nalus, 8))
            && (c.oracle.alloc ==> |log| > 1 && log[1] == Fed(c.sample))
            && (d'.ready <==> !DecoderRecovery.Fails(c.oracle))
  {
    Payloads.LastOfFound(nalus, 7);
    Payloads.PictureHandedOn(prefix, nalus, arrivalMs);
    Payloads.HandedNotEmpty(nalus);
    var rest := DecoderRecovery.BuildsFirst(d, c);
    DecoderRecovery.ReadyIff(d, c);
  }
}
