/**
Decoder control (video/h264_decoder.cpp): when the transform is built, reset
and fed, and how frames get their timestamps.  The transform itself is an
adversary: every result it returns is an input.
*/
module Decoder {
  import opened Bytes
  import Session
  import Sps

  const KEYFRAME_REQUEST_GAP_MS := 500
  const DRIFT_LIMIT := 64

  // ----- What the transform answers ---------------------------------------------------

  /** A decoded sample: is its buffer there, is it large enough to copy, and its coded size. */
  datatype Picture = Picture(buffer: bool, complete: bool, width: int, height: int)

  /** One ProcessOutput call; NoSample stands for a failed allocation, which ends the drain. */
  datatype Output = NeedMoreInput | NoSample | StreamChange(nv12: bool) | OutputFailed | Decoded(picture: Picture)

  datatype Input = Accepted | NotAccepting | InputFailed

  /** All answers to one Submit: set-up, allocation, both ProcessInput calls, both drains, the clock. */
  datatype Oracle = Oracle(setup: bool, alloc: bool, input: Input, drained: seq<Output>, retry: Input,
                           outputs: seq<Output>, now: int)

  // ----- What happened ------------------------------------------------------------------

  datatype Shown = Shown(captureMs: int, arrivalMs: int, width: int, height: int, cropRight: int, cropBottom: int)

  datatype Event =
    | Built(sps: seq<byte>, pps: seq<byte>)
    | Reset
    | Fed(sample: VideoSample)
    | Taken(captureMs: int, arrivalMs: int)
    | Emitted(picture: Picture)
    | Published(frame: Shown)
    | FeedFailed
    | KeyframeAsked(now: int)

  type VideoSample = Session.VideoSample

  type Stamp = (int, int)

  datatype State = State(ready: bool, lastSps: seq<byte>, lastPps: seq<byte>, visibleW: int, visibleH: int,
                         lastKfRequestMs: int, times: seq<Stamp>)

  const INITIAL := State(false, [], [], 0, 0, 0, [])

  // ----- One step at a time ---------------------------------------------------------------

  function ResetOf(d: State): State {
    d.(ready := false, visibleW := 0, visibleH := 0, times := [])
  }

  function Ask(d: State, now: int): (State, seq<Event>) {
    if now - d.lastKfRequestMs < KEYFRAME_REQUEST_GAP_MS then (d, [])
    else (d.(lastKfRequestMs := now), [KeyframeAsked(now)])
  }

  /** The timestamp a frame gets and the queue behind it; a queue that drifted too far is dropped. */
  function Stamped(times: seq<Stamp>): (Stamp, seq<Stamp>) {
    if times == [] then ((-1, 0), [])
    else (times[0], if |times| - 1 > DRIFT_LIMIT then [] else times[1..])
  }

  function CropTo(visible: int, coded: int): int {
    if 0 < visible <= coded then coded - visible else 0
  }

  predicate CanShow(p: Picture) { p.buffer && p.complete && p.width > 0 && p.height > 0 }

  function PublishStep(d: State, p: Picture): (State, seq<Event>) {
    if !p.buffer then (d, [Emitted(p)])
    else
      var (stamp, times) := Stamped(d.times);
      (d.(times := times),
       [Emitted(p)] +
       if CanShow(p) then
         [Published(Shown(stamp.0, stamp.1, p.width, p.height,
                          CropTo(d.visibleW, p.width), CropTo(d.visibleH, p.height)))]
       else [])
  }

  function Drain(d: State, outputs: seq<Output>): (bool, State, seq<Event>)
    decreases |outputs|
  {
    if outputs == [] then (true, d, [])
    else match outputs[0]
      case NeedMoreInput => (true, d, [])
      case NoSample => (true, d, [])
      case StreamChange(nv12) => if nv12 then Drain(d, outputs[1..]) else (false, d, [])
      case OutputFailed => (false, d, [])
      case Decoded(p) =>
        var (d', shown) := PublishStep(d, p);
        var (ok, d'', more) := Drain(d', outputs[1..]);
        (ok, d'', shown + more)
  }

  // ----- How long the drain loop runs --------------------------------------------------------

  /** The loop goes on behind a picture and behind a format it can select. */
  predicate LoopsOn(o: Output) { o.Decoded? || (o.StreamChange? && o.nv12) }

  /** The calls of ProcessOutput, when the transform only asks for input behind these answers. */
  function DrainCalls(outputs: seq<Output>): (n: nat)
    ensures 0 < n <= |outputs| + 1
  {
    if outputs != [] && LoopsOn(outputs[0]) then 1 + DrainCalls(outputs[1..]) else 1
  }

  function Upto(answers: nat -> Output, i: nat, n: nat): (v: seq<Output>)
    requires i <= n
    ensures |v| == n - i
  {
    seq(n - i, k requires 0 <= k < n - i => answers(i + k))
  }

  /** The first answer that ends the loop. */
  lemma {:induction false} FirstStop(answers: nat -> Output, i: nat, stop: nat) returns (calls: nat)
    requires i <= stop && !LoopsOn(answers(stop))
    ensures i < calls <= stop + 1 && !LoopsOn(answers(calls - 1))
    ensures forall k: nat | i <= k < calls - 1 :: LoopsOn(answers(k))
    decreases stop - i
  {
    if LoopsOn(answers(i)) {
      calls := FirstStop(answers, i + 1, stop);
    } else {
      calls := i + 1;
    }
  }

  /** Nothing behind the answer that ends the loop matters, and neither does ending it by asking for input. */
  lemma {:induction false} DrainCut(d: State, a: seq<Output>, b: seq<Output>)
    requires (b != [] ==> b[0].NeedMoreInput?) || (a != [] && !LoopsOn(a[|a| - 1]))
    ensures Drain(d, a + b) == Drain(d, a)
    decreases |a|
  {
    if a == [] {
      assert a + b == b;
    } else {
      assert (a + b)[0] == a[0] && (a + b)[1..] == a[1..] + b;
      if a[0].StreamChange? && a[0].nv12 {
        DrainCut(d, a[1..], b);
      } else if a[0].Decoded? {
        DrainCut(PublishStep(d, a[0].picture).0, a[1..], b);
      }
    }
  }

  /** A list of answers behind which the transform only asks for more input. */
  function Extended(outputs: seq<Output>): nat -> Output {
    (i: nat) => if i < |outputs| then outputs[i] else NeedMoreInput
  }

  lemma ExtendedDrains(d: State, outputs: seq<Output>, n: nat)
    requires n >= |outputs|
    ensures Drain(d, Upto(Extended(outputs), 0, n)) == Drain(d, outputs)
  {
    var all := Upto(Extended(outputs), 0, n);
    assert all == outputs + all[|outputs|..];
    DrainCut(d, outputs, all[|outputs|..]);
  }

  /** The loop's result when `log` happened before these answers. */
  function Drained(log: seq<Event>, d: State, outputs: seq<Output>): (bool, State, seq<Event>) {
    (Drain(d, outputs).0, Drain(d, outputs).1, log + Drain(d, outputs).2)
  }

  lemma UptoFirst(answers: nat -> Output, i: nat, n: nat)
    requires i < n
    ensures Upto(answers, i, n)[0] == answers(i) && Upto(answers, i, n)[1..] == Upto(answers, i + 1, n)
  {
  }

  lemma StopsHere(log: seq<Event>, d: State, answers: nat -> Output, i: nat, n: nat)
    requires i < n && !LoopsOn(answers(i))
    ensures Drained(log, d, Upto(answers, i, n)) == (answers(i).NeedMoreInput? || answers(i).NoSample?, d, log)
  {
    UptoFirst(answers, i, n);
    assert log + [] == log;
  }

  lemma ChangeOn(log: seq<Event>, d: State, answers: nat -> Output, i: nat, n: nat)
    requires i < n && answers(i).StreamChange? && answers(i).nv12
    ensures Drained(log, d, Upto(answers, i, n)) == Drained(log, d, Upto(answers, i + 1, n))
  {
    UptoFirst(answers, i, n);
  }

  lemma PictureOn(log: seq<Event>, d: State, answers: nat -> Output, i: nat, n: nat)
    requires i < n && answers(i).Decoded?
    ensures var (d', shown) := PublishStep(d, answers(i).picture);
            Drained(log, d, Upto(answers, i, n)) == Drained(log + shown, d', Upto(answers, i + 1, n))
  {
    var (d', shown) := PublishStep(d, answers(i).picture);
    UptoFirst(answers, i, n);
    ConcatAssoc(log, shown, Drain(d', Upto(answers, i + 1, n)).2);
  }

  lemma ListedUpTo(d: State, outputs: seq<Output>, calls: nat)
    requires calls > 0 && !LoopsOn(Extended(outputs)(calls - 1))
    requires forall k: nat | k < calls - 1 :: LoopsOn(Extended(outputs)(k))
    ensures Drain(d, Upto(Extended(outputs), 0, calls)) == Drain(d, outputs)
    ensures calls == DrainCalls(outputs)
  {
    var n := Max(calls, |outputs|);
    var all, first := Upto(Extended(outputs), 0, n), Upto(Extended(outputs), 0, calls);
    ExtendedDrains(d, outputs, n);
    assert all == first + all[calls..];
    DrainCut(d, first, all[calls..]);
    CallsCounted(outputs, 0, calls);
  }

  lemma {:induction false} CallsCounted(outputs: seq<Output>, i: nat, calls: nat)
    requires i < calls && i <= |outputs| && !LoopsOn(Extended(outputs)(calls - 1))
    requires forall k: nat | i <= k < calls - 1 :: LoopsOn(Extended(outputs)(k))
    ensures calls == i + DrainCalls(outputs[i..])
    decreases calls - i
  {
    if i < calls - 1 {
      assert LoopsOn(Extended(outputs)(i));
      assert outputs[i..][1..] == outputs[i + 1..];
      CallsCounted(outputs, i + 1, calls);
    }
  }

  /** The unit was accepted: its times join the queue and the transform is drained. */
  function Take(d: State, s: VideoSample, o: Oracle): (bool, State, seq<Event>) {
    var (ok, d', more) := Drain(d.(times := d.times + [(s.captureMs, s.arrivalMs)]), o.outputs);
    (ok, d', [Taken(s.captureMs, s.arrivalMs)] + more)
  }

  function FeedStep(d: State, s: VideoSample, o: Oracle): (bool, State, seq<Event>) {
    if !o.alloc then (false, d, [])
    else if o.input == NotAccepting then
      var (ok, d', drained) := Drain(d, o.drained);
      if !ok || o.retry != Accepted then (false, d', [Fed(s)] + drained)
      else
        var (ok', d'', taken) := Take(d', s, o);
        (ok', d'', [Fed(s)] + (drained + taken))
    else if o.input == Accepted then
      var (ok, d', taken) := Take(d, s, o);
      (ok, d', [Fed(s)] + taken)
    else (false, d, [Fed(s)])
  }

  /** The calls of ProcessOutput in one feed. */
  function FeedCalls(d: State, o: Oracle): nat {
    if !o.alloc then 0
    else if o.input == NotAccepting then
      DrainCalls(o.drained) + (if Drain(d, o.drained).0 && o.retry == Accepted then DrainCalls(o.outputs) else 0)
    else if o.input == Accepted then DrainCalls(o.outputs)
    else 0
  }

  /** A keyframe's SPS sets the visible size when it could be parsed. */
  function WithVisible(d: State, s: VideoSample, size: Option<Sps.Dimensions>): State {
    if s.isKeyframe && s.sps != [] && size.Some?
    then d.(visibleW := size.value.width, visibleH := size.value.height) else d
  }

  /** Feeds a unit to the running transform; any failure resets it and asks for a keyframe. */
  function FeedOrReset(d: State, s: VideoSample, size: Option<Sps.Dimensions>, o: Oracle): (State, seq<Event>) {
    var (ok, d', fed) := FeedStep(WithVisible(d, s, size), s, o);
    if ok then (d', fed)
    else
      var (d'', asked) := Ask(ResetOf(d'), o.now);
      (d'', fed + ([FeedFailed, Reset] + asked))
  }

  function BuildAndFeed(d: State, s: VideoSample, size: Option<Sps.Dimensions>, o: Oracle): (State, seq<Event>) {
    if !o.setup then Ask(d, o.now)
    else
      var (d', events) := FeedOrReset(d.(ready := true, lastSps := s.sps, lastPps := s.pps), s, size, o);
      (d', [Built(s.sps, s.pps)] + events)
  }

  predicate ParametersChanged(d: State, s: VideoSample) {
    (s.sps != [] && s.sps != d.lastSps) || (s.pps != [] && s.pps != d.lastPps)
  }

  /** One Submit; `size` is what the SPS parser makes of the sample's SPS. */
  function SubmitStep(d: State, s: VideoSample, size: Option<Sps.Dimensions>, o: Oracle): (State, seq<Event>) {
    if s.annexb == [] then (d, [])
    else if !d.ready then
      (if s.isKeyframe then BuildAndFeed(d, s, size, o) else Ask(d, o.now))
    else if ParametersChanged(d, s) && s.isKeyframe then
      var (d', events) := BuildAndFeed(ResetOf(d), s, size, o);
      (d', [Reset] + events)
    else FeedOrReset(d, s, size, o)
  }

  /** Whether a Submit feeds the transform, and the state in which it does. */
  function Feeding(d: State, s: VideoSample, size: Option<Sps.Dimensions>, o: Oracle): Option<State> {
    if s.annexb == [] then None
    else if d.ready && !(ParametersChanged(d, s) && s.isKeyframe) then Some(WithVisible(d, s, size))
    else if !s.isKeyframe || !o.setup then None
    else
      var built := if d.ready then ResetOf(d) else d;
      Some(WithVisible(built.(ready := true, lastSps := s.sps, lastPps := s.pps), s, size))
  }

  /** The calls of ProcessOutput in one Submit. */
  function SubmitCalls(d: State, s: VideoSample, size: Option<Sps.Dimensions>, o: Oracle): nat {
    match Feeding(d, s, size, o)
    case None => 0
    case Some(e) => FeedCalls(e, o)
  }

  datatype Call = Call(sample: VideoSample, size: Option<Sps.Dimensions>, oracle: Oracle)

  function Step(d: State, c: Call): (State, seq<Event>) {
    SubmitStep(d, c.sample, c.size, c.oracle)
  }

  /** Everything that happens over a sequence of Submit calls. */
  function RunAll(d: State, calls: seq<Call>): seq<Event>
    decreases |calls|
  {
    if calls == [] then [] else Step(d, calls[0]).1 + RunAll(Step(d, calls[0]).0, calls[1..])
  }

  // ----- The decoder object -----------------------------------------------------------------

  class H264Decoder {
    var mftReady: bool
    var lastSps: seq<byte>
    var lastPps: seq<byte>
    var visibleW: int
    var visibleH: int
    var lastKfRequestMs: int
    var captureTimes: seq<Stamp>
    var samplesSubmitted: nat
    var acceptedUnits: nat
    var framesDecoded: nat
    var publishedFrames: nat
    var rebuilds: nat
    var decoderErrors: nat
    ghost var log: seq<Event>
    ghost var outputCalls: nat

    ghost function Abstract(): State
      reads this
    {
      State(mftReady, lastSps, lastPps, visibleW, visibleH, lastKfRequestMs, captureTimes)
    }

    constructor ()
      ensures Abstract() == INITIAL && log == [] && outputCalls == 0
    {
      mftReady, lastSps, lastPps := false, [], [];
      visibleW, visibleH, lastKfRequestMs, captureTimes := 0, 0, 0, [];
      samplesSubmitted, acceptedUnits, framesDecoded := 0, 0, 0;
      publishedFrames, rebuilds, decoderErrors := 0, 0, 0;
      log, outputCalls := [], 0;
    }

    method ResetMft()
      modifies this
      ensures Abstract() == ResetOf(old(Abstract())) && log == old(log) + [Reset]
      ensures outputCalls == old(outputCalls)
    {
      mftReady := false;
      visibleW, visibleH := 0, 0;
      captureTimes := [];
      log := log + [Reset];
    }

    method RequestKeyframe(now: int)
      modifies this
      ensures Abstract() == Ask(old(Abstract()), now).0
      ensures log == old(log) + Ask(old(Abstract()), now).1 && outputCalls == old(outputCalls)
    {
      if now - lastKfRequestMs < KEYFRAME_REQUEST_GAP_MS {
        assert log == log + [];
        return;
      }
      lastKfRequestMs := now;
      log := log + [KeyframeAsked(now)];
    }

    method PublishNv12(p: Picture)
      modifies this
      ensures Abstract() == PublishStep(old(Abstract()), p).0
      ensures log == old(log) + PublishStep(old(Abstract()), p).1 && outputCalls == old(outputCalls)
    {
      ghost var before := log;
      log := log + [Emitted(p)];
      if !p.buffer {
        return;
      }
      var captureMs, arrivalMs := -1, 0;
      if captureTimes != [] {
        captureMs, arrivalMs := captureTimes[0].0, captureTimes[0].1;
        captureTimes := captureTimes[1..];
        if |captureTimes| > DRIFT_LIMIT {
          captureTimes := [];
        }
      }
      if p.width > 0 && p.height > 0 {
        var cropRight, cropBottom := 0, 0;
        if 0 < visibleW <= p.width {
          cropRight := p.width - visibleW;
        }
        if 0 < visibleH <= p.height {
          cropBottom := p.height - visibleH;
        }
        if p.complete {
          publishedFrames := publishedFrames + 1;
          log := log + [Published(Shown(captureMs, arrivalMs, p.width, p.height, cropRight, cropBottom))];
        }
      }
    }

    /**
    The loop over ProcessOutput.  The answers are endless, and the loop stops
    only because one of them ends it; it stops at the first such answer.
    */
    method DrainOutput(answers: nat -> Output, ghost stop: nat) returns (ok: bool, ghost calls: nat)
      requires !LoopsOn(answers(stop))
      modifies this
      ensures 0 < calls <= stop + 1 && !LoopsOn(answers(calls - 1))
      ensures forall k: nat | k < calls - 1 :: LoopsOn(answers(k))
      ensures var r := Drain(old(Abstract()), Upto(answers, 0, calls));
              ok == r.0 && Abstract() == r.1 && log == old(log) + r.2
      ensures outputCalls == old(outputCalls) + calls
    {
      calls := FirstStop(answers, 0, stop);
      ghost var all := Drained(log, Abstract(), Upto(answers, 0, calls));
      var i := 0;
      while true
        invariant 0 <= i < calls && outputCalls == old(outputCalls) + i
        invariant Drained(log, Abstract(), Upto(answers, i, calls)) == all
        decreases calls - i
      {
        ghost var d, before := Abstract(), log;
        outputCalls := outputCalls + 1;
        if !LoopsOn(answers(i)) {
          StopsHere(before, d, answers, i, calls);
        }
        match answers(i) {
          case NeedMoreInput => return true, calls;
          case NoSample => return true, calls;
          case StreamChange(nv12) =>
            if !nv12 {
              return false, calls;
            }
            ChangeOn(before, d, answers, i, calls);
          case OutputFailed => return false, calls;
          case Decoded(p) =>
            PublishNv12(p);
            framesDecoded := framesDecoded + 1;
            PictureOn(before, d, answers, i, calls);
        }
        i := i + 1;
      }
    }

    /** The same for answers listed up to the last one that matters. */
    method DrainListed(outputs: seq<Output>) returns (ok: bool)
      modifies this
      ensures var r := Drain(old(Abstract()), outputs);
              ok == r.0 && Abstract() == r.1 && log == old(log) + r.2
      ensures outputCalls == old(outputCalls) + DrainCalls(outputs)
    {
      ghost var d := Abstract();
      ghost var calls;
      ok, calls := DrainOutput(Extended(outputs), |outputs|);
      ListedUpTo(d, outputs, calls);
    }

    method TakeUnit(s: VideoSample, o: Oracle) returns (ok: bool)
      modifies this
      ensures var r := Take(old(Abstract()), s, o);
              ok == r.0 && Abstract() == r.1 && log == old(log) + r.2
      ensures outputCalls == old(outputCalls) + DrainCalls(o.outputs)
    {
      ghost var before := log;
      acceptedUnits := acceptedUnits + 1;
      captureTimes := captureTimes + [(s.captureMs, s.arrivalMs)];
      ghost var d := Abstract();
      log := log + [Taken(s.captureMs, s.arrivalMs)];
      ok := DrainListed(o.outputs);
      ConcatAssoc(before, [Taken(s.captureMs, s.arrivalMs)], Drain(d, o.outputs).2);
    }

    method FeedAccessUnit(s: VideoSample, o: Oracle) returns (ok: bool)
      modifies this
      ensures var r := FeedStep(old(Abstract()), s, o);
              ok == r.0 && Abstract() == r.1 && log == old(log) + r.2
      ensures outputCalls == old(outputCalls) + FeedCalls(old(Abstract()), o)
    {
      ghost var before, d := log, Abstract();
      if !o.alloc {
        assert log == log + [];
        return false;
      }
      log := log + [Fed(s)];
      var hr := o.input;
      if hr == NotAccepting {
        ok := DrainListed(o.drained);
        ghost var r := Drain(d, o.drained);
        ConcatAssoc(before, [Fed(s)], r.2);
        if !ok {
          return false;
        }
        hr := o.retry;
        if hr != Accepted {
          return false;
        }
        ok := TakeUnit(s, o);
        ConcatAssoc(before + [Fed(s)], r.2, Take(r.1, s, o).2);
        ConcatAssoc(before, [Fed(s)], r.2 + Take(r.1, s, o).2);
        return;
      }
      if hr != Accepted {
        return false;
      }
      ok := TakeUnit(s, o);
      ConcatAssoc(before, [Fed(s)], Take(d, s, o).2);
    }

    method FeedOrRecover(s: VideoSample, o: Oracle)
      modifies this
      ensures Abstract() == FeedOrReset(old(Abstract()), s, Sps.SpsSize(s.sps), o).0
      ensures log == old(log) + FeedOrReset(old(Abstract()), s, Sps.SpsSize(s.sps), o).1
      ensures outputCalls == old(outputCalls) + FeedCalls(WithVisible(old(Abstract()), s, Sps.SpsSize(s.sps)), o)
    {
      ghost var before := log;
      if s.isKeyframe && s.sps != [] {
        var visible := Sps.ParseSpsDimensions(s.sps);
        if visible.Some? {
          visibleW, visibleH := visible.value.width, visible.value.height;
        }
      }
      ghost var v := Abstract();
      var ok := FeedAccessUnit(s, o);
      if !ok {
        ghost var fed := FeedStep(v, s, o).2;
        decoderErrors := decoderErrors + 1;
        log := log + [FeedFailed];
        ResetMft();
        assert log == before + fed + [FeedFailed, Reset];
        ghost var d := Abstract();
        RequestKeyframe(o.now);
        ConcatAssoc(before + fed, [FeedFailed, Reset], Ask(d, o.now).1);
        ConcatAssoc(before, fed, [FeedFailed, Reset] + Ask(d, o.now).1);
      }
    }

    method SetUpAndFeed(s: VideoSample, o: Oracle)
      modifies this
      ensures Abstract() == BuildAndFeed(old(Abstract()), s, Sps.SpsSize(s.sps), o).0
      ensures log == old(log) + BuildAndFeed(old(Abstract()), s, Sps.SpsSize(s.sps), o).1
      ensures var built := old(Abstract()).(ready := true, lastSps := s.sps, lastPps := s.pps);
              outputCalls == old(outputCalls) +
                             (if o.setup then FeedCalls(WithVisible(built, s, Sps.SpsSize(s.sps)), o) else 0)
    {
      ghost var before := log;
      if o.setup {
        mftReady := true;
        lastSps, lastPps := s.sps, s.pps;
        rebuilds := rebuilds + 1;
        log := log + [Built(s.sps, s.pps)];
        ghost var d := Abstract();
        FeedOrRecover(s, o);
        ConcatAssoc(before, [Built(s.sps, s.pps)], FeedOrReset(d, s, Sps.SpsSize(s.sps), o).1);
      } else {
        RequestKeyframe(o.now);
      }
    }

    method Submit(s: VideoSample, o: Oracle)
      modifies this
      ensures Abstract() == SubmitStep(old(Abstract()), s, Sps.SpsSize(s.sps), o).0
      ensures log == old(log) + SubmitStep(old(Abstract()), s, Sps.SpsSize(s.sps), o).1
      ensures outputCalls == old(outputCalls) + SubmitCalls(old(Abstract()), s, Sps.SpsSize(s.sps), o)
    {
      ghost var before := log;
      samplesSubmitted := samplesSubmitted + 1;
      if s.annexb == [] {
        assert log == log + [];
        return;
      }
      if !mftReady {
        if s.isKeyframe {
          SetUpAndFeed(s, o);
        } else {
          RequestKeyframe(o.now);
        }
        return;
      }
      var spsChanged := s.sps != [] && s.sps != lastSps;
      var ppsChanged := s.pps != [] && s.pps != lastPps;
      if (spsChanged || ppsChanged) && s.isKeyframe {
        ResetMft();
        ghost var d := Abstract();
        SetUpAndFeed(s, o);
        ConcatAssoc(before, [Reset], BuildAndFeed(d, s, Sps.SpsSize(s.sps), o).1);
        return;
      }
      FeedOrRecover(s, o);
    }
  }
}
