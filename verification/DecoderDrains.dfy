/**
How often the decoder calls ProcessOutput (video/h264_decoder.cpp).  The loop has
no bound of its own; what bounds it is that a transform cannot give more pictures
than it has accepted units.
*/
module DecoderDrains {
  import opened Bytes
  import opened Decoder
  import Sps

  /** Units accepted and not yet answered by a picture, for the transform of the moment. */
  function Next(n: int, e: Event): int {
    match e
    case Taken(_, _) => n + 1
    case Emitted(_) => n - 1
    case Built(_, _) => 0
    case Reset => 0
    case _ => n
  }

  function Unanswered(n: int, log: seq<Event>): int
    decreases |log|
  {
    if log == [] then n else Unanswered(Next(n, log[0]), log[1..])
  }

  /** At no moment has the transform given more pictures than it accepted units. */
  ghost predicate Answering(n: int, log: seq<Event>)
    decreases |log|
  {
    n >= 0 && (log == [] || Answering(Next(n, log[0]), log[1..]))
  }

  lemma {:induction false} AnsweringAppend(n: int, a: seq<Event>, b: seq<Event>)
    ensures Unanswered(n, a + b) == Unanswered(Unanswered(n, a), b)
    ensures Answering(n, a + b) <==> Answering(n, a) && Answering(Unanswered(n, a), b)
    decreases |a|
  {
    if a == [] {
      assert a + b == b;
    } else {
      assert (a + b)[0] == a[0] && (a + b)[1..] == a[1..] + b;
      AnsweringAppend(Next(n, a[0]), a[1..], b);
    }
  }

  lemma AnsweringOne(n: int, e: Event)
    ensures Unanswered(n, [e]) == Next(n, e)
    ensures Answering(n, [e]) <==> n >= 0 && Next(n, e) >= 0
  {
    assert [e][1..] == [];
  }

  // ----- One drain ----------------------------------------------------------------------------

  /** Format changes and pictures behind which the loop goes on. */
  function ChangesIn(outputs: seq<Output>): nat {
    if outputs == [] || !LoopsOn(outputs[0]) then 0
    else (if outputs[0].StreamChange? then 1 else 0) + ChangesIn(outputs[1..])
  }

  function PicturesIn(outputs: seq<Output>): nat {
    if outputs == [] || !LoopsOn(outputs[0]) then 0
    else (if outputs[0].Decoded? then 1 else 0) + PicturesIn(outputs[1..])
  }

  lemma {:induction false} CallsSplit(outputs: seq<Output>)
    ensures DrainCalls(outputs) == ChangesIn(outputs) + PicturesIn(outputs) + 1
    decreases |outputs|
  {
    if outputs != [] && LoopsOn(outputs[0]) {
      CallsSplit(outputs[1..]);
    }
  }

  lemma PublishBalance(n: int, d: State, p: Picture)
    ensures Unanswered(n, PublishStep(d, p).1) == n - 1
    ensures Answering(n, PublishStep(d, p).1) ==> n >= 1
  {
    var log := PublishStep(d, p).1;
    var shown := log[1..];
    assert log == [Emitted(p)] + shown;
    AnsweringAppend(n, [Emitted(p)], shown);
    AnsweringOne(n, Emitted(p));
    if shown != [] {
      assert shown == [shown[0]];
      AnsweringOne(n - 1, shown[0]);
    }
  }

  lemma {:induction false} DrainBalance(n: int, d: State, outputs: seq<Output>)
    ensures Unanswered(n, Drain(d, outputs).2) == n - PicturesIn(outputs)
    ensures Answering(n, Drain(d, outputs).2) ==> PicturesIn(outputs) <= n
    decreases |outputs|
  {
    if outputs != [] {
      if outputs[0].Decoded? {
        var (d', shown) := PublishStep(d, outputs[0].picture);
        PublishBalance(n, d, outputs[0].picture);
        AnsweringAppend(n, shown, Drain(d', outputs[1..]).2);
        DrainBalance(n - 1, d', outputs[1..]);
      } else if LoopsOn(outputs[0]) {
        DrainBalance(n, d, outputs[1..]);
      }
    }
  }

  // ----- The loop stops -------------------------------------------------------------------------

  /** How many of the first `n` answers change the format. */
  function Changes(answers: nat -> Output, n: nat): (c: nat)
    ensures c <= n
  {
    if n == 0 then 0 else Changes(answers, n - 1) + (if answers(n - 1).StreamChange? then 1 else 0)
  }

  lemma {:induction false} ChangesBounded(answers: nat -> Output, from: nat, n: nat)
    requires forall i: nat | i >= from :: !answers(i).StreamChange?
    ensures Changes(answers, n) <= Changes(answers, from)
    decreases if n > from then n - from else from - n
  {
    if n > from {
      ChangesBounded(answers, from, n - 1);
    } else if n < from {
      ChangesBounded(answers, from, n + 1);
    }
  }

  /** Of answers that all keep the loop going, each is a change or a picture. */
  ghost predicate Counted(answers: nat -> Output, i: nat, n: nat, v: seq<Output>) {
    && ChangesIn(v) + PicturesIn(v) == n - i
    && ChangesIn(v) == Changes(answers, n) - Changes(answers, i)
  }

  lemma {:induction false} AllLoop(answers: nat -> Output, i: nat, n: nat)
    requires i <= n && forall k: nat | k < n :: LoopsOn(answers(k))
    ensures Counted(answers, i, n, Upto(answers, i, n))
    decreases n - i
  {
    if i < n {
      UptoFirst(answers, i, n);
      AllLoop(answers, i + 1, n);
      OneMoreLoops(answers, i, n, Upto(answers, i, n));
    }
  }

  lemma OneMoreLoops(answers: nat -> Output, i: nat, n: nat, v: seq<Output>)
    requires i < n && v != [] && v[0] == answers(i) && LoopsOn(answers(i))
    requires Counted(answers, i + 1, n, v[1..])
    ensures Counted(answers, i, n, v)
  {
  }

  /**
  With n units unanswered and no format change from answer `from` on, a transform
  that never gives more pictures than it accepted ends the loop after no more
  answers than there are such units and changes.
  */
  lemma {:induction false} DrainStops(d: State, answers: nat -> Output, from: nat, n: nat) returns (stop: nat)
    requires forall i: nat | i >= from :: !answers(i).StreamChange?
    requires forall k: nat :: Answering(n, Drain(d, Upto(answers, 0, k)).2)
    ensures stop <= Changes(answers, from) + n && !LoopsOn(answers(stop))
  {
    var bound := Changes(answers, from) + n + 1;
    if forall k: nat | k < bound :: LoopsOn(answers(k)) {
      var v := Upto(answers, 0, bound);
      AllLoop(answers, 0, bound);
      ChangesBounded(answers, from, bound);
      DrainBalance(n, d, v);
      assert false;
    } else {
      stop :| stop < bound && !LoopsOn(answers(stop));
    }
  }

  // ----- One Submit -----------------------------------------------------------------------------

  function FeedChanges(d: State, o: Oracle): nat {
    if !o.alloc then 0
    else if o.input == NotAccepting then
      ChangesIn(o.drained) + (if Drain(d, o.drained).0 && o.retry == Accepted then ChangesIn(o.outputs) else 0)
    else if o.input == Accepted then ChangesIn(o.outputs)
    else 0
  }

  lemma TakeBalance(n: int, d: State, s: VideoSample, o: Oracle)
    requires Answering(n, Take(d, s, o).2)
    ensures DrainCalls(o.outputs) + Unanswered(n, Take(d, s, o).2) == ChangesIn(o.outputs) + n + 2
  {
    var taken := Taken(s.captureMs, s.arrivalMs);
    var e := d.(times := d.times + [(s.captureMs, s.arrivalMs)]);
    AnsweringAppend(n, [taken], Drain(e, o.outputs).2);
    AnsweringOne(n, taken);
    DrainBalance(n + 1, e, o.outputs);
    CallsSplit(o.outputs);
  }

  lemma DrainsBalance(n: int, d: State, outputs: seq<Output>)
    requires Answering(n, Drain(d, outputs).2)
    ensures DrainCalls(outputs) + Unanswered(n, Drain(d, outputs).2) == ChangesIn(outputs) + n + 1
  {
    DrainBalance(n, d, outputs);
    CallsSplit(outputs);
  }

  /** Behind a failed first attempt come the drain and, when it helped, the second attempt. */
  lemma RetriedBalance(n: int, d: State, s: VideoSample, o: Oracle)
    requires o.alloc && o.input == NotAccepting && Answering(n, FeedStep(d, s, o).2)
    ensures FeedCalls(d, o) + Unanswered(n, FeedStep(d, s, o).2) <= FeedChanges(d, o) + n + 3
  {
    var (ok, d', drained) := Drain(d, o.drained);
    AnsweringOne(n, Fed(s));
    if ok && o.retry == Accepted {
      var taken := Take(d', s, o).2;
      AnsweringAppend(n, [Fed(s)], drained + taken);
      AnsweringAppend(n, drained, taken);
      DrainsBalance(n, d, o.drained);
      TakeBalance(Unanswered(n, drained), d', s, o);
    } else {
      AnsweringAppend(n, [Fed(s)], drained);
      DrainsBalance(n, d, o.drained);
    }
  }

  /** A feed calls once for each change and each picture, and once more for each of its drains. */
  lemma FeedBalance(n: int, d: State, s: VideoSample, o: Oracle)
    requires Answering(n, FeedStep(d, s, o).2)
    ensures FeedCalls(d, o) + Unanswered(n, FeedStep(d, s, o).2) <= FeedChanges(d, o) + n + 3
  {
    AnsweringOne(n, Fed(s));
    if o.alloc && o.input == NotAccepting {
      RetriedBalance(n, d, s, o);
    } else if o.alloc && o.input == Accepted {
      var taken := Take(d, s, o).2;
      AnsweringAppend(n, [Fed(s)], taken);
      TakeBalance(n, d, s, o);
    }
  }

  lemma {:induction false} EndsAnswering(n: int, log: seq<Event>)
    requires Answering(n, log)
    ensures Unanswered(n, log) >= 0
    decreases |log|
  {
    if log != [] {
      EndsAnswering(Next(n, log[0]), log[1..]);
    }
  }

  lemma AskBalance(n: int, d: State, now: int)
    ensures Unanswered(n, Ask(d, now).1) == n
  {
    AnsweringOne(n, KeyframeAsked(now));
  }

  lemma FeedOrResetBalance(n: int, d: State, s: VideoSample, size: Option<Sps.Dimensions>, o: Oracle)
    requires Answering(n, FeedOrReset(d, s, size, o).1)
    ensures var e := WithVisible(d, s, size);
            FeedCalls(e, o) + Unanswered(n, FeedOrReset(d, s, size, o).1) <= FeedChanges(e, o) + n + 3
  {
    var e := WithVisible(d, s, size);
    var (ok, d', fed) := FeedStep(e, s, o);
    if ok {
      FeedBalance(n, e, s, o);
    } else {
      var asked := Ask(ResetOf(d'), o.now).1;
      AnsweringAppend(n, fed, [FeedFailed, Reset] + asked);
      FeedBalance(n, e, s, o);
      EndsAnswering(n, fed);
      ResetBalance(Unanswered(n, fed), asked);
      AskBalance(0, ResetOf(d'), o.now);
    }
  }

  lemma ResetBalance(n: int, asked: seq<Event>)
    ensures Unanswered(n, [FeedFailed, Reset] + asked) == Unanswered(0, asked)
  {
    AnsweringAppend(n, [FeedFailed, Reset], asked);
    AnsweringAppend(n, [FeedFailed], [Reset]);
    AnsweringOne(n, FeedFailed);
    AnsweringOne(n, Reset);
    assert [FeedFailed] + [Reset] == [FeedFailed, Reset];
  }

  lemma BuildBalance(n: int, d: State, s: VideoSample, size: Option<Sps.Dimensions>, o: Oracle)
    requires Answering(n, BuildAndFeed(d, s, size, o).1)
    ensures var e := WithVisible(d.(ready := true, lastSps := s.sps, lastPps := s.pps), s, size);
            (if o.setup then FeedCalls(e, o) else 0) + Unanswered(n, BuildAndFeed(d, s, size, o).1) <=
            (if o.setup then FeedChanges(e, o) else 0) + n + 3
  {
    if o.setup {
      var built := d.(ready := true, lastSps := s.sps, lastPps := s.pps);
      AnsweringOne(n, Built(s.sps, s.pps));
      AnsweringAppend(n, [Built(s.sps, s.pps)], FeedOrReset(built, s, size, o).1);
      FeedOrResetBalance(0, built, s, size, o);
    } else {
      AskBalance(n, d, o.now);
    }
  }

  function SubmitChanges(d: State, c: Call): nat {
    match Feeding(d, c.sample, c.size, c.oracle)
    case None => 0
    case Some(e) => FeedChanges(e, c.oracle)
  }

  function CallsOf(d: State, c: Call): nat { SubmitCalls(d, c.sample, c.size, c.oracle) }

  /**
  One Submit of a transform with n units unanswered: its calls of ProcessOutput
  and the units unanswered behind it are at most its format changes, n and three.
  */
  lemma SubmitBalance(n: int, d: State, c: Call)
    requires Answering(n, Step(d, c).1)
    ensures CallsOf(d, c) + Unanswered(n, Step(d, c).1) <= SubmitChanges(d, c) + n + 3
  {
    var s, size, o := c.sample, c.size, c.oracle;
    if s.annexb != [] {
      if !d.ready {
        if s.isKeyframe {
          BuildBalance(n, d, s, size, o);
        } else {
          AskBalance(n, d, o.now);
        }
      } else if ParametersChanged(d, s) && s.isKeyframe {
        AnsweringOne(n, Reset);
        AnsweringAppend(n, [Reset], BuildAndFeed(ResetOf(d), s, size, o).1);
        BuildBalance(0, ResetOf(d), s, size, o);
      } else {
        FeedOrResetBalance(n, d, s, size, o);
      }
    }
  }

  // ----- Whole runs -----------------------------------------------------------------------------

  function RunCalls(d: State, calls: seq<Call>): nat
    decreases |calls|
  {
    if calls == [] then 0 else CallsOf(d, calls[0]) + RunCalls(Step(d, calls[0]).0, calls[1..])
  }

  function RunChanges(d: State, calls: seq<Call>): nat
    decreases |calls|
  {
    if calls == [] then 0 else SubmitChanges(d, calls[0]) + RunChanges(Step(d, calls[0]).0, calls[1..])
  }

  lemma {:induction false} RunBalance(n: int, d: State, calls: seq<Call>)
    requires Answering(n, RunAll(d, calls))
    ensures RunCalls(d, calls) + Unanswered(n, RunAll(d, calls)) <= RunChanges(d, calls) + n + 3 * |calls|
    decreases |calls|
  {
    if calls != [] {
      var first, rest := Step(d, calls[0]).1, RunAll(Step(d, calls[0]).0, calls[1..]);
      AnsweringAppend(n, first, rest);
      SubmitBalance(n, d, calls[0]);
      RunBalance(Unanswered(n, first), Step(d, calls[0]).0, calls[1..]);
    }
  }

  /** Over every run of such a transform ProcessOutput is called at most three times a Submit, and once a change. */
  lemma RunCallsBounded(calls: seq<Call>)
    requires Answering(0, RunAll(INITIAL, calls))
    ensures RunCalls(INITIAL, calls) <= RunChanges(INITIAL, calls) + 3 * |calls|
  {
    RunBalance(0, INITIAL, calls);
    EndsAnswering(0, RunAll(INITIAL, calls));
  }
}
