/**
One receiver connection (net/session.cpp): what the read loop hands to its
callbacks for a given history of recv results and clock readings.
*/
module Session {
  import opened Bytes
  import opened FrameBuffer
  import opened Framing
  import opened AnnexB
  import Control
  import Demux

  const LIVENESS_TIMEOUT_MS := 5000
  const PING_INTERVAL_MS := 2000

  datatype VideoSample = VideoSample(annexb: seq<byte>, sps: seq<byte>, pps: seq<byte>, captureMs: int,
                                     sendMs: int, arrivalMs: int, isKeyframe: bool)

  datatype Event =
    | OnControl(msg: Control.Message)
    | OnVideo(sample: VideoSample)
    | SentPing(now: int)
    | OnClosed(clean: bool)

  // ----- One payload ------------------------------------------------------------------

  function SampleOf(f: VideoFrame, arrivalMs: int): VideoSample {
    VideoSample(Serialize(Ordered(f)), f.sps, f.pps, f.captureMs, f.sendMs, arrivalMs, f.IsKeyframe())
  }

  function Dispatch(payload: seq<byte>, arrivalMs: int): seq<Event> {
    if Demux.IsControlJson(payload) then
      (match Control.ParseControlMessage(payload)
       case Some(msg) => [OnControl(msg)]
       case None => [])
    else
      var f := Parse(payload);
      if f.IsEmpty() then [] else [OnVideo(SampleOf(f, arrivalMs))]
  }

  /** The callbacks of the payloads in order, with the clock read for each. */
  function HandedOn(payloads: seq<seq<byte>>, clock: nat -> int): seq<Event> {
    if payloads == [] then []
    else
      var n := |payloads| - 1;
      HandedOn(payloads[..n], clock) + Dispatch(payloads[n], clock(n))
  }

  lemma HandedNext(payloads: seq<seq<byte>>, i: nat, clock: nat -> int)
    requires i < |payloads|
    ensures HandedOn(payloads[..i + 1], clock) == HandedOn(payloads[..i], clock) + Dispatch(payloads[i], clock(i))
  {
    assert payloads[..i + 1][..i] == payloads[..i];
  }

  // ----- The read loop ------------------------------------------------------------------

  /** What recv returned: data, the end of the stream, a timeout, or another error. */
  datatype Recv = Data(bytes: seq<byte>) | Eof | Timeout | Failure

  /**
  One turn of the loop: the closed flag it saw, recv's result, the clock after
  recv, the clock when data was noted, and the clock as each frame was handed on.
  */
  datatype Turn = Turn(closed: bool, recv: Recv, now: int, dataNow: int, arrival: nat -> int)

  datatype State = State(rest: seq<byte>, lastDataMs: int, lastPingMs: int)

  function PingIfDue(st: State, now: int): seq<Event> {
    if now - st.lastPingMs >= PING_INTERVAL_MS then [SentPing(now)] else []
  }

  function Pinged(st: State, now: int): State {
    if now - st.lastPingMs >= PING_INTERVAL_MS then st.(lastPingMs := now) else st
  }

  /** Everything the loop does over a history, ending with OnClosed when it stops. */
  function Run(st: State, turns: seq<Turn>): seq<Event>
    decreases |turns|
  {
    if turns == [] then []
    else
      var t := turns[0];
      if t.closed then [OnClosed(true)]
      else if t.now - st.lastDataMs > LIVENESS_TIMEOUT_MS then [OnClosed(false)]
      else
        var pings := PingIfDue(st, t.now);
        var st' := Pinged(st, t.now);
        match t.recv
        case Data(bytes) =>
          var r := SplitStream(st.rest + bytes);
          if !r.valid then pings + [OnClosed(false)]
          else
            pings + (HandedOn(Delivered(st.rest + bytes), t.arrival) +
                     Run(st'.(rest := r.rest, lastDataMs := t.dataNow), turns[1..]))
        case Eof => pings + [OnClosed(true)]
        case Timeout => pings + Run(st', turns[1..])
        case Failure => pings + [OnClosed(false)]
  }

  /** recv never returns data of length 0: that is the end of the stream. */
  ghost predicate RealTurns(turns: seq<Turn>) {
    forall k | 0 <= k < |turns| :: turns[k].recv.Data? ==> turns[k].recv.bytes != []
  }

  // One turn of `Run`, by what ends or continues it; `log` is what was reported before.

  lemma ClosedRun(st: State, t: Turn, later: seq<Turn>)
    requires t.closed
    ensures Run(st, [t] + later) == [OnClosed(true)]
  {
  }

  lemma LateRun(st: State, t: Turn, later: seq<Turn>)
    requires !t.closed && t.now - st.lastDataMs > LIVENESS_TIMEOUT_MS
    ensures Run(st, [t] + later) == [OnClosed(false)]
  {
  }

  lemma EndingRun(log: seq<Event>, st: State, t: Turn, later: seq<Turn>)
    requires !t.closed && t.now - st.lastDataMs <= LIVENESS_TIMEOUT_MS
    requires !t.recv.Timeout? && (t.recv.Data? ==> !SplitStream(st.rest + t.recv.bytes).valid)
    ensures log + Run(st, [t] + later) == log + PingIfDue(st, t.now) + [OnClosed(t.recv.Eof?)]
  {
    assert ([t] + later)[0] == t;
    ConcatAssoc(log, PingIfDue(st, t.now), [OnClosed(t.recv.Eof?)]);
  }

  lemma QuietRun(log: seq<Event>, st: State, t: Turn, later: seq<Turn>)
    requires !t.closed && t.now - st.lastDataMs <= LIVENESS_TIMEOUT_MS && t.recv.Timeout?
    ensures log + Run(st, [t] + later) ==
            log + PingIfDue(st, t.now) + Run(Pinged(st, t.now), later)
  {
    assert ([t] + later)[0] == t && ([t] + later)[1..] == later;
    ConcatAssoc(log, PingIfDue(st, t.now), Run(Pinged(st, t.now), later));
  }

  lemma DataRun(log: seq<Event>, st: State, t: Turn, later: seq<Turn>)
    requires !t.closed && t.now - st.lastDataMs <= LIVENESS_TIMEOUT_MS && t.recv.Data?
    requires SplitStream(st.rest + t.recv.bytes).valid
    ensures var s := st.rest + t.recv.bytes;
            var st' := Pinged(st, t.now).(rest := SplitStream(s).rest, lastDataMs := t.dataNow);
            log + Run(st, [t] + later) ==
            log + PingIfDue(st, t.now) + HandedOn(Delivered(s), t.arrival) + Run(st', later)
  {
    var s := st.rest + t.recv.bytes;
    var st' := Pinged(st, t.now).(rest := SplitStream(s).rest, lastDataMs := t.dataNow);
    var pings, events := PingIfDue(st, t.now), HandedOn(Delivered(s), t.arrival);
    assert ([t] + later)[0] == t && ([t] + later)[1..] == later;
    assert Run(st, [t] + later) == pings + (events + Run(st', later));
    ConcatFour(log, pings, events, Run(st', later));
  }

  lemma ConcatFour(a: seq<Event>, b: seq<Event>, c: seq<Event>, d: seq<Event>)
    ensures a + (b + (c + d)) == a + b + c + d
  {
    ConcatAssoc(a, b, c + d);
    ConcatAssoc(a + b, c, d);
  }

  class Session {
    const decoder: FrameDecoder
    var lastDataMs: int
    var lastPingMs: int
    var framesReceived: nat
    var bytesReceived: nat

    ghost predicate Valid()
      reads this, decoder, decoder.buffer
    {
      decoder.Valid()
    }

    ghost function Abstract(): State
      reads this, decoder, decoder.buffer
      requires Valid()
    {
      State(decoder.Contents(), lastDataMs, lastPingMs)
    }

    constructor (now: int)
      ensures Valid() && Abstract() == State([], now, now)
      ensures fresh(decoder) && fresh(decoder.buffer)
    {
      decoder := new FrameDecoder();
      lastDataMs, lastPingMs := now, now;
      framesReceived, bytesReceived := 0, 0;
    }

    method ReadLoop(turns: seq<Turn>) returns (log: seq<Event>)
      requires Valid() && RealTurns(turns)
      modifies this, decoder, decoder.buffer
      ensures log == Run(old(Abstract()), turns)
    {
      log := [];
      ghost var st := Abstract();
      ghost var all := Run(st, turns);
      assert log + all == all && turns[0..] == turns;
      var i := 0;
      while i < |turns|
        invariant 0 <= i <= |turns|
        invariant Valid() && (decoder.buffer == old(decoder.buffer) || fresh(decoder.buffer))
        invariant st == Abstract() && log + Run(st, turns[i..]) == all
      {
        var t := turns[i];
        ghost var before, later := log, turns[i + 1..];
        assert turns[i..] == [t] + later;
        if t.closed {
          log := log + [OnClosed(true)];
          ClosedRun(st, t, later);
          return;
        }
        if t.now - lastDataMs > LIVENESS_TIMEOUT_MS {
          log := log + [OnClosed(false)];
          LateRun(st, t, later);
          return;
        }
        if t.now - lastPingMs >= PING_INTERVAL_MS {
          lastPingMs := t.now;
          log := log + [SentPing(t.now)];
        }
        assert log == before + PingIfDue(st, t.now) && Abstract() == Pinged(st, t.now);
        match t.recv {
          case Data(bytes) =>
            var events, valid := TakeData(bytes, t.dataNow, t.arrival);
            if !valid {
              log := log + [OnClosed(false)];
              EndingRun(before, st, t, later);
              return;
            }
            log := log + events;
            DataRun(before, st, t, later);
            st := Pinged(st, t.now).(rest := SplitStream(st.rest + bytes).rest, lastDataMs := t.dataNow);
          case Eof =>
            log := log + [OnClosed(true)];
            EndingRun(before, st, t, later);
            return;
          case Timeout =>
            QuietRun(before, st, t, later);
            st := Pinged(st, t.now);
          case Failure =>
            log := log + [OnClosed(false)];
            EndingRun(before, st, t, later);
            return;
        }
        i := i + 1;
      }
      assert turns[i..] == [] && log + [] == log;
    }

    /** Notes the data, feeds it to the decoder and hands on what the decoder shows. */
    method TakeData(bytes: seq<byte>, dataNow: int, clock: nat -> int) returns (log: seq<Event>, valid: bool)
      requires Valid() && bytes != []
      modifies this, decoder, decoder.buffer
      ensures Valid() && (decoder.buffer == old(decoder.buffer) || fresh(decoder.buffer))
      ensures var s := old(decoder.Contents()) + bytes;
              valid == SplitStream(s).valid &&
              (valid ==> log == HandedOn(Delivered(s), clock) &&
                         Abstract() == State(SplitStream(s).rest, dataNow, old(lastPingMs)))
    {
      log := [];
      ghost var s := decoder.Contents() + bytes;
      lastDataMs := dataNow;
      bytesReceived := bytesReceived + |bytes|;
      var frames;
      frames, valid := decoder.Feed(bytes);
      if valid {
        log := HandFrames(frames, clock, s);
      }
    }

    /** Demultiplexes the payloads the decoder's views show. */
    method HandFrames(frames: seq<Span>, clock: nat -> int, ghost s: seq<byte>) returns (log: seq<Event>)
      requires Valid() && |s| <= decoder.buffer.Length
      requires frames == Spans(SplitStream(s).frames) && decoder.buffer[..|s|] == Compacted(s)
      modifies `framesReceived
      ensures log == HandedOn(Delivered(s), clock)
    {
      log := [];
      ghost var payloads, shown := Delivered(s), decoder.buffer[..];
      var i := 0;
      while i < |frames|
        invariant 0 <= i <= |frames| == |payloads| && shown == decoder.buffer[..]
        invariant log == HandedOn(payloads[..i], clock)
      {
        DeliveredAt(s, i, shown);
        var payload := decoder.buffer[frames[i].offset..frames[i].offset + frames[i].length];
        assert payload == payloads[i];
        var events := HandPayload(payload, clock(i));
        log := log + events;
        HandedNext(payloads, i, clock);
        i := i + 1;
      }
      assert payloads[..i] == payloads;
    }

    method HandPayload(payload: seq<byte>, arrivalMs: int) returns (events: seq<Event>)
      modifies `framesReceived
      ensures events == Dispatch(payload, arrivalMs)
    {
      if Demux.IsControlJson(payload) {
        var msg := Control.ParseControlMessage(payload);
        if msg.Some? {
          return [OnControl(msg.value)];
        }
        return [];
      }
      var vf := ParseAnnexB(payload);
      if vf.IsEmpty() {
        return [];
      }
      framesReceived := framesReceived + 1;
      var sample := MakeSample(vf, arrivalMs);
      events := [OnVideo(sample)];
    }
  }

  lemma {:induction false} DeliveredAt(s: seq<byte>, i: nat, buffer: seq<byte>)
    requires i < |SplitStream(s).frames|
    requires |s| <= |buffer| && buffer[..|s|] == Compacted(s)
    ensures var v := Spans(SplitStream(s).frames)[i];
            v.offset + v.length <= |s| && buffer[v.offset..v.offset + v.length] == Delivered(s)[i]
  {
    SpansInRange(s);
    var v := Spans(SplitStream(s).frames)[i];
    SliceOfPrefix(buffer, |s|, v.offset, v.offset + v.length);
    assert Delivered(s)[i] == Compacted(s)[v.offset..v.offset + v.length];
  }

  lemma SliceOfPrefix(buffer: seq<byte>, n: nat, from: nat, to: nat)
    requires from <= to <= n <= |buffer|
    ensures buffer[..n][from..to] == buffer[from..to]
  {
  }

  /** Re-serialises a frame with four-byte start codes. */
  method MakeSample(vf: VideoFrame, arrivalMs: int) returns (sample: VideoSample)
    ensures sample == SampleOf(vf, arrivalMs)
  {
    var annexb: seq<byte> := [];
    if vf.sps != [] {
      annexb := annexb + START_CODE + vf.sps;
    }
    if vf.pps != [] {
      annexb := annexb + START_CODE + vf.pps;
    }
    ghost var head := IfPresent(vf.sps) + IfPresent(vf.pps);
    SerializeHead(vf.sps, vf.pps);
    SerializeNone(head, vf.slices);
    var i := 0;
    while i < |vf.slices|
      invariant 0 <= i <= |vf.slices|
      invariant annexb == Serialize(head + vf.slices[..i])
    {
      annexb := annexb + START_CODE + vf.slices[i];
      SerializeNext(head, vf.slices, i);
      i := i + 1;
    }
    assert vf.slices[..|vf.slices|] == vf.slices;
    var key := IsKeyframe(vf);
    sample := VideoSample(annexb, vf.sps, vf.pps, vf.captureMs, vf.sendMs, arrivalMs, key);
  }

  lemma SerializeHead(sps: seq<byte>, pps: seq<byte>)
    ensures Serialize(IfPresent(sps) + IfPresent(pps)) ==
            (if sps == [] then [] else [] + START_CODE + sps) + (if pps == [] then [] else START_CODE + pps)
    ensures pps != [] ==>
            (if sps == [] then [] else [] + START_CODE + sps) + (START_CODE + pps) ==
            (if sps == [] then [] else [] + START_CODE + sps) + START_CODE + pps
  {
    var first := if sps == [] then [] else [] + START_CODE + sps;
    assert [] + START_CODE == START_CODE;
    SerializeAppend(IfPresent(sps), IfPresent(pps));
    SerializeOptional(sps);
    SerializeOptional(pps);
    ConcatAssoc(first, START_CODE, pps);
  }

  lemma SerializeNone(head: seq<seq<byte>>, slices: seq<seq<byte>>)
    ensures Serialize(head + slices[..0]) == Serialize(head)
  {
    assert head + slices[..0] == head;
  }

  lemma SerializeNext(head: seq<seq<byte>>, slices: seq<seq<byte>>, i: nat)
    requires i < |slices|
    ensures Serialize(head + slices[..i + 1]) == Serialize(head + slices[..i]) + START_CODE + slices[i]
  {
    assert head + slices[..i + 1] == head + slices[..i] + [slices[i]];
    SerializeSnoc(head + slices[..i], slices[i]);
  }

  lemma SerializeOptional(nalu: seq<byte>)
    ensures Serialize(IfPresent(nalu)) == if nalu == [] then [] else START_CODE + nalu
  {
    if nalu != [] {
      assert IfPresent(nalu)[1..] == [];
    }
  }

  lemma SerializeSnoc(a: seq<seq<byte>>, x: seq<byte>)
    ensures Serialize(a + [x]) == Serialize(a) + START_CODE + x
  {
    SerializeAppend(a, [x]);
    assert [x][1..] == [];
    ConcatAssoc(Serialize(a), START_CODE, x);
  }
}
