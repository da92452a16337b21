/**
Sending control messages (net/session.cpp, SendControl).  The send mutex makes
every call one step, so what all threads send is one sequence of calls.
*/
module ControlSender {
  import opened Bytes
  import opened Framing

  datatype State = State(closed: bool, sent: seq<byte>)

  /** How far the send loop gets from `total` when its sends return `results`; sends fail from there on. */
  function SendFrom(size: nat, total: nat, results: seq<int>): (end: nat)
    requires total <= size
    ensures total <= end <= size
    decreases |results|
  {
    if total == size || results == [] || results[0] <= 0 then total
    else SendFrom(size, Min(total + results[0], size), results[1..])
  }

  function SendStep(s: State, payload: seq<byte>, results: seq<int>): (State, bool) {
    if s.closed then (s, false)
    else
      var wire := Encode(payload);
      var end := SendFrom(|wire|, 0, results);
      (State(end < |wire|, s.sent + wire[..end]), end == |wire|)
  }

  class Sender {
    var closed: bool
    var sent: seq<byte>

    ghost function Value(): State
      reads this
    {
      State(closed, sent)
    }

    constructor ()
      ensures Value() == State(false, [])
    {
      closed, sent := false, [];
    }

    method Close()
      modifies this
      ensures Value() == State(true, old(sent))
    {
      closed := true;
    }

    method SendControl(payload: seq<byte>, results: seq<int>) returns (ok: bool)
      modifies this
      ensures (Value(), ok) == SendStep(old(Value()), payload, results)
    {
      var frame := EncodeFrame(payload);
      ghost var wire := Encode(payload);
      if closed {
        return false;
      }
      var total, k := 0, 0;
      ghost var before := sent;
      assert before + wire[..0] == before;
      while total < frame.Length
        invariant frame[..] == wire && 0 <= total <= |wire| && 0 <= k <= |results|
        invariant sent == before + wire[..total] && !closed
        invariant SendFrom(|wire|, total, results[k..]) == SendFrom(|wire|, 0, results)
        decreases |results| - k
      {
        if k == |results| || results[k] <= 0 {
          Close();
          return false;
        }
        var n := Min(results[k], frame.Length - total);
        assert results[k..][1..] == results[k + 1..];
        assert wire[..total] + wire[total..total + n] == wire[..total + n];
        ConcatAssoc(before, wire[..total], wire[total..total + n]);
        sent := sent + frame[total..total + n];
        total := total + n;
        k := k + 1;
      }
      return true;
    }
  }

  // ----- Runs -------------------------------------------------------------------------

  datatype Call = Send(payload: seq<byte>, results: seq<int>) | Close

  function Apply(s: State, c: Call): (State, bool) {
    match c
    case Send(payload, results) => SendStep(s, payload, results)
    case Close => (s.(closed := true), false)
  }

  function Exec(s: State, calls: seq<Call>): State
    decreases |calls|
  {
    if calls == [] then s else Exec(Apply(s, calls[0]).0, calls[1..])
  }

  /** The payloads of the calls that returned true, in call order. */
  function Reported(s: State, calls: seq<Call>): seq<seq<byte>>
    decreases |calls|
  {
    if calls == [] then []
    else
      var (s', ok) := Apply(s, calls[0]);
      (if ok && calls[0].Send? then [calls[0].payload] else []) + Reported(s', calls[1..])
  }

  ghost predicate SendableCalls(calls: seq<Call>) {
    forall k | 0 <= k < |calls| && calls[k].Send? :: |calls[k].payload| <= MAX_FRAME_SIZE
  }

  /** A frame that was cut off carries no payload yet. */
  lemma CutFrame(p: seq<byte>, end: nat)
    requires |p| <= MAX_FRAME_SIZE && end < |Encode(p)|
    ensures var t := Encode(p)[..end]; SplitStream(t) == Split([], t, true)
  {
    var t := Encode(p)[..end];
    if end >= HEADER_SIZE {
      assert t[..HEADER_SIZE] == Int32BE(|p|);
      HeaderRead(|p|, []);
      assert (Int32BE(|p|) + [])[..HEADER_SIZE] == Int32BE(|p|);
    }
  }

  lemma {:induction false} ClosedSendsNothing(s: State, calls: seq<Call>)
    requires s.closed
    ensures Exec(s, calls) == s && Reported(s, calls) == []
    decreases |calls|
  {
    if calls != [] {
      ClosedSendsNothing(s, calls[1..]);
    }
  }

  /**
  Over all calls of all threads the peer finds exactly the payloads of the
  calls that returned true, in order: partial sends do not show, and after a
  failed one nothing more is sent.
  */
  lemma {:induction false} PeerGetsReported(s: State, calls: seq<Call>, done: seq<seq<byte>>)
    requires SendableCalls(calls) && Sendable(done)
    requires s.sent == Wire(done) && !s.closed
    ensures var sent := Exec(s, calls).sent;
            SplitStream(sent).frames == done + Reported(s, calls) && SplitStream(sent).valid
    ensures !Exec(s, calls).closed ==> Exec(s, calls).sent == Wire(done + Reported(s, calls))
    decreases |calls|
  {
    if calls == [] {
      assert done + [] == done;
      WholeWire(done, []);
    } else {
      var (s', ok) := Apply(s, calls[0]);
      var rest := calls[1..];
      if calls[0].Close? {
        ClosedSendsNothing(s', rest);
        WholeWire(done, []);
        assert done + [] == done;
      } else {
        var p := calls[0].payload;
        if ok {
          assert Encode(p)[..|Encode(p)|] == Encode(p);
          WireSnoc(done, p);
          PeerGetsReported(s', rest, done + [p]);
          ConcatAssoc(done, [p], Reported(s', rest));
        } else {
          ClosedSendsNothing(s', rest);
          var end := SendFrom(|Encode(p)|, 0, calls[0].results);
          CutFrame(p, end);
          WholeWire(done, Encode(p)[..end]);
          assert done + [] == done;
        }
      }
    }
  }

  lemma {:induction false} WholeWire(done: seq<seq<byte>>, t: seq<byte>)
    requires Sendable(done) && SplitStream(t) == Split([], t, true)
    ensures SplitStream(Wire(done) + t) == Split(done, t, true)
    ensures t == [] ==> Wire(done) + t == Wire(done)
  {
    SplitInvertsWire(done, t);
    assert done + [] == done;
  }

  /** The sends take in the whole of n bytes before one of them fails. */
  predicate TakeAll(n: int, results: seq<int>)
    decreases |results|
  {
    n <= 0 || (results != [] && results[0] > 0 && TakeAll(n - results[0], results[1..]))
  }

  lemma {:induction false} SendsAllIff(size: nat, total: nat, results: seq<int>)
    requires total <= size
    ensures SendFrom(size, total, results) == size <==> TakeAll(size - total, results)
    decreases |results|
  {
    if total < size && results != [] && results[0] > 0 {
      var next := Min(total + results[0], size);
      SendsAllIff(size, next, results[1..]);
      if total + results[0] > size {
        Enough(size - total - results[0], size - next, results[1..]);
      }
    }
  }

  lemma Enough(a: int, b: int, results: seq<int>)
    requires a <= 0 && b <= 0
    ensures TakeAll(a, results) && TakeAll(b, results)
  {
  }

  /** A call succeeds exactly when the session is open and the sends take the payload and its four bytes of length. */
  lemma SentIff(s: State, payload: seq<byte>, results: seq<int>)
    ensures var (s', ok) := SendStep(s, payload, results);
            && (ok <==> !s.closed && TakeAll(4 + |payload|, results))
            && (ok ==> !s'.closed && s'.sent == s.sent + Encode(payload))
            && (!ok ==> s'.closed)
  {
    var wire := Encode(payload);
    SendsAllIff(|wire|, 0, results);
    assert wire[..|wire|] == wire;
  }
}
