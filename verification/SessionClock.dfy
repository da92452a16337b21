/** Timing of the read loop (net/session.cpp) over every history of a monotone clock. */
module SessionClock {
  import opened Bytes
  import opened FrameBuffer
  import opened Framing
  import opened Session

  /** Clock readings never go back, within a turn or from one turn to the next. */
  ghost predicate Monotone(from: int, turns: seq<Turn>)
    decreases |turns|
  {
    turns == [] ||
    (from <= turns[0].now <= turns[0].dataNow && Monotone(turns[0].dataNow, turns[1..]))
  }

  /** recv returns at most `delta` after the previous return. */
  ghost predicate WakesWithin(from: int, turns: seq<Turn>, delta: nat)
    decreases |turns|
  {
    turns == [] || (turns[0].now <= from + delta && WakesWithin(turns[0].now, turns[1..], delta))
  }

  /** Every arrival of data is observed at most 5000 ms after the previous one was noted. */
  ghost predicate DataWithin(last: int, turns: seq<Turn>)
    decreases |turns|
  {
    turns == [] ||
    (if turns[0].recv.Data? then
       turns[0].now - last <= LIVENESS_TIMEOUT_MS && DataWithin(turns[0].dataNow, turns[1..])
     else DataWithin(last, turns[1..]))
  }

  /** The loop ends a turn for lack of data. */
  ghost predicate TimesOut(st: State, turns: seq<Turn>)
    decreases |turns|
  {
    turns != [] && !turns[0].closed &&
    (turns[0].now - st.lastDataMs > LIVENESS_TIMEOUT_MS ||
     (GoesOn(st, turns[0]) && TimesOut(After(st, turns[0]), turns[1..])))
  }

  /** The loop state after a turn that does not end it. */
  function After(st: State, t: Turn): State {
    var st' := if PingIfDue(st, t.now) == [] then st else st.(lastPingMs := t.now);
    match t.recv
    case Data(bytes) => st'.(rest := SplitStream(st.rest + bytes).rest, lastDataMs := t.dataNow)
    case _ => st'
  }

  predicate GoesOn(st: State, t: Turn) {
    && !t.closed
    && t.now - st.lastDataMs <= LIVENESS_TIMEOUT_MS
    && (match t.recv
        case Data(bytes) => SplitStream(st.rest + bytes).valid
        case Timeout => true
        case _ => false)
  }

  /** A loop that times out reports an unclean close and nothing after it. */
  lemma {:induction false} TimeoutCloses(st: State, turns: seq<Turn>)
    requires TimesOut(st, turns)
    ensures Run(st, turns) != []
    ensures Run(st, turns)[|Run(st, turns)| - 1] == OnClosed(false)
    decreases |turns|
  {
    var t := turns[0];
    if t.now - st.lastDataMs <= LIVENESS_TIMEOUT_MS {
      var r := Run(After(st, t), turns[1..]);
      TimeoutCloses(After(st, t), turns[1..]);
      GoingOn(st, turns);
    }
  }

  /** The callbacks of a turn's data. */
  function Handed(st: State, t: Turn): seq<Event> {
    match t.recv
    case Data(bytes) => HandedOn(Delivered(st.rest + bytes), t.arrival)
    case _ => []
  }

  /** The turn that ends the loop may ping and then closes. */
  lemma LastTurn(st: State, turns: seq<Turn>) returns (pings: seq<Event>, clean: bool)
    requires turns != [] && !GoesOn(st, turns[0])
    ensures Run(st, turns) == pings + [OnClosed(clean)]
    ensures pings == [] || pings == PingIfDue(st, turns[0].now)
  {
    var t := turns[0];
    pings := if t.closed || t.now - st.lastDataMs > LIVENESS_TIMEOUT_MS then [] else PingIfDue(st, t.now);
    clean := t.closed || (t.now - st.lastDataMs <= LIVENESS_TIMEOUT_MS && t.recv.Eof?);
    assert [] + [OnClosed(clean)] == [OnClosed(clean)];
  }

  /** A turn that goes on contributes its ping and its callbacks. */
  lemma GoingOn(st: State, turns: seq<Turn>)
    requires turns != [] && GoesOn(st, turns[0])
    ensures Run(st, turns) ==
            PingIfDue(st, turns[0].now) + (Handed(st, turns[0]) + Run(After(st, turns[0]), turns[1..]))
  {
    if turns[0].recv.Timeout? {
      assert [] + Run(After(st, turns[0]), turns[1..]) == Run(After(st, turns[0]), turns[1..]);
    }
  }

  // ----- Liveness ---------------------------------------------------------------------

  /** Until the next data arrives no turn comes later than that data. */
  lemma {:induction false} NextDataSoon(last: int, from: int, turns: seq<Turn>)
    requires turns != [] && turns[|turns| - 1].recv.Data?
    requires Monotone(from, turns) && DataWithin(last, turns)
    ensures turns[0].now - last <= LIVENESS_TIMEOUT_MS
    decreases |turns|
  {
    if !turns[0].recv.Data? {
      NextDataSoon(last, turns[0].dataNow, turns[1..]);
    }
  }

  /** A session whose data gaps stay within 5000 ms is never dropped for silence. */
  lemma {:induction false} LiveSessionKept(st: State, from: int, turns: seq<Turn>)
    requires turns != [] ==> turns[|turns| - 1].recv.Data?
    requires Monotone(from, turns) && DataWithin(st.lastDataMs, turns)
    ensures !TimesOut(st, turns)
    decreases |turns|
  {
    if turns != [] {
      NextDataSoon(st.lastDataMs, from, turns);
      if GoesOn(st, turns[0]) {
        LiveSessionKept(After(st, turns[0]), turns[0].dataNow, turns[1..]);
      }
    }
  }

  /** Turn k is where the loop ends. */
  ghost predicate EndsAt(st: State, turns: seq<Turn>, k: nat)
    requires k < |turns|
    decreases |turns|
  {
    if GoesOn(st, turns[0]) then k > 0 && EndsAt(After(st, turns[0]), turns[1..], k - 1) else k == 0
  }

  ghost predicate ClosesLast(events: seq<Event>) { events != [] && events[|events| - 1].OnClosed? }

  /** Later turns do not matter to a loop that ended, and its last event is the close. */
  lemma {:induction false} EndIsFinal(st: State, turns: seq<Turn>, k: nat)
    requires k < |turns| && EndsAt(st, turns, k)
    ensures Run(st, turns) == Run(st, turns[..k + 1]) && ClosesLast(Run(st, turns))
    decreases |turns|
  {
    var t := turns[..k + 1];
    assert t[0] == turns[0];
    if GoesOn(st, turns[0]) {
      assert t[1..] == turns[1..][..k];
      EndIsFinal(After(st, turns[0]), turns[1..], k - 1);
      SameTurn(st, turns, t);
      LastEventLater(st, turns);
    } else {
      EndingTurn(st, turns, t);
    }
  }

  lemma EndingTurn(st: State, turns: seq<Turn>, others: seq<Turn>)
    requires turns != [] && others != [] && turns[0] == others[0] && !GoesOn(st, turns[0])
    ensures Run(st, turns) == Run(st, others) && ClosesLast(Run(st, turns))
  {
  }

  lemma SameTurn(st: State, turns: seq<Turn>, others: seq<Turn>)
    requires turns != [] && others != [] && turns[0] == others[0] && GoesOn(st, turns[0])
    requires Run(After(st, turns[0]), turns[1..]) == Run(After(st, turns[0]), others[1..])
    ensures Run(st, turns) == Run(st, others)
  {
    GoingOn(st, turns);
    GoingOn(st, others);
  }

  lemma LastEventLater(st: State, turns: seq<Turn>)
    requires turns != [] && GoesOn(st, turns[0]) && ClosesLast(Run(After(st, turns[0]), turns[1..]))
    ensures ClosesLast(Run(st, turns))
  {
    GoingOn(st, turns);
    LastOf(PingIfDue(st, turns[0].now), Handed(st, turns[0]), Run(After(st, turns[0]), turns[1..]));
  }

  lemma LastOf(a: seq<Event>, b: seq<Event>, c: seq<Event>)
    requires ClosesLast(c)
    ensures ClosesLast(a + (b + c))
  {
  }

  /**
  A session that receives nothing more ends, whatever else recv returns, at a
  turn no later than 5000 ms plus one wake-up after its last data.
  */
  lemma {:induction false} SilentSessionEnds(st: State, from: int, turns: seq<Turn>, delta: nat) returns (k: nat)
    requires forall i | 0 <= i < |turns| :: !turns[i].recv.Data?
    requires turns != [] && turns[|turns| - 1].now > st.lastDataMs + LIVENESS_TIMEOUT_MS
    requires from <= st.lastDataMs + LIVENESS_TIMEOUT_MS && WakesWithin(from, turns, delta)
    ensures k < |turns| && EndsAt(st, turns, k)
    ensures turns[k].now <= st.lastDataMs + LIVENESS_TIMEOUT_MS + delta
    decreases |turns|
  {
    if GoesOn(st, turns[0]) {
      var m := SilentSessionEnds(After(st, turns[0]), turns[0].now, turns[1..], delta);
      k := m + 1;
    } else {
      k := 0;
    }
  }

  // ----- Pings ------------------------------------------------------------------------

  function PingTimes(events: seq<Event>): seq<int> {
    if events == [] then []
    else (match events[0] case SentPing(now) => [now] case _ => []) + PingTimes(events[1..])
  }

  lemma {:induction false} PingTimesAppend(a: seq<Event>, b: seq<Event>)
    ensures PingTimes(a + b) == PingTimes(a) + PingTimes(b)
  {
    if a == [] {
      assert a + b == b;
    } else {
      assert (a + b)[1..] == a[1..] + b;
      PingTimesAppend(a[1..], b);
      ConcatAssoc(match a[0] case SentPing(now) => [now] case _ => [], PingTimes(a[1..]), PingTimes(b));
    }
  }

  /** Each time is between `lo` and `hi` after the one before, the first one after `last`. */
  ghost predicate Spaced(last: int, times: seq<int>, lo: int, hi: int)
    decreases |times|
  {
    times == [] || (lo <= times[0] - last <= hi && Spaced(times[0], times[1..], lo, hi))
  }

  lemma SpacedNext(last: int, now: int, rest: seq<int>, lo: int, hi: int)
    requires lo <= now - last <= hi && Spaced(now, rest, lo, hi)
    ensures Spaced(last, [now] + rest, lo, hi)
  {
    assert ([now] + rest)[1..] == rest;
  }

  lemma {:induction false} NoPingHandedOn(payloads: seq<seq<byte>>, clock: nat -> int)
    ensures PingTimes(HandedOn(payloads, clock)) == []
  {
    if payloads != [] {
      var n := |payloads| - 1;
      var d := Dispatch(payloads[n], clock(n));
      NoPingHandedOn(payloads[..n], clock);
      PingTimesAppend(HandedOn(payloads[..n], clock), d);
      if d != [] {
        assert d[1..] == [];
      }
    }
  }

  lemma OnePing(st: State, now: int)
    ensures PingTimes(PingIfDue(st, now)) == if now - st.lastPingMs >= PING_INTERVAL_MS then [now] else []
  {
    assert [SentPing(now)][1..] == [];
  }

  /** Only the first of three parts pings, besides the last. */
  lemma PingsOfParts(pings: seq<Event>, handed: seq<Event>, more: seq<Event>)
    requires PingTimes(handed) == []
    ensures PingTimes(pings + (handed + more)) == PingTimes(pings) + PingTimes(more)
  {
    PingTimesAppend(pings, handed + more);
    PingTimesAppend(handed, more);
    assert [] + PingTimes(more) == PingTimes(more);
  }

  lemma NoPingHanded(st: State, t: Turn)
    ensures PingTimes(Handed(st, t)) == []
  {
    if t.recv.Data? {
      NoPingHandedOn(Delivered(st.rest + t.recv.bytes), t.arrival);
    }
  }

  lemma {:induction false} PingsOfTurn(st: State, turns: seq<Turn>)
    requires turns != [] && GoesOn(st, turns[0])
    ensures var due := turns[0].now - st.lastPingMs >= PING_INTERVAL_MS;
            PingTimes(Run(st, turns)) ==
            (if due then [turns[0].now] else []) + PingTimes(Run(After(st, turns[0]), turns[1..]))
  {
    GoingOn(st, turns);
    NoPingHanded(st, turns[0]);
    PingsOfParts(PingIfDue(st, turns[0].now), Handed(st, turns[0]), Run(After(st, turns[0]), turns[1..]));
    OnePing(st, turns[0].now);
  }

  lemma PingsBeforeClose(pings: seq<Event>, clean: bool)
    ensures PingTimes(pings + [OnClosed(clean)]) == PingTimes(pings)
  {
    PingTimesAppend(pings, [OnClosed(clean)]);
    assert [OnClosed(clean)][1..] == [];
    assert PingTimes(pings) + [] == PingTimes(pings);
  }

  lemma PingsOfLastTurn(st: State, turns: seq<Turn>)
    requires turns != [] && !GoesOn(st, turns[0])
    ensures var times := PingTimes(Run(st, turns));
            times == [] || (times == [turns[0].now] && turns[0].now - st.lastPingMs >= PING_INTERVAL_MS)
  {
    var pings, clean := LastTurn(st, turns);
    PingsBeforeClose(pings, clean);
    OnePing(st, turns[0].now);
  }

  /** A turn that goes on puts its ping, if one is due, in front of the later ones. */
  lemma PingsStep(st: State, turns: seq<Turn>, hi: int)
    requires turns != [] && GoesOn(st, turns[0]) && turns[0].now - st.lastPingMs <= hi
    requires var next := After(st, turns[0]);
             Spaced(next.lastPingMs, PingTimes(Run(next, turns[1..])), PING_INTERVAL_MS, hi)
    ensures Spaced(st.lastPingMs, PingTimes(Run(st, turns)), PING_INTERVAL_MS, hi)
  {
    PingsOfTurn(st, turns);
    AfterPing(st, turns[0]);
    SpacedIfDue(st.lastPingMs, turns[0].now, PingTimes(Run(After(st, turns[0]), turns[1..])), PING_INTERVAL_MS, hi);
  }

  lemma AfterPing(st: State, t: Turn)
    ensures After(st, t).lastPingMs == if t.now - st.lastPingMs >= PING_INTERVAL_MS then t.now else st.lastPingMs
  {
  }

  lemma SpacedIfDue(last: int, now: int, rest: seq<int>, lo: int, hi: int)
    requires now - last <= hi && Spaced(if now - last >= lo then now else last, rest, lo, hi)
    ensures Spaced(last, (if now - last >= lo then [now] else []) + rest, lo, hi)
  {
    if now - last >= lo {
      SpacedNext(last, now, rest, lo, hi);
    } else {
      assert [] + rest == rest;
    }
  }

  /** Pings are at least 2000 ms apart and at most one wake-up more, from the start of the session on. */
  lemma {:induction false} PingsPaced(st: State, from: int, turns: seq<Turn>, delta: nat)
    requires from - st.lastPingMs < 2000 && WakesWithin(from, turns, delta)
    ensures Spaced(st.lastPingMs, PingTimes(Run(st, turns)), 2000, 2000 + delta)
    decreases |turns|
  {
    if turns != [] {
      if GoesOn(st, turns[0]) {
        PingsPaced(After(st, turns[0]), turns[0].now, turns[1..], delta);
        PingsStep(st, turns, PING_INTERVAL_MS + delta);
      } else {
        PingsOfLastTurn(st, turns);
      }
    }
  }

  // ----- Why a session ends ---------------------------------------------------------------------

  /** The loop state before turn k. */
  function Before(st: State, turns: seq<Turn>, k: nat): State
    requires k <= |turns|
    decreases k
  {
    if k == 0 then st else Before(After(st, turns[0]), turns[1..], k - 1)
  }

  /** The close is clean exactly when the session was closed here or the stream ended before 5000 ms of silence. */
  lemma {:induction false} CloseReason(st: State, turns: seq<Turn>, k: nat)
    requires k < |turns| && EndsAt(st, turns, k)
    ensures var r, t := Run(st, turns), turns[k];
            r != [] && r[|r| - 1] ==
              OnClosed(t.closed || (t.recv.Eof? && t.now - Before(st, turns, k).lastDataMs <= 5000))
    decreases k
  {
    if k == 0 {
      var pings, clean := LastTurn(st, turns);
    } else {
      CloseReason(After(st, turns[0]), turns[1..], k - 1);
      LastStays(st, turns);
    }
  }

  lemma LastStays(st: State, turns: seq<Turn>)
    requires turns != [] && GoesOn(st, turns[0]) && Run(After(st, turns[0]), turns[1..]) != []
    ensures var r, later := Run(st, turns), Run(After(st, turns[0]), turns[1..]);
            r != [] && r[|r| - 1] == later[|later| - 1]
  {
    GoingOn(st, turns);
    LastOfThree(PingIfDue(st, turns[0].now), Handed(st, turns[0]), Run(After(st, turns[0]), turns[1..]));
  }

  lemma LastOfThree(a: seq<Event>, b: seq<Event>, c: seq<Event>)
    requires c != []
    ensures var r := a + (b + c); r != [] && r[|r| - 1] == c[|c| - 1]
  {
  }

  /** A turn ends the loop exactly for one of five reasons. */
  lemma GoesOnIff(st: State, t: Turn)
    ensures GoesOn(st, t) <==>
            !t.closed && t.now - st.lastDataMs <= 5000 && !t.recv.Eof? && !t.recv.Failure? &&
            (t.recv.Data? ==> SplitStream(st.rest + t.recv.bytes).valid)
  {
  }
}
