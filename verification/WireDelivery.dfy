/**
From the sender's items to the receiver's callbacks: framing, demultiplexing,
splitting and re-serialising composed, over every cutting of the byte stream.
*/
module WireDelivery {
  import opened Bytes
  import opened FrameBuffer
  import opened FrameRuns
  import opened Framing
  import opened AnnexB
  import opened Session
  import Control
  import Demux
  import opened SessionClock
  import Text

  /** What a sender puts into one wire frame. */
  datatype Item = ControlItem(payload: seq<byte>) | VideoItem(prefix: seq<byte>, nalus: seq<seq<byte>>)

  function Payload(item: Item): seq<byte> {
    match item
    case ControlItem(p) => p
    case VideoItem(prefix, nalus) => prefix + Serialize(nalus)
  }

  function Payloads(items: seq<Item>): (v: seq<seq<byte>>)
    ensures |v| == |items|
  {
    seq(|items|, k requires 0 <= k < |items| => Payload(items[k]))
  }

  /** Parseable control JSON, or a picture with at least one slice or SPS and no stray start codes. */
  ghost predicate Deliverable(item: Item) {
    && |Payload(item)| <= MAX_FRAME_SIZE
    && match item
       case ControlItem(p) => Demux.IsControlJson(p) && Control.ParseControlMessage(p).Some?
       case VideoItem(prefix, nalus) =>
         && Clean(prefix) && AllClean(nalus)
         && (Select(nalus, AnnexB.Slice) != [] || Select(nalus, AnnexB.Sps) != [])
  }

  /** Every message text that parses and is short and free of NUL bytes is such an item. */
  lemma {:induction false} BuiltDeliverable(s: string, kind: string)
    requires Text.IsByteText(s) && |s| < Demux.SNIFF_MAX_SIZE && Control.ParsesAs(s, kind)
    ensures Deliverable(ControlItem(Text.AsBytes(s)))
    ensures Control.ParseControlMessage(Text.AsBytes(s)) == Some(Control.Message(kind, Control.BodyOf(s, kind)))
  {
    var p := Text.AsBytes(s);
    Text.TextRoundTrip(s);
    assert s[0] == '{';
    assert p[0] == '{' as int && forall i | 0 <= i < |p| :: p[i] != 0;
  }

  /** The callback an item causes, from its own NAL units; the arrival clock is set to 0. */
  function Expected(item: Item): Event {
    match item
    case ControlItem(p) => OnControl(Control.ParseControlMessage(p).GetOr(Control.Message("", Control.Unknown)))
    case VideoItem(prefix, nalus) => OnVideo(SampleOf(FrameOf(prefix, nalus), 0))
  }

  function ExpectedAll(items: seq<Item>): (v: seq<Event>)
    ensures |v| == |items|
  {
    seq(|items|, k requires 0 <= k < |items| => Expected(items[k]))
  }

  function DispatchAll(payloads: seq<seq<byte>>, arrivalMs: int): seq<Event> {
    if payloads == [] then [] else Dispatch(payloads[0], arrivalMs) + DispatchAll(payloads[1..], arrivalMs)
  }

  lemma {:induction false} DispatchAppend(a: seq<seq<byte>>, b: seq<seq<byte>>, arrivalMs: int)
    ensures DispatchAll(a + b, arrivalMs) == DispatchAll(a, arrivalMs) + DispatchAll(b, arrivalMs)
  {
    if a == [] {
      assert a + b == b;
    } else {
      assert (a + b)[1..] == a[1..] + b;
      DispatchAppend(a[1..], b, arrivalMs);
      ConcatAssoc(Dispatch(a[0], arrivalMs), DispatchAll(a[1..], arrivalMs), DispatchAll(b, arrivalMs));
    }
  }

  lemma DispatchOne(payload: seq<byte>, arrivalMs: int)
    ensures DispatchAll([payload], arrivalMs) == Dispatch(payload, arrivalMs)
  {
    assert [payload][1..] == [];
    assert DispatchAll([], arrivalMs) == [];
  }

  lemma {:induction false} ItemDispatched(item: Item)
    requires Deliverable(item)
    ensures Dispatch(Payload(item), 0) == [Expected(item)]
  {
    match item
    case ControlItem(p) =>
    case VideoItem(prefix, nalus) =>
      SplitJoin(prefix, nalus);
      assert ([prefix] + nalus)[1..] == nalus;
      var f := FrameOf(prefix, nalus);
      if Select(nalus, AnnexB.Sps) != [] {
        SelectSound(nalus, AnnexB.Sps, |Select(nalus, AnnexB.Sps)| - 1);
      }
      assert nalus != [];
      assert Parse(Payload(item)) == f && !f.IsEmpty();
      Demux.VideoIsNeverControl(Payload(item));
  }

  lemma FirstItem(items: seq<Item>)
    requires items != []
    ensures Payloads(items)[0] == Payload(items[0]) && Payloads(items)[1..] == Payloads(items[1..])
    ensures ExpectedAll(items) == [Expected(items[0])] + ExpectedAll(items[1..])
  {
  }

  lemma {:induction false} ItemsDispatched(items: seq<Item>)
    requires forall k | 0 <= k < |items| :: Deliverable(items[k])
    ensures DispatchAll(Payloads(items), 0) == ExpectedAll(items)
  {
    if items != [] {
      ItemDispatched(items[0]);
      ItemsDispatched(items[1..]);
      FirstItem(items);
    }
  }

  /**
  However the framed items are cut into reads, the payloads they split into
  cause exactly the items' callbacks, in send order, and nothing stays buffered.
  */
  lemma {:induction false} EveryCutting(items: seq<Item>, chunks: seq<seq<byte>>)
    requires forall k | 0 <= k < |items| :: Deliverable(items[k])
    requires Flatten(chunks) == Wire(Payloads(items))
    ensures FeedAll([], chunks) == Split(Payloads(items), [], true)
    ensures DispatchAll(FeedAll([], chunks).frames, 0) == ExpectedAll(items)
  {
    assert forall k | 0 <= k < |items| :: |Payloads(items)[k]| == |Payload(items[k])|;
    FramedStreamRoundTrip(Payloads(items), chunks);
    ItemsDispatched(items);
  }

  // ----- Through the read loop ------------------------------------------------------------

  function Chunks(turns: seq<Turn>): seq<seq<byte>> {
    if turns == [] then []
    else (if turns[0].recv.Data? then [turns[0].recv.bytes] else []) + Chunks(turns[1..])
  }

  function Callback(e: Event): seq<Event> {
    match e
    case OnControl(_) => [e]
    case OnVideo(sample) => [OnVideo(sample.(arrivalMs := 0))]
    case _ => []
  }

  /** The control and video callbacks among the events, without their arrival clock. */
  function Callbacks(events: seq<Event>): seq<Event> {
    if events == [] then [] else Callback(events[0]) + Callbacks(events[1..])
  }

  lemma {:induction false} CallbacksAppend(a: seq<Event>, b: seq<Event>)
    ensures Callbacks(a + b) == Callbacks(a) + Callbacks(b)
  {
    if a == [] {
      assert a + b == b;
    } else {
      assert (a + b)[1..] == a[1..] + b;
      CallbacksAppend(a[1..], b);
      ConcatAssoc(Callback(a[0]), Callbacks(a[1..]), Callbacks(b));
    }
  }

  lemma {:induction false} CallbacksHandedOn(payloads: seq<seq<byte>>, clock: nat -> int)
    ensures Callbacks(HandedOn(payloads, clock)) == DispatchAll(payloads, 0)
  {
    if payloads != [] {
      var n := |payloads| - 1;
      var before, x := payloads[..n], payloads[n];
      assert payloads == before + [x];
      CallbacksHandedOn(before, clock);
      CallbacksAppend(HandedOn(before, clock), Dispatch(x, clock(n)));
      CallbacksDispatched(x, clock(n));
      DispatchAppend(before, [x], 0);
      DispatchOne(x, 0);
    }
  }

  lemma CallbacksDispatched(payload: seq<byte>, arrivalMs: int)
    ensures Callbacks(Dispatch(payload, arrivalMs)) == Dispatch(payload, 0)
  {
    var d := Dispatch(payload, arrivalMs);
    if d != [] {
      assert d[1..] == [];
    }
  }

  /** The reads of a history that the loop takes in before the turn that ends it. */
  function Reads(st: State, turns: seq<Turn>): seq<seq<byte>>
    decreases |turns|
  {
    if turns == [] || !GoesOn(st, turns[0]) then []
    else (if turns[0].recv.Data? then [turns[0].recv.bytes] else []) + Reads(After(st, turns[0]), turns[1..])
  }

  /** When turn k ends the loop, those are the data of the turns before it. */
  lemma {:induction false} ReadsBeforeEnd(st: State, turns: seq<Turn>, k: nat)
    requires k < |turns| && EndsAt(st, turns, k)
    ensures Reads(st, turns) == Chunks(turns[..k])
    decreases k
  {
    if k > 0 {
      ReadsBeforeEnd(After(st, turns[0]), turns[1..], k - 1);
      assert turns[..k][1..] == turns[1..][..k - 1];
    }
  }

  /** The turn that ends the loop causes no control or video callback. */
  lemma EndingTurnSilent(st: State, turns: seq<Turn>)
    requires turns != [] && !GoesOn(st, turns[0])
    ensures Callbacks(Run(st, turns)) == []
  {
    var pings, clean := LastTurn(st, turns);
    NoCallbacks(pings);
    CloseSilent(pings, clean);
  }

  lemma CloseSilent(pings: seq<Event>, clean: bool)
    requires Callbacks(pings) == []
    ensures Callbacks(pings + [OnClosed(clean)]) == []
  {
    CallbacksAppend(pings, [OnClosed(clean)]);
    assert [OnClosed(clean)][1..] == [];
  }

  lemma PingsSilent(pings: seq<Event>, handed: seq<Event>, more: seq<Event>)
    requires |pings| <= 1 && (pings != [] ==> pings[0].SentPing?)
    ensures Callbacks(pings + (handed + more)) == Callbacks(handed) + Callbacks(more)
  {
    NoCallbacks(pings);
    CallbacksAppend(pings, handed + more);
    CallbacksAppend(handed, more);
  }

  /** What the callbacks of a turn that goes on add to those of the later ones. */
  lemma TurnCallbacks(st: State, turns: seq<Turn>)
    requires turns != [] && GoesOn(st, turns[0])
    ensures Callbacks(Run(st, turns)) ==
            Callbacks(Handed(st, turns[0])) + Callbacks(Run(After(st, turns[0]), turns[1..]))
  {
    GoingOn(st, turns);
    PingsSilent(PingIfDue(st, turns[0].now), Handed(st, turns[0]), Run(After(st, turns[0]), turns[1..]));
  }

  /** What the read of such a turn adds to what the decoder shows. */
  lemma ReadShown(rest: seq<byte>, chunk: seq<byte>, chunks: seq<seq<byte>>)
    ensures DispatchAll(AllDelivered(rest, [chunk] + chunks), 0) ==
            DispatchAll(Delivered(rest + chunk), 0) +
            DispatchAll(AllDelivered(SplitStream(rest + chunk).rest, chunks), 0)
  {
    assert ([chunk] + chunks)[1..] == chunks;
    DispatchAppend(Delivered(rest + chunk), AllDelivered(SplitStream(rest + chunk).rest, chunks), 0);
  }

  /** The callbacks of a turn that goes on are those of the payloads its read shows. */
  lemma TurnShown(st: State, t: Turn, later: seq<seq<byte>>)
    requires GoesOn(st, t)
    ensures Callbacks(Handed(st, t)) + DispatchAll(AllDelivered(After(st, t).rest, later), 0) ==
            DispatchAll(AllDelivered(st.rest, (if t.recv.Data? then [t.recv.bytes] else []) + later), 0)
  {
    if t.recv.Data? {
      CallbacksHandedOn(Delivered(st.rest + t.recv.bytes), t.arrival);
      ReadShown(st.rest, t.recv.bytes, later);
    } else {
      assert [] + later == later;
      assert Handed(st, t) == [] && After(st, t).rest == st.rest;
      var shown := DispatchAll(AllDelivered(st.rest, later), 0);
      assert [] + shown == shown;
    }
  }

  /**
  Whatever recv returns and the clocks read, and however the session ends, the
  loop hands on every payload its decoder shows before the ending turn, in
  order, and nothing else.
  */
  lemma {:induction false} LoopDelivers(st: State, turns: seq<Turn>)
    ensures Callbacks(Run(st, turns)) == DispatchAll(AllDelivered(st.rest, Reads(st, turns)), 0)
    decreases |turns|
  {
    if turns != [] && !GoesOn(st, turns[0]) {
      EndingTurnSilent(st, turns);
    } else if turns != [] {
      TurnCallbacks(st, turns);
      LoopDelivers(After(st, turns[0]), turns[1..]);
      TurnShown(st, turns[0], Reads(After(st, turns[0]), turns[1..]));
    }
  }

  lemma NoCallbacks(pings: seq<Event>)
    requires |pings| <= 1 && (pings != [] ==> pings[0].SentPing?)
    ensures Callbacks(pings) == []
    ensures forall b: seq<Event> {:trigger Callbacks(pings) + b} :: Callbacks(pings) + b == b
  {
    if pings != [] {
      assert pings[1..] == [];
    }
    assert Callbacks(pings) == [];
  }

  /** What has arrived of a wire carries the first of its payloads. */
  lemma ArrivedPrefix(items: seq<Item>, arrived: seq<byte>, later: seq<byte>)
    requires forall k | 0 <= k < |items| :: Deliverable(items[k])
    requires arrived + later == Wire(Payloads(items))
    ensures SplitStream(arrived).frames <= Payloads(items)
    ensures later == [] ==> SplitStream(arrived).frames == Payloads(items)
    ensures DispatchAll(SplitStream(arrived).frames, 0) <= ExpectedAll(items)
  {
    var all, first := Payloads(items), SplitStream(arrived).frames;
    assert forall k | 0 <= k < |items| :: |all[k]| == |Payload(items[k])|;
    SplitInvertsWire(all, []);
    assert Wire(all) + [] == Wire(all) && all + [] == all;
    SplitExtends(arrived, later);
    assert later == [] ==> arrived + later == arrived;
    var rest := all[|first|..];
    assert all == first + rest;
    DispatchAppend(first, rest, 0);
    ItemsDispatched(items);
  }

  /**
  The wire theorem for the loop as written.  The reads taken in before the loop
  ends, for whatever reason, hold some first part of what the sender wrote.  If
  none of them exposes a payload, the control and video callbacks are the first
  ones of the items sent, in send order, and all of them once everything was read.
  */
  lemma LoopDeliversItems(now: int, turns: seq<Turn>, items: seq<Item>, later: seq<byte>)
    requires forall k | 0 <= k < |items| :: Deliverable(items[k])
    requires Flatten(Reads(State([], now, now), turns)) + later == Wire(Payloads(items))
    requires CleanReads([], Reads(State([], now, now), turns))
    ensures Callbacks(Run(State([], now, now), turns)) <= ExpectedAll(items)
    ensures later == [] ==> Callbacks(Run(State([], now, now), turns)) == ExpectedAll(items)
  {
    var taken := Reads(State([], now, now), turns);
    LoopDelivers(State([], now, now), turns);
    CleanReadsExact([], taken);
    ChunkingIrrelevant([], taken);
    assert [] + Flatten(taken) == Flatten(taken);
    ArrivedPrefix(items, Flatten(taken), later);
    ItemsDispatched(items);
  }

  /** A session that ends at turn k, by a close or otherwise, after all items were read has delivered them all. */
  lemma EndedLoopDelivered(now: int, turns: seq<Turn>, k: nat, items: seq<Item>)
    requires forall i | 0 <= i < |items| :: Deliverable(items[i])
    requires k < |turns| && EndsAt(State([], now, now), turns, k)
    requires Flatten(Chunks(turns[..k])) == Wire(Payloads(items)) && CleanReads([], Chunks(turns[..k]))
    ensures Callbacks(Run(State([], now, now), turns)) == ExpectedAll(items)
  {
    ReadsBeforeEnd(State([], now, now), turns, k);
    assert Wire(Payloads(items)) + [] == Wire(Payloads(items));
    LoopDeliversItems(now, turns, items, []);
  }

  // ----- A corrupt stream -------------------------------------------------------------------

  function DataTurn(now: int, bytes: seq<byte>): Turn { Turn(false, Data(bytes), now, now, _ => now) }

  /** The frames of a stream are those of its earlier reads and those of the next one. */
  lemma ReadAdds(taken: seq<seq<byte>>, chunk: seq<byte>)
    requires FeedAll([], taken).valid
    ensures SplitStream(Flatten(taken) + chunk).frames ==
            FeedAll([], taken).frames + SplitStream(FeedAll([], taken).rest + chunk).frames
  {
    ChunkingIrrelevant([], taken);
    assert [] + Flatten(taken) == Flatten(taken);
    SplitExtends(Flatten(taken), chunk);
  }

  /** What the loop took in before an oversize length is a valid stream. */
  lemma {:induction false} TakenValid(st: State, turns: seq<Turn>)
    requires SplitStream(st.rest) == Split([], st.rest, true)
    ensures FeedAll(st.rest, Reads(st, turns)).valid
    decreases |turns|
  {
    if turns != [] && GoesOn(st, turns[0]) {
      var st', later := After(st, turns[0]), turns[1..];
      if turns[0].recv.Data? {
        WireInvertsSplit(st.rest + turns[0].recv.bytes);
        TakenValid(st', later);
        assert ([turns[0].recv.bytes] + Reads(st', later))[1..] == Reads(st', later);
      } else {
        TakenValid(st', later);
        assert [] + Reads(st', later) == Reads(st', later);
      }
    }
  }

  /** The read of turn k is the one that meets an oversize length. */
  ghost predicate FailsAt(st: State, turns: seq<Turn>, k: nat, chunk: seq<byte>) {
    && k < |turns| && EndsAt(st, turns, k) && turns[k].recv == Data(chunk)
    && !SplitStream(FeedAll(st.rest, Reads(st, turns)).rest + chunk).valid
  }

  /**
  A session that ends at an oversize length has delivered every frame before
  that length if and only if the failing read itself brought none that causes a
  callback: the frames of earlier reads are delivered, its own are dropped.
  */
  lemma CorruptDeliversIff(now: int, turns: seq<Turn>, k: nat, chunk: seq<byte>)
    requires FailsAt(State([], now, now), turns, k, chunk)
    requires CleanReads([], Reads(State([], now, now), turns))
    ensures var taken := Reads(State([], now, now), turns);
            var own := DispatchAll(SplitStream(FeedAll([], taken).rest + chunk).frames, 0);
            var all := DispatchAll(SplitStream(Flatten(taken) + chunk).frames, 0);
            var delivered := Callbacks(Run(State([], now, now), turns));
            all == delivered + own && (delivered == all <==> own == [])
  {
    var st := State([], now, now);
    var taken := Reads(st, turns);
    var own := SplitStream(FeedAll([], taken).rest + chunk).frames;
    LoopDelivers(st, turns);
    CleanReadsExact([], taken);
    TakenValid(st, turns);
    ReadAdds(taken, chunk);
    DispatchAppend(FeedAll([], taken).frames, own, 0);
  }

  /**
  On a stream that turns corrupt the cutting decides what is delivered: frames
  extracted by the very read that meets the oversize length are dropped, the
  same frames read before it are not.
  */
  lemma CorruptCutting(now: int, good: seq<byte>, bad: seq<byte>)
    requires SplitStream(good).valid && SplitStream(good).rest == [] && SplitStream(bad) == Split([], bad, false)
    ensures Callbacks(Run(State([], now, now), [DataTurn(now, good + bad)])) == []
    ensures Callbacks(Run(State([], now, now), [DataTurn(now, good), DataTurn(now, bad)])) ==
            DispatchAll(SplitStream(good).frames, 0)
  {
    var st, one, two := State([], now, now), DataTurn(now, good + bad), DataTurn(now, bad);
    var first := DataTurn(now, good);
    SplitExtends(good, bad);
    assert [] + bad == bad && [] + good == good && [] + (good + bad) == good + bad;
    EndingTurnSilent(st, [one]);
    var turns := [first, two];
    assert turns[1..] == [two];
    assert GoesOn(st, first) && !GoesOn(After(st, first), two);
    assert Reads(After(st, first), [two]) == [];
    assert Reads(st, turns) == [good];
    LoopDelivers(st, turns);
    ShortTailExact(good);
    assert AllDelivered([], [good]) == Delivered(good) + [] == Delivered(good) by {
      assert [good][1..] == [];
    }
  }
}
