/**
The adaptive hello (app/main.cpp): a resized window announces its new size,
debounced after the last resize and spaced from the adaptive hello before it.
The accepting thread measures, sends and remembers its own hello while the main
loop goes on.  Clock readings and the client area are inputs of the steps.
*/
module AdaptiveHello {
  import opened Bytes
  import opened Config

  const SETTLE_MS := 500
  const SPACING_MS := 20000

  datatype Client = Client(width: int, height: int)

  /** What the accepting thread has done: nothing, the new session, the size to say, the hello. */
  datatype Accepting = Idle | Accepted | Measured(size: DisplaySize) | Greeted(size: DisplaySize)

  /** Times are 0 where the source uses 0 for "none". */
  datatype State = State(
    config: ReceiverConfig,
    client: Client,
    session: bool,
    resizeAtMs: int,
    lastAdaptiveHelloAtMs: int,
    lastHello: DisplaySize,
    accept: Accepting)

  datatype Step =
    | Resize(minimized: bool, client: Client, now: int)
    | Accept
    | Measure
    | Greet
    | Store
    | Reap
    | Tick(now: int)

  datatype Event = Resized(at: int) | Hello(size: DisplaySize) | AdaptiveHello(at: int, size: DisplaySize)

  function Desired(s: State): DisplaySize {
    if !s.config.adaptiveResolution then DisplaySize(s.config.width, s.config.height)
    else AdaptiveDisplaySize(s.config, s.client.width, s.client.height)
  }

  /** WM_SIZE notes a resize only for a visible, non-empty window. */
  predicate Noted(config: ReceiverConfig, minimized: bool, client: Client) {
    !minimized && client.width > 0 && client.height > 0 && config.adaptiveResolution
  }

  function ResizeStep(s: State, minimized: bool, client: Client, now: int): (State, seq<Event>) {
    if Noted(s.config, minimized, client) then (s.(client := client, resizeAtMs := now), [Resized(now)])
    else (s.(client := client), [])
  }

  /** The accepting thread takes its steps in order; out of order they do nothing. */
  function AcceptStep(s: State): State {
    if s.accept.Idle? then s.(session := true, accept := Accepted) else s
  }

  function MeasureStep(s: State): State {
    if s.accept.Accepted? then s.(accept := Measured(Desired(s))) else s
  }

  function GreetStep(s: State): (State, seq<Event>) {
    if s.accept.Measured? then (s.(accept := Greeted(s.accept.size)), [Hello(s.accept.size)]) else (s, [])
  }

  function StoreStep(s: State): State {
    if s.accept.Greeted? then s.(accept := Idle, lastHello := s.accept.size) else s
  }

  function TickStep(s: State, now: int): (State, seq<Event>) {
    var size := Desired(s);
    if !s.config.adaptiveResolution || s.resizeAtMs == 0 || now - s.resizeAtMs < SETTLE_MS then (s, [])
    else if size == s.lastHello then (s.(resizeAtMs := 0), [])
    else if s.lastAdaptiveHelloAtMs != 0 && now - s.lastAdaptiveHelloAtMs < SPACING_MS then (s, [])
    else if !s.session then (s.(resizeAtMs := 0), [])
    else (s.(resizeAtMs := 0, lastAdaptiveHelloAtMs := now, lastHello := size), [AdaptiveHello(now, size)])
  }

  function Apply(s: State, step: Step): (State, seq<Event>) {
    match step
    case Resize(minimized, client, now) => ResizeStep(s, minimized, client, now)
    case Accept => (AcceptStep(s), [])
    case Measure => (MeasureStep(s), [])
    case Greet => GreetStep(s)
    case Store => (StoreStep(s), [])
    case Reap => (s.(session := false), [])
    case Tick(now) => TickStep(s, now)
  }

  class App {
    const config: ReceiverConfig
    var client: Client
    var session: bool
    var resizeAtMs: int
    var lastAdaptiveHelloAtMs: int
    var lastHelloWidth: int
    var lastHelloHeight: int
    var accept: Accepting

    ghost function Value(): State
      reads this
    {
      State(config, client, session, resizeAtMs, lastAdaptiveHelloAtMs,
            DisplaySize(lastHelloWidth, lastHelloHeight), accept)
    }

    constructor (config: ReceiverConfig, client: Client)
      ensures Value() == State(config, client, false, 0, 0, DisplaySize(0, 0), Idle)
    {
      this.config := config;
      this.client := client;
      session := false;
      resizeAtMs, lastAdaptiveHelloAtMs := 0, 0;
      lastHelloWidth, lastHelloHeight := 0, 0;
      accept := Idle;
    }

    method HelloSize() returns (width: int, height: int)
      ensures DisplaySize(width, height) == Desired(Value())
    {
      width, height := config.width, config.height;
      if !config.adaptiveResolution {
        return;
      }
      var size := AdaptiveDisplaySize(config, client.width, client.height);
      width, height := size.width, size.height;
    }

    method OnSize(minimized: bool, area: Client, now: int)
      modifies this
      ensures Value() == ResizeStep(old(Value()), minimized, area, now).0
    {
      client := area;
      if !minimized {
        if area.width > 0 && area.height > 0 {
          if config.adaptiveResolution {
            resizeAtMs := now;
          }
        }
      }
    }

    method InstallSession()
      requires accept.Idle?
      modifies this
      ensures Value() == AcceptStep(old(Value()))
    {
      session := true;
      accept := Accepted;
    }

    method MeasureHello()
      requires accept.Accepted?
      modifies this
      ensures Value() == MeasureStep(old(Value()))
    {
      var width, height := HelloSize();
      accept := Measured(DisplaySize(width, height));
    }

    method SendHello() returns (sent: seq<Event>)
      requires accept.Measured?
      modifies this
      ensures (Value(), sent) == GreetStep(old(Value()))
    {
      sent := [Hello(accept.size)];
      accept := Greeted(accept.size);
    }

    method StoreHello()
      requires accept.Greeted?
      modifies this
      ensures Value() == StoreStep(old(Value()))
    {
      lastHelloWidth, lastHelloHeight := accept.size.width, accept.size.height;
      accept := Idle;
    }

    /** The four steps with nothing between them. */
    method OnAccept() returns (sent: seq<Event>)
      requires accept.Idle?
      modifies this
      ensures sent == [Hello(Desired(old(Value())))]
      ensures Value() == old(Value()).(session := true, lastHello := Desired(old(Value())))
    {
      InstallSession();
      MeasureHello();
      sent := SendHello();
      StoreHello();
    }

    method MaybeSendResizeHello(now: int) returns (sent: seq<Event>)
      modifies this
      ensures (Value(), sent) == TickStep(old(Value()), now)
    {
      sent := [];
      if !config.adaptiveResolution || resizeAtMs == 0 || now - resizeAtMs < SETTLE_MS {
        return;
      }
      var width, height := HelloSize();
      if width == lastHelloWidth && height == lastHelloHeight {
        resizeAtMs := 0;
        return;
      }
      if lastAdaptiveHelloAtMs != 0 && now - lastAdaptiveHelloAtMs < SPACING_MS {
        return;
      }
      resizeAtMs := 0;
      if !session {
        return;
      }
      sent := [AdaptiveHello(now, DisplaySize(width, height))];
      lastAdaptiveHelloAtMs := now;
      lastHelloWidth, lastHelloHeight := width, height;
    }
  }

  // ----- Runs -------------------------------------------------------------------------

  function Exec(s: State, steps: seq<Step>): State
    decreases |steps|
  {
    if steps == [] then s else Exec(Apply(s, steps[0]).0, steps[1..])
  }

  function Log(s: State, steps: seq<Step>): seq<Event>
    decreases |steps|
  {
    if steps == [] then [] else Apply(s, steps[0]).1 + Log(Apply(s, steps[0]).0, steps[1..])
  }

  /** Clock readings are positive and never go back. */
  ghost predicate Monotone(from: int, steps: seq<Step>)
    requires from > 0
    decreases |steps|
  {
    steps == [] ||
    (match steps[0]
     case Resize(_, _, now) => from <= now && Monotone(now, steps[1..])
     case Tick(now) => from <= now && Monotone(now, steps[1..])
     case _ => Monotone(from, steps[1..]))
  }

  function TimeAfter(from: int, step: Step): int {
    match step
    case Resize(_, _, now) => now
    case Tick(now) => now
    case _ => from
  }

  /** The earliest time an adaptive hello can go out, by the debounce alone. */
  function Earliest(s: State, from: int): int {
    (if s.resizeAtMs != 0 then s.resizeAtMs else from) + SETTLE_MS
  }

  ghost predicate NoneBefore(log: seq<Event>, t: int) {
    forall k | 0 <= k < |log| && log[k].AdaptiveHello? :: log[k].at >= t
  }

  /** Adaptive hellos are 20000 ms apart and 500 ms after every resize before them. */
  ghost predicate Paced(log: seq<Event>) {
    forall i, j | 0 <= i < j < |log| && log[j].AdaptiveHello? ::
      && (log[i].AdaptiveHello? ==> log[j].at - log[i].at >= SPACING_MS)
      && (log[i].Resized? ==> log[j].at - log[i].at >= SETTLE_MS)
  }

  lemma PacedPrepend(e: Event, log: seq<Event>)
    requires Paced(log)
    requires e.AdaptiveHello? ==> NoneBefore(log, e.at + SPACING_MS)
    requires e.Resized? ==> NoneBefore(log, e.at + SETTLE_MS)
    ensures Paced([e] + log)
  {
    var all := [e] + log;
    forall i, j | 0 <= i < j < |all| && all[j].AdaptiveHello?
      ensures all[i].AdaptiveHello? ==> all[j].at - all[i].at >= SPACING_MS
      ensures all[i].Resized? ==> all[j].at - all[i].at >= SETTLE_MS
    {
      assert all[j] == log[j - 1];
      if i > 0 {
        assert all[i] == log[i - 1];
      }
    }
  }

  lemma NonePrepend(e: Event, log: seq<Event>, t: int)
    requires NoneBefore(log, t) && (e.AdaptiveHello? ==> e.at >= t)
    ensures NoneBefore([e] + log, t)
  {
    var all := [e] + log;
    forall k | 0 <= k < |all| && all[k].AdaptiveHello?
      ensures all[k].at >= t
    {
      if k > 0 {
        assert all[k] == log[k - 1];
      }
    }
  }

  ghost predicate Clocked(s: State, from: int) {
    from > 0 && 0 <= s.resizeAtMs <= from && 0 <= s.lastAdaptiveHelloAtMs
  }

  /** What one step does to the clocks, and when it may send. */
  lemma StepClocked(s: State, from: int, step: Step)
    requires Clocked(s, from) && Monotone(from, [step])
    ensures var (s', events) := Apply(s, step);
            var from' := TimeAfter(from, step);
            && Clocked(s', from')
            && Earliest(s', from') >= Earliest(s, from)
            && |events| <= 1
            && (events != [] && events[0].AdaptiveHello? ==>
                  && events[0].at == s'.lastAdaptiveHelloAtMs == from' >= Earliest(s, from)
                  && (s.lastAdaptiveHelloAtMs != 0 ==> from' >= s.lastAdaptiveHelloAtMs + SPACING_MS))
            && (events != [] && events[0].Resized? ==> Earliest(s', from') == events[0].at + SETTLE_MS)
            && (s'.lastAdaptiveHelloAtMs == s.lastAdaptiveHelloAtMs || (events != [] && events[0].AdaptiveHello?))
  {
    assert [step][1..] == [];
  }

  lemma FirstMonotone(from: int, steps: seq<Step>)
    requires from > 0 && steps != [] && Monotone(from, steps)
    ensures Monotone(from, [steps[0]]) && TimeAfter(from, steps[0]) > 0
    ensures Monotone(TimeAfter(from, steps[0]), steps[1..])
  {
    assert [steps[0]][1..] == [];
  }

  lemma LaterNone(log: seq<Event>, t: int, u: int)
    requires NoneBefore(log, t) && u <= t
    ensures NoneBefore(log, u)
  {
  }

  /** Over every run adaptive hellos keep their distance from one another and from every resize. */
  lemma {:induction false} HellosPaced(s: State, from: int, steps: seq<Step>)
    requires Clocked(s, from) && Monotone(from, steps)
    ensures Paced(Log(s, steps))
    ensures NoneBefore(Log(s, steps), Earliest(s, from))
    ensures s.lastAdaptiveHelloAtMs != 0 ==> NoneBefore(Log(s, steps), s.lastAdaptiveHelloAtMs + SPACING_MS)
    decreases |steps|
  {
    if steps != [] {
      var (s', events) := Apply(s, steps[0]);
      var from' := TimeAfter(from, steps[0]);
      var more := Log(s', steps[1..]);
      FirstMonotone(from, steps);
      StepClocked(s, from, steps[0]);
      HellosPaced(s', from', steps[1..]);
      LaterNone(more, Earliest(s', from'), Earliest(s, from));
      OneMore(s, from, events, s', from', more);
    }
  }

  /** The log grows at the front by what one step sent. */
  lemma OneMore(s: State, from: int, events: seq<Event>, s': State, from': int, more: seq<Event>)
    requires Paced(more) && NoneBefore(more, Earliest(s, from)) && NoneBefore(more, Earliest(s', from'))
    requires s'.lastAdaptiveHelloAtMs != 0 ==> NoneBefore(more, s'.lastAdaptiveHelloAtMs + SPACING_MS)
    requires from' > 0 && |events| <= 1
    requires events != [] && events[0].AdaptiveHello? ==>
               && events[0].at == s'.lastAdaptiveHelloAtMs == from' >= Earliest(s, from)
               && (s.lastAdaptiveHelloAtMs != 0 ==> from' >= s.lastAdaptiveHelloAtMs + SPACING_MS)
    requires events != [] && events[0].Resized? ==> Earliest(s', from') == events[0].at + SETTLE_MS
    requires s'.lastAdaptiveHelloAtMs == s.lastAdaptiveHelloAtMs || (events != [] && events[0].AdaptiveHello?)
    ensures Paced(events + more) && NoneBefore(events + more, Earliest(s, from))
    ensures s.lastAdaptiveHelloAtMs != 0 ==> NoneBefore(events + more, s.lastAdaptiveHelloAtMs + SPACING_MS)
  {
    if events == [] {
      assert events + more == more;
    } else {
      assert events == [events[0]];
      PacedPrepend(events[0], more);
      NonePrepend(events[0], more, Earliest(s, from));
      if s.lastAdaptiveHelloAtMs != 0 {
        NonePrepend(events[0], more, s.lastAdaptiveHelloAtMs + SPACING_MS);
      }
    }
  }

  /** Without adaptive mode the wanted size is the configured one, with it the one derived from the window. */
  lemma WantedSize(s: State)
    ensures !s.config.adaptiveResolution ==> Desired(s) == DisplaySize(s.config.width, s.config.height)
    ensures s.config.adaptiveResolution && s.client.width >= 320 && s.client.height >= 240 ==>
              LargestEven(Desired(s).width, s.client.width) && LargestEven(Desired(s).height, s.client.height)
    ensures s.config.adaptiveResolution && (s.client.width < 320 || s.client.height < 240) ==>
              Desired(s) == DisplaySize(s.config.width, s.config.height)
  {
    AdaptiveSize(s.config, s.client.width, s.client.height);
  }

  /**
  A tick says a hello exactly when a resize is pending for 500 ms, the wanted
  size is not the one said last, 20000 ms have passed since the last adaptive
  hello and there is a session; it says the wanted size.
  */
  lemma TickSaysIff(s: State, now: int)
    ensures var due := s.config.adaptiveResolution && s.resizeAtMs != 0 && now - s.resizeAtMs >= 500 &&
                       Desired(s) != s.lastHello &&
                       (s.lastAdaptiveHelloAtMs == 0 || now - s.lastAdaptiveHelloAtMs >= 20000) && s.session;
            Apply(s, Tick(now)).1 == if due then [AdaptiveHello(now, Desired(s))] else []
  {
  }

  /**
  What a tick leaves behind: it is done with a resize that was pending for 500 ms
  when the size was said already or 20000 ms have passed, session or not, and it
  notes a hello's size and time.
  */
  lemma TickLeaves(s: State, now: int)
    ensures var (s', said) := Apply(s, Tick(now));
            var done := s.config.adaptiveResolution && s.resizeAtMs != 0 && now - s.resizeAtMs >= 500 &&
                        (Desired(s) == s.lastHello || s.lastAdaptiveHelloAtMs == 0 ||
                         now - s.lastAdaptiveHelloAtMs >= 20000);
            s' == s.(resizeAtMs := if done then 0 else s.resizeAtMs,
                     lastAdaptiveHelloAtMs := if said != [] then now else s.lastAdaptiveHelloAtMs,
                     lastHello := if said != [] then Desired(s) else s.lastHello)
  {
  }

  // ----- What has been announced ----------------------------------------------------------

  /** The size the accepting thread is about to remember. */
  predicate Remembering(s: State) { s.accept.Measured? || s.accept.Greeted? }

  /**
  With a session and no resize pending, the size remembered as said is the one
  wanted now, or is about to be.
  */
  ghost predicate Settled(s: State) {
    s.session && s.resizeAtMs == 0 ==>
      && (s.accept.Idle? ==> s.lastHello == Desired(s))
      && (Remembering(s) ==> s.accept.size == Desired(s))
  }

  /** The window changes the wanted size without WM_SIZE noting it, while a session knows the old one. */
  predicate SilentChange(s: State, step: Step) {
    && step.Resize? && !Noted(s.config, step.minimized, step.client)
    && s.session && s.resizeAtMs == 0 && !s.accept.Accepted?
    && Desired(s.(client := step.client)) != Desired(s)
  }

  /** The tick is done with the pending resize. */
  predicate Clears(s: State, now: int) {
    && s.config.adaptiveResolution && s.resizeAtMs != 0 && now - s.resizeAtMs >= SETTLE_MS
    && (Desired(s) == s.lastHello || s.lastAdaptiveHelloAtMs == 0 || now - s.lastAdaptiveHelloAtMs >= SPACING_MS)
  }

  /** The tick is done with a resize while the accepting thread still has the size from before it. */
  predicate RacingTick(s: State, step: Step) {
    step.Tick? && s.session && Clears(s, step.now) && Remembering(s) && s.accept.size != Desired(s)
  }

  predicate Unsettles(s: State, step: Step) { SilentChange(s, step) || RacingTick(s, step) }

  /** A step loses it exactly by such a change or such a tick. */
  lemma SettledIff(s: State, step: Step)
    requires Settled(s) && (step.Resize? ==> step.now > 0)
    ensures Settled(Apply(s, step).0) <==> !Unsettles(s, step)
  {
  }

  ghost predicate AlwaysSettled(s: State, steps: seq<Step>)
    decreases |steps|
  {
    Settled(s) && (steps != [] ==> AlwaysSettled(Apply(s, steps[0]).0, steps[1..]))
  }

  ghost predicate NeverUnsettles(s: State, steps: seq<Step>)
    decreases |steps|
  {
    steps == [] || (!Unsettles(s, steps[0]) && NeverUnsettles(Apply(s, steps[0]).0, steps[1..]))
  }

  /** Every interleaving stays settled throughout if and only if none of its steps is such a change or tick. */
  lemma {:induction false} AlwaysSettledIff(s: State, from: int, steps: seq<Step>)
    requires Settled(s) && from > 0 && Monotone(from, steps)
    ensures AlwaysSettled(s, steps) <==> NeverUnsettles(s, steps)
    decreases |steps|
  {
    if steps != [] {
      SettledIff(s, steps[0]);
      if !Unsettles(s, steps[0]) {
        AlwaysSettledIff(Apply(s, steps[0]).0, TimeAfter(from, steps[0]), steps[1..]);
      }
    }
  }

  /** Every resize is noted, or the size does not follow the window at all. */
  ghost predicate AllNoted(config: ReceiverConfig, steps: seq<Step>) {
    config.adaptiveResolution ==>
      forall k | 0 <= k < |steps| && steps[k].Resize? :: Noted(config, steps[k].minimized, steps[k].client)
  }

  ghost predicate NoRace(s: State, steps: seq<Step>)
    decreases |steps|
  {
    steps == [] || (!RacingTick(s, steps[0]) && NoRace(Apply(s, steps[0]).0, steps[1..]))
  }

  lemma {:induction false} StaysSettled(s: State, from: int, steps: seq<Step>)
    requires Settled(s) && from > 0 && Monotone(from, steps) && AllNoted(s.config, steps) && NoRace(s, steps)
    ensures Settled(Exec(s, steps))
    decreases |steps|
  {
    if steps != [] {
      SettledIff(s, steps[0]);
      StaysSettled(Apply(s, steps[0]).0, TimeAfter(from, steps[0]), steps[1..]);
    }
  }

  // ----- What has been said -----------------------------------------------------------------

  /** The size most recently announced in a log. */
  function LastSize(log: seq<Event>, before: DisplaySize): DisplaySize
    decreases |log|
  {
    if log == [] then before
    else LastSize(log[1..], if log[0].Resized? then before else log[0].size)
  }

  lemma {:induction false} LastSizeAppend(a: seq<Event>, b: seq<Event>, before: DisplaySize)
    ensures LastSize(a + b, before) == LastSize(b, LastSize(a, before))
    decreases |a|
  {
    if a == [] {
      assert a + b == b;
    } else {
      assert (a + b)[0] == a[0] && (a + b)[1..] == a[1..] + b;
      LastSizeAppend(a[1..], b, if a[0].Resized? then before else a[0].size);
    }
  }

  /** What lastHello is, or becomes when the accepting thread is done. */
  function Remembered(s: State): DisplaySize {
    if s.accept.Greeted? then s.accept.size else s.lastHello
  }

  /** The tick says another size between the accepting thread's hello and its note of it. */
  predicate Overtakes(s: State, step: Step) {
    && step.Tick? && s.accept.Greeted? && s.session && Clears(s, step.now)
    && Desired(s) != s.lastHello && Desired(s) != s.accept.size
  }

  /** A step keeps what is remembered the same as what was said unless it is such a tick. */
  lemma SaidIff(s: State, step: Step)
    ensures Remembered(Apply(s, step).0) == LastSize(Apply(s, step).1, Remembered(s)) <==> !Overtakes(s, step)
  {
    var events := Apply(s, step).1;
    if events != [] {
      assert events[1..] == [];
    }
  }

  ghost predicate AlwaysSaid(s: State, told: DisplaySize, steps: seq<Step>)
    decreases |steps|
  {
    && Remembered(s) == told
    && (steps != [] ==> AlwaysSaid(Apply(s, steps[0]).0, LastSize(Apply(s, steps[0]).1, told), steps[1..]))
  }

  ghost predicate NeverOvertakes(s: State, steps: seq<Step>)
    decreases |steps|
  {
    steps == [] || (!Overtakes(s, steps[0]) && NeverOvertakes(Apply(s, steps[0]).0, steps[1..]))
  }

  /** In every interleaving the remembered size stays the newest hello's if and only if no tick overtakes the note. */
  lemma {:induction false} AlwaysSaidIff(s: State, steps: seq<Step>)
    ensures AlwaysSaid(s, Remembered(s), steps) <==> NeverOvertakes(s, steps)
    decreases |steps|
  {
    if steps != [] {
      var s' := Apply(s, steps[0]).0;
      SaidIff(s, steps[0]);
      if !Overtakes(s, steps[0]) {
        AlwaysSaidIff(s', steps[1..]);
      } else {
        assert Remembered(s') != LastSize(Apply(s, steps[0]).1, Remembered(s));
      }
    }
  }

  lemma {:induction false} LastHelloSaid(s: State, steps: seq<Step>)
    requires NeverOvertakes(s, steps)
    ensures Remembered(Exec(s, steps)) == LastSize(Log(s, steps), Remembered(s))
    decreases |steps|
  {
    if steps != [] {
      var (s', events) := Apply(s, steps[0]);
      SaidIff(s, steps[0]);
      LastHelloSaid(s', steps[1..]);
      LastSizeAppend(events, Log(s', steps[1..]), Remembered(s));
    }
  }

  // ----- Two runs that go wrong -----------------------------------------------------------------

  /** One more step at the end of a run, with what it remembers of the log. */
  lemma {:induction false} OneStepOn(s: State, steps: seq<Step>, step: Step, before: DisplaySize)
    ensures Exec(s, steps + [step]) == Apply(Exec(s, steps), step).0
    ensures LastSize(Log(s, steps + [step]), before) ==
            LastSize(Apply(Exec(s, steps), step).1, LastSize(Log(s, steps), before))
    decreases |steps|
  {
    if steps == [] {
      assert [] + [step] == [step] && [step][1..] == [];
      assert Apply(s, step).1 + [] == Apply(s, step).1;
    } else {
      var (s', events) := Apply(s, steps[0]);
      var told := LastSize(events, before);
      assert (steps + [step])[0] == steps[0] && (steps + [step])[1..] == steps[1..] + [step];
      OneStepOn(s', steps[1..], step, told);
      LastSizeAppend(events, Log(s', steps[1..] + [step]), before);
      LastSizeAppend(events, Log(s', steps[1..]), before);
    }
  }

  lemma SizeUnchanged(events: seq<Event>, told: DisplaySize)
    ensures events == [] ==> LastSize(events, told) == told
    ensures |events| == 1 ==> LastSize(events, told) == if events[0].Resized? then told else events[0].size
  {
    if |events| == 1 {
      assert events[1..] == [];
    }
  }

  /** A run goes on by one step to a state and an announced size that are known. */
  ghost predicate Reaches(s: State, steps: seq<Step>, e: State, told: DisplaySize) {
    Exec(s, steps) == e && LastSize(Log(s, steps), s.lastHello) == told
  }

  lemma ReachesNext(s: State, steps: seq<Step>, e: State, told: DisplaySize, step: Step)
    requires Reaches(s, steps, e, told)
    ensures var (e', events) := Apply(e, step);
            && Reaches(s, steps + [step], e', LastSize(events, told))
            && (events == [] ==> LastSize(events, told) == told)
            && (|events| == 1 ==> LastSize(events, told) == if events[0].Resized? then told else events[0].size)
  {
    OneStepOn(s, steps, step, s.lastHello);
    SizeUnchanged(Apply(e, step).1, told);
  }

  predicate Visible(c: Client) { c.width > 0 && c.height > 0 }

  /** A new session greeted with the size of the moment. */
  lemma GreetedRun(s: State) returns (steps: seq<Step>)
    requires s.accept.Idle?
    ensures Reaches(s, steps, s.(session := true, accept := Greeted(Desired(s))), Desired(s))
  {
    var size := Desired(s);
    ReachesNext(s, [], s, s.lastHello, Accept);
    ReachesNext(s, [Accept], s.(session := true, accept := Accepted), s.lastHello, Measure);
    assert [Accept] + [Measure] == [Accept, Measure] && [] + [Accept] == [Accept];
    ReachesNext(s, [Accept, Measure], s.(session := true, accept := Measured(size)), s.lastHello, Greet);
    steps := [Accept, Measure] + [Greet];
  }

  /** A resize announced before the accepting thread notes its own hello, and the note behind it. */
  lemma OvertakenRun(s: State, steps: seq<Step>, e: State, told: DisplaySize, other: Client, at: int)
      returns (longer: seq<Step>)
    requires Reaches(s, steps, e, told) && e.accept.Greeted? && e.session
    requires e.config.adaptiveResolution && e.lastAdaptiveHelloAtMs == 0 && Visible(other) && at > 0
    requires Desired(e.(client := other)) != e.lastHello
    ensures var after := e.(client := other, resizeAtMs := 0, lastAdaptiveHelloAtMs := at + SETTLE_MS,
                            lastHello := e.accept.size, accept := Idle);
            Reaches(s, longer, after, Desired(e.(client := other)))
  {
    var there := Desired(e.(client := other));
    var resize, tick := Resize(false, other, at), Tick(at + SETTLE_MS);
    ReachesNext(s, steps, e, told, resize);
    var moved := e.(client := other, resizeAtMs := at);
    var resized := steps + [resize];
    ReachesNext(s, resized, moved, told, tick);
    var sent := moved.(resizeAtMs := 0, lastAdaptiveHelloAtMs := at + SETTLE_MS, lastHello := there);
    assert Apply(moved, tick).0 == sent && Apply(moved, tick).1 == [AdaptiveHello(at + SETTLE_MS, there)];
    var ticked := resized + [tick];
    ReachesNext(s, ticked, sent, there, Store);
    longer := ticked + [Store];
  }

  /**
  Any two window sizes with different displays: a resize announced between the
  accepting thread's hello and its note of it, and undone later, leaves the
  sender with the wrong display, nothing pending and the note agreeing with the
  window.
  */
  lemma RaceMisleads(s: State, other: Client, at: int) returns (steps: seq<Step>)
    requires s.config.adaptiveResolution && s.accept.Idle? && s.lastAdaptiveHelloAtMs == 0
    requires Visible(s.client) && Visible(other) && at > 0
    requires Desired(s.(client := other)) != Desired(s) && Desired(s.(client := other)) != s.lastHello
    ensures var e := Exec(s, steps);
            && e.session && e.resizeAtMs == 0 && e.accept.Idle? && e.client == s.client
            && e.lastHello == Desired(e) != LastSize(Log(s, steps), s.lastHello)
  {
    var here, there := Desired(s), Desired(s.(client := other));
    steps := GreetedRun(s);
    var greeted := s.(session := true, accept := Greeted(here));
    assert Desired(greeted.(client := other)) == there;
    steps := OvertakenRun(s, steps, greeted, here, other, at);
    var noted := greeted.(client := other, resizeAtMs := 0, lastAdaptiveHelloAtMs := at + SETTLE_MS,
                          lastHello := here, accept := Idle);
    var back, tick := Resize(false, s.client, at + SETTLE_MS), Tick(at + 2 * SETTLE_MS);
    ReachesNext(s, steps, noted, there, back);
    var returned := noted.(client := s.client, resizeAtMs := at + SETTLE_MS);
    steps := steps + [back];
    assert Desired(returned) == here;
    ReachesNext(s, steps, returned, there, tick);
    steps := steps + [tick];
  }

  lemma AcceptedRun(s: State) returns (steps: seq<Step>)
    requires s.accept.Idle?
    ensures Reaches(s, steps, s.(session := true, lastHello := Desired(s)), Desired(s))
  {
    steps := GreetedRun(s);
    ReachesNext(s, steps, s.(session := true, accept := Greeted(Desired(s))), Desired(s), Store);
    steps := steps + [Store];
  }

  lemma MinimizedRun(s: State, now: int) returns (steps: seq<Step>)
    requires s.accept.Idle?
    ensures Reaches(s, steps, s.(session := true, lastHello := Desired(s), client := Client(0, 0)), Desired(s))
  {
    var minimize := Resize(true, Client(0, 0), now);
    steps := AcceptedRun(s);
    ReachesNext(s, steps, s.(session := true, lastHello := Desired(s)), Desired(s), minimize);
    steps := steps + [minimize];
  }

  lemma DefaultSizes(s: State)
    requires s.config == DEFAULTS.(adaptiveResolution := true)
    ensures s.client == Client(1000, 600) ==> Desired(s) == DisplaySize(1000, 600)
    ensures s.client == Client(0, 0) ==> Desired(s) == DisplaySize(1280, 720)
  {
    EvenAlready(1000);
    EvenAlready(600);
  }

  /** Minimizing an announced window leaves the announced size different from the wanted one, with nothing pending. */
  lemma MinimizingUnsettles() returns (steps: seq<Step>)
    ensures var config := DEFAULTS.(adaptiveResolution := true);
            var e := Exec(State(config, Client(1000, 600), false, 0, 0, DisplaySize(0, 0), Idle), steps);
            && e.session && e.resizeAtMs == 0 && e.accept.Idle?
            && e.lastHello == DisplaySize(1000, 600) && Desired(e) == DisplaySize(1280, 720)
  {
    var s := State(DEFAULTS.(adaptiveResolution := true), Client(1000, 600), false, 0, 0, DisplaySize(0, 0), Idle);
    DefaultSizes(s);
    steps := MinimizedRun(s, 7);
    DefaultSizes(Exec(s, steps));
  }

  lemma EvenAlready(v: nat)
    requires v % 2 == 0
    ensures Config.RoundEven(v) == v
  {
  }

  /** After the resize at `resizeAtMs`, the first time nothing holds its hello back. */
  function Deadline(s: State): int {
    Max(s.resizeAtMs + SETTLE_MS,
        if s.lastAdaptiveHelloAtMs == 0 then 0 else s.lastAdaptiveHelloAtMs + SPACING_MS)
  }

  /** Ticks and the accepting thread only, no two ticks more than `delta` apart. */
  ghost predicate TicksWithin(from: int, steps: seq<Step>, delta: nat)
    decreases |steps|
  {
    steps == [] ||
    (match steps[0]
     case Tick(now) => now <= from + delta && TicksWithin(now, steps[1..], delta)
     case Resize(_, _, _) => false
     case Reap => false
     case _ => TicksWithin(from, steps[1..], delta))
  }

  /** With a session and no further resize, the new size is announced one tick after the deadline at the latest. */
  lemma {:induction false} AnnouncedInTime(s: State, from: int, steps: seq<Step>, delta: nat) returns (k: nat)
    requires s.config.adaptiveResolution && s.session && s.resizeAtMs != 0
    requires from <= Deadline(s) && TicksWithin(from, steps, delta)
    requires steps != [] && steps[|steps| - 1].Tick? && steps[|steps| - 1].now >= Deadline(s)
    ensures k < |steps| && steps[k].Tick? && steps[k].now <= Deadline(s) + delta
    ensures var e := Exec(s, steps[..k + 1]);
            e.session && e.resizeAtMs == 0 && e.lastHello == Desired(e) == Desired(s)
    decreases |steps|
  {
    var s' := Apply(s, steps[0]).0;
    if steps[0].Tick? && s'.resizeAtMs == 0 {
      k := 0;
      assert steps[..1][1..] == [];
    } else {
      var m := AnnouncedInTime(s', if steps[0].Tick? then steps[0].now else from, steps[1..], delta);
      k := m + 1;
      assert steps[..k + 1][1..] == steps[1..][..m + 1];
    }
  }

  /** What the step says, and what the accepting thread holds, is the wanted size or was held before. */
  lemma StepSizes(s: State, step: Step)
    ensures forall k | 0 <= k < |Apply(s, step).1| ::
              var e := Apply(s, step).1[k];
              e.Resized? || e.size == Desired(s) || (Remembering(s) && e.size == s.accept.size)
    ensures var s' := Apply(s, step).0;
            && s'.config == s.config
            && (Remembering(s') ==>
                  s'.accept.size == Desired(s) || (Remembering(s) && s'.accept.size == s.accept.size))
  {
  }

  lemma DesiredEncodable(text: string, s: State)
    requires s.config == Config.ApplyAll(DEFAULTS, EffectsOf(text))
    ensures Encodable(Desired(s))
  {
    AnySizeEncodable(text, s.client.width, s.client.height);
  }

  /** Every size ever announced can be encoded, whatever the configuration file says and the window does. */
  lemma {:induction false} EverySizeEncodable(text: string, s: State, steps: seq<Step>, k: nat)
    requires s.config == Config.ApplyAll(DEFAULTS, EffectsOf(text))
    requires Remembering(s) ==> Encodable(s.accept.size)
    requires k < |Log(s, steps)| && !Log(s, steps)[k].Resized?
    ensures Encodable(Log(s, steps)[k].size)
    decreases |steps|
  {
    var (s', events) := Apply(s, steps[0]);
    DesiredEncodable(text, s);
    StepSizes(s, steps[0]);
    if k >= |events| {
      EverySizeEncodable(text, s', steps[1..], k - |events|);
    }
  }

  /** A resize starts the debounce exactly for a visible, non-empty window in adaptive mode. */
  lemma ResizeNoted(s: State, minimized: bool, client: Client, now: int)
    ensures var s' := Apply(s, Resize(minimized, client, now)).0;
            && s'.client == client
            && s'.resizeAtMs ==
               if !minimized && client.width > 0 && client.height > 0 && s.config.adaptiveResolution then now
               else s.resizeAtMs
  {
  }
}
