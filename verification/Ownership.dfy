/**
Who owns the current session (app/main.cpp).  Each section the source runs
under `sessionMutex`, or on one thread alone, is one step, and any interleaving
of the accepting thread, the read threads and the main loop is a run.  Sessions
have numbers that are never used again; the memory they live at may be.  A
destructor closes its session at once; its wait for the read thread is over at
the step Destroy.
*/
module Ownership {
  import opened Bytes

  /** Created but not started, in the read loop, out of it, and past its onClosed callback. */
  datatype Phase = Created | Reading | Ended | Done

  datatype Connection = Connection(address: nat, closed: bool, phase: Phase, freed: bool) {
    /** Still able to deliver something. */
    predicate Live() { !closed && (phase.Created? || phase.Reading?) }
  }

  /** Where the accepting thread is in OnAccept; `replaced` and `newest` are the references it holds meanwhile. */
  datatype Accept =
    | Idle
    | Replacing(replaced: Option<nat>)
    | Replaced(replaced: Option<nat>)
    | Installed(replaced: Option<nat>, newest: nat)
    | Started(replaced: Option<nat>, newest: nat)

  /** `endedSession` is an address, as it is in the source; `reaped` is what the main loop holds to destroy. */
  datatype State = State(sessions: seq<Connection>, session: Option<nat>, endedSession: Option<nat>,
                         accept: Accept, reaped: Option<nat>)

  const INITIAL := State([], None, None, Idle, None)

  datatype Step =
    | TakeCurrent
    | CloseReplaced
    | Install(address: nat)
    | Start
    | FinishAccept
    | Close(id: nat)
    | EndLoop(id: nat)
    | OnClosed(id: nat)
    | Reap
    | DropReaped
    | Destroy(id: nat)

  /** The accepting thread holds a reference to the session. */
  predicate Holds(a: Accept, id: nat) {
    !a.Idle? && (a.replaced == Some(id) || ((a.Installed? || a.Started?) && a.newest == id))
  }

  predicate Owner(s: State, id: nat) { s.session == Some(id) || s.reaped == Some(id) || Holds(s.accept, id) }

  /** An object nobody owns is destroyed once its read thread has ended. */
  predicate Destroyable(s: State, id: nat) {
    id < |s.sessions| && !Owner(s, id) && s.sessions[id].phase.Done?
  }

  predicate InUse(s: State, address: nat) {
    exists id | 0 <= id < |s.sessions| :: !s.sessions[id].freed && s.sessions[id].address == address
  }

  /** Whether the program, its threads and its allocator can take the step. */
  predicate Enabled(s: State, step: Step) {
    match step
    case TakeCurrent => s.accept.Idle?
    case CloseReplaced => s.accept.Replacing? && (s.accept.replaced.Some? ==> s.accept.replaced.value < |s.sessions|)
    case Install(address) => s.accept.Replaced? && !InUse(s, address)
    case Start => s.accept.Installed? && s.accept.newest < |s.sessions|
    case FinishAccept => s.accept.Started? && s.accept.newest < |s.sessions|
    case Close(id) => id < |s.sessions|
    case EndLoop(id) => id < |s.sessions| && s.sessions[id].phase.Reading?
    case OnClosed(id) => id < |s.sessions| && s.sessions[id].phase.Ended?
    case Reap => s.reaped.None? && (s.session.Some? ==> s.session.value < |s.sessions|)
    case DropReaped => s.reaped.Some? && s.reaped.value < |s.sessions|
    case Destroy(id) => Destroyable(s, id)
  }

  function Closed(sessions: seq<Connection>, id: nat): seq<Connection>
    requires id < |sessions|
  {
    sessions[id := sessions[id].(closed := true)]
  }

  function Moved(sessions: seq<Connection>, id: nat, phase: Phase): seq<Connection>
    requires id < |sessions|
  {
    sessions[id := sessions[id].(phase := phase)]
  }

  /** A reference to the session is gone; the last one closes it. */
  function Released(s: State, id: nat): State
    requires id < |s.sessions|
  {
    if Owner(s, id) then s else s.(sessions := Closed(s.sessions, id))
  }

  function Apply(s: State, step: Step): State
    requires Enabled(s, step)
  {
    match step
    case TakeCurrent => s.(accept := Replacing(s.session))
    case CloseReplaced =>
      var before := s.accept.replaced;
      s.(sessions := if before.Some? then Closed(s.sessions, before.value) else s.sessions, accept := Replaced(before))
    case Install(address) =>
      var id := |s.sessions|;
      s.(sessions := s.sessions + [Connection(address, false, Created, false)],
         session := Some(id),
         accept := Installed(s.accept.replaced, id))
    case Start =>
      s.(sessions := Moved(s.sessions, s.accept.newest, Reading), accept := Started(s.accept.replaced, s.accept.newest))
    case FinishAccept => Released(s.(accept := Idle), s.accept.newest)
    case Close(id) => s.(sessions := Closed(s.sessions, id))
    case EndLoop(id) => s.(sessions := Moved(s.sessions, id, Ended))
    case OnClosed(id) =>
      s.(sessions := Moved(s.sessions, id, Done),
         endedSession := if s.session == Some(id) then Some(s.sessions[id].address) else s.endedSession)
    case Reap =>
      if s.session.Some? && s.endedSession == Some(s.sessions[s.session.value].address) then
        s.(session := None, endedSession := None, reaped := s.session)
      else s
    case DropReaped => Released(s.(reaped := None), s.reaped.value)
    case Destroy(id) => s.(sessions := s.sessions[id := s.sessions[id].(closed := true, freed := true)])
  }

  class App {
    var sessions: seq<Connection>
    var session: Option<nat>
    var endedSession: Option<nat>
    var accept: Accept
    var reaped: Option<nat>

    ghost function Value(): State
      reads this
    {
      State(sessions, session, endedSession, accept, reaped)
    }

    constructor ()
      ensures Value() == INITIAL
    {
      sessions, session, endedSession, accept, reaped := [], None, None, Idle, None;
    }

    method TakeCurrent()
      requires Enabled(Value(), Step.TakeCurrent)
      modifies this
      ensures Value() == Apply(old(Value()), Step.TakeCurrent)
    {
      accept := Replacing(session);
    }

    method CloseReplaced()
      requires Enabled(Value(), Step.CloseReplaced)
      modifies this
      ensures Value() == Apply(old(Value()), Step.CloseReplaced)
    {
      var replaced := accept.replaced;
      if replaced.Some? {
        sessions := sessions[replaced.value := sessions[replaced.value].(closed := true)];
      }
      accept := Replaced(replaced);
    }

    method Install(address: nat)
      requires Enabled(Value(), Step.Install(address))
      modifies this
      ensures Value() == Apply(old(Value()), Step.Install(address))
    {
      var newest := |sessions|;
      sessions := sessions + [Connection(address, false, Created, false)];
      session := Some(newest);
      accept := Installed(accept.replaced, newest);
    }

    method Start()
      requires Enabled(Value(), Step.Start)
      modifies this
      ensures Value() == Apply(old(Value()), Step.Start)
    {
      sessions := sessions[accept.newest := sessions[accept.newest].(phase := Reading)];
      accept := Started(accept.replaced, accept.newest);
    }

    method FinishAccept()
      requires Enabled(Value(), Step.FinishAccept)
      modifies this
      ensures Value() == Apply(old(Value()), Step.FinishAccept)
    {
      var newest := accept.newest;
      accept := Idle;
      if session != Some(newest) && reaped != Some(newest) {
        sessions := sessions[newest := sessions[newest].(closed := true)];
      }
    }

    method OnClosed(id: nat)
      requires Enabled(Value(), Step.OnClosed(id))
      modifies this
      ensures Value() == Apply(old(Value()), Step.OnClosed(id))
    {
      if session == Some(id) {
        endedSession := Some(sessions[id].address);
      }
      sessions := sessions[id := sessions[id].(phase := Done)];
    }

    /** The part under the mutex: the ended session moves to a local reference. */
    method ReapEndedSession()
      requires Enabled(Value(), Reap)
      modifies this
      ensures Value() == Apply(old(Value()), Reap)
    {
      if endedSession.Some? && session.Some? && sessions[session.value].address == endedSession.value {
        reaped := session;
        session := None;
        endedSession := None;
      }
    }

    /** The rest of it: that reference is dropped. */
    method DropReaped()
      requires Enabled(Value(), Step.DropReaped)
      modifies this
      ensures Value() == Apply(old(Value()), Step.DropReaped)
    {
      var id := reaped.value;
      reaped := None;
      if session != Some(id) && !Holds(accept, id) {
        sessions := sessions[id := sessions[id].(closed := true)];
      }
    }
  }

  // ----- What every run keeps ---------------------------------------------------------

  /** Only the current session can still deliver, and it is recorded exactly when it is done. */
  ghost predicate Owned(s: State) {
    && (forall id | 0 <= id < |s.sessions| && s.sessions[id].Live() :: s.session == Some(id))
    && (s.session.Some? ==>
          && s.session.value < |s.sessions|
          && (s.endedSession == Some(s.sessions[s.session.value].address) <==> s.sessions[s.session.value].phase.Done?))
    && (s.reaped.Some? ==> s.reaped.value < |s.sessions| && s.sessions[s.reaped.value].phase.Done?)
  }

  /** Where the accepting thread is says what it has already made sure of. */
  ghost predicate Accepting(s: State) {
    && (forall id | 0 <= id < |s.sessions| && s.sessions[id].phase.Created? ::
          s.accept.Installed? && s.accept.newest == id)
    && (match s.accept
        case Idle => true
        case Replacing(before) =>
          && (before.Some? ==> before.value < |s.sessions|)
          && (s.session == before || s.session == None)
        case Replaced(before) =>
          && (s.session == before || s.session == None)
          && (forall id | 0 <= id < |s.sessions| :: !s.sessions[id].Live())
        case Installed(_, newest) =>
          newest < |s.sessions| && s.sessions[newest].phase.Created? && s.session == Some(newest)
        case Started(_, newest) =>
          newest < |s.sessions| && (s.session == Some(newest) || s.sessions[newest].phase.Done?))
  }

  ghost predicate Sound(s: State) { Owned(s) && Accepting(s) }

  /** The allocator reuses the address the application still remembers as ended. */
  predicate Reuses(s: State, step: Step) {
    step.Install? && s.endedSession == Some(step.address)
  }

  lemma AcceptSound(s: State, step: Step)
    requires step.TakeCurrent? || step.CloseReplaced? || step.Start? || step.FinishAccept?
    requires Sound(s) && Enabled(s, step)
    ensures Sound(Apply(s, step))
  {
  }

  lemma InstallSound(s: State, address: nat)
    requires Sound(s) && Enabled(s, Install(address)) && !Reuses(s, Install(address))
    ensures Sound(Apply(s, Install(address)))
  {
  }

  lemma ThreadSound(s: State, step: Step)
    requires step.Close? || step.EndLoop? || step.OnClosed?
    requires Sound(s) && Enabled(s, step)
    ensures Sound(Apply(s, step))
  {
  }

  lemma MainSound(s: State, step: Step)
    requires step.Reap? || step.DropReaped? || step.Destroy?
    requires Sound(s) && Enabled(s, step)
    ensures Sound(Apply(s, step))
  {
  }

  lemma StepSound(s: State, step: Step)
    requires Sound(s) && Enabled(s, step) && !Reuses(s, step)
    ensures Sound(Apply(s, step))
  {
    match step
    case TakeCurrent => AcceptSound(s, step);
    case CloseReplaced => AcceptSound(s, step);
    case Start => AcceptSound(s, step);
    case FinishAccept => AcceptSound(s, step);
    case Install(address) => InstallSound(s, address);
    case Close(_) => ThreadSound(s, step);
    case EndLoop(_) => ThreadSound(s, step);
    case OnClosed(_) => ThreadSound(s, step);
    case Reap => MainSound(s, step);
    case DropReaped => MainSound(s, step);
    case Destroy(_) => MainSound(s, step);
  }

  ghost predicate Possible(s: State, steps: seq<Step>)
    decreases |steps|
  {
    steps == [] || (Enabled(s, steps[0]) && Possible(Apply(s, steps[0]), steps[1..]))
  }

  function Exec(s: State, steps: seq<Step>): State
    requires Possible(s, steps)
    decreases |steps|
  {
    if steps == [] then s else Exec(Apply(s, steps[0]), steps[1..])
  }

  /** No install lands on the address of the last recorded session. */
  ghost predicate NeverReuses(s: State, steps: seq<Step>)
    requires Possible(s, steps)
    decreases |steps|
  {
    steps == [] || (!Reuses(s, steps[0]) && NeverReuses(Apply(s, steps[0]), steps[1..]))
  }

  lemma {:induction false} RunSound(s: State, steps: seq<Step>)
    requires Sound(s) && Possible(s, steps) && NeverReuses(s, steps)
    ensures Sound(Exec(s, steps))
    decreases |steps|
  {
    if steps != [] {
      StepSound(s, steps[0]);
      RunSound(Apply(s, steps[0]), steps[1..]);
    }
  }

  /** In every interleaving at most one session is both unclosed and still reading. */
  lemma OneLiveSession(steps: seq<Step>, a: nat, b: nat)
    requires Possible(INITIAL, steps) && NeverReuses(INITIAL, steps)
    requires a < |Exec(INITIAL, steps).sessions| && b < |Exec(INITIAL, steps).sessions|
    requires Exec(INITIAL, steps).sessions[a].Live() && Exec(INITIAL, steps).sessions[b].Live()
    ensures a == b
  {
    RunSound(INITIAL, steps);
  }

  /** The main loop once it is through with the session it reaped before. */
  function BetweenReaps(s: State): State
    requires s.reaped.Some? ==> Enabled(s, DropReaped)
  {
    if s.reaped.Some? then Apply(s, DropReaped) else s
  }

  /** In every interleaving the next reap removes the current session exactly when its read loop is done. */
  lemma ReapRemovesTheDone(steps: seq<Step>)
    requires Possible(INITIAL, steps) && NeverReuses(INITIAL, steps)
    requires Exec(INITIAL, steps).session.Some?
    ensures var e := Exec(INITIAL, steps);
            && (e.reaped.Some? ==> Enabled(e, DropReaped))
            && var s := BetweenReaps(e);
               && s.session == e.session && Enabled(s, Reap)
               && (Apply(s, Reap).session == None <==> s.sessions[s.session.value].phase.Done?)
  {
    RunSound(INITIAL, steps);
    var e := Exec(INITIAL, steps);
    if e.reaped.Some? {
      StepSound(e, DropReaped);
    }
  }

  // ----- What holds even when addresses are used again --------------------------------------------

  /** The session that may deliver: the current one, or the one the accepting thread is about to close or release. */
  function Slot(s: State): Option<nat> {
    if s.session.Some? then s.session
    else match s.accept
      case Replacing(before) => before
      case Installed(_, newest) => Some(newest)
      case Started(_, newest) => Some(newest)
      case _ => None
  }

  ghost predicate ClosedOrNone(s: State, id: Option<nat>) {
    id.Some? ==> id.value < |s.sessions| && s.sessions[id.value].closed
  }

  ghost predicate Guarded(s: State) {
    && (forall id | 0 <= id < |s.sessions| && s.sessions[id].Live() :: Slot(s) == Some(id) || s.reaped == Some(id))
    && (s.session.Some? ==> s.session.value < |s.sessions|)
    && (s.reaped.Some? ==> s.reaped.value < |s.sessions| && s.session != s.reaped)
    && (match s.accept
        case Idle => true
        case Replacing(before) =>
          (before.Some? ==> before.value < |s.sessions|) && (s.session == before || s.session == None)
        case Replaced(before) => ClosedOrNone(s, before) && (s.session == before || s.session == None)
        case Installed(before, newest) =>
          ClosedOrNone(s, before) && newest < |s.sessions| && (s.session == Some(newest) || s.session == None)
        case Started(before, newest) =>
          ClosedOrNone(s, before) && newest < |s.sessions| && (s.session == Some(newest) || s.session == None))
  }

  lemma AcceptGuarded(s: State, step: Step)
    requires step.TakeCurrent? || step.CloseReplaced? || step.Start? || step.FinishAccept?
    requires Guarded(s) && Enabled(s, step)
    ensures Guarded(Apply(s, step))
  {
  }

  lemma InstallGuarded(s: State, address: nat)
    requires Guarded(s) && Enabled(s, Install(address))
    ensures Guarded(Apply(s, Install(address)))
  {
  }

  lemma ThreadGuarded(s: State, step: Step)
    requires step.Close? || step.EndLoop? || step.OnClosed?
    requires Guarded(s) && Enabled(s, step)
    ensures Guarded(Apply(s, step))
  {
  }

  lemma MainGuarded(s: State, step: Step)
    requires step.Reap? || step.DropReaped? || step.Destroy?
    requires Guarded(s) && Enabled(s, step)
    ensures Guarded(Apply(s, step))
  {
  }

  lemma StepGuarded(s: State, step: Step)
    requires Guarded(s) && Enabled(s, step)
    ensures Guarded(Apply(s, step))
  {
    match step
    case TakeCurrent => AcceptGuarded(s, step);
    case CloseReplaced => AcceptGuarded(s, step);
    case Start => AcceptGuarded(s, step);
    case FinishAccept => AcceptGuarded(s, step);
    case Install(address) => InstallGuarded(s, address);
    case Close(_) => ThreadGuarded(s, step);
    case EndLoop(_) => ThreadGuarded(s, step);
    case OnClosed(_) => ThreadGuarded(s, step);
    case Reap => MainGuarded(s, step);
    case DropReaped => MainGuarded(s, step);
    case Destroy(_) => MainGuarded(s, step);
  }

  lemma {:induction false} RunGuarded(s: State, steps: seq<Step>)
    requires Guarded(s) && Possible(s, steps)
    ensures Guarded(Exec(s, steps))
    decreases |steps|
  {
    if steps != [] {
      StepGuarded(s, steps[0]);
      RunGuarded(Apply(s, steps[0]), steps[1..]);
    }
  }

  /**
  In every interleaving, wherever the allocator puts sessions, two of them can
  deliver only while the main loop has reaped one and not yet closed it.
  */
  lemma TwoLiveOnlyWhileReaping(steps: seq<Step>, a: nat, b: nat)
    requires Possible(INITIAL, steps) && a != b
    requires a < |Exec(INITIAL, steps).sessions| && b < |Exec(INITIAL, steps).sessions|
    requires Exec(INITIAL, steps).sessions[a].Live() && Exec(INITIAL, steps).sessions[b].Live()
    ensures Exec(INITIAL, steps).reaped == Some(a) || Exec(INITIAL, steps).reaped == Some(b)
  {
    RunGuarded(INITIAL, steps);
  }

  /** Installing keeps the session state sound if and only if the address is not the remembered one. */
  lemma InstallSoundIff(s: State, address: nat)
    requires Sound(s) && Enabled(s, Install(address))
    ensures Sound(Apply(s, Install(address))) <==> !Reuses(s, Install(address))
  {
    if !Reuses(s, Install(address)) {
      StepSound(s, Install(address));
    } else {
      var s', id := Apply(s, Install(address)), |s.sessions|;
      assert s'.sessions[id].phase.Created? && s'.endedSession == Some(s'.sessions[id].address);
    }
  }

  ghost predicate AlwaysSound(s: State, steps: seq<Step>)
    requires Possible(s, steps)
    decreases |steps|
  {
    Sound(s) && (steps != [] ==> AlwaysSound(Apply(s, steps[0]), steps[1..]))
  }

  /** A run keeps the session state sound throughout if and only if no install lands on the recorded address. */
  lemma {:induction false} AlwaysSoundIff(s: State, steps: seq<Step>)
    requires Sound(s) && Possible(s, steps)
    ensures AlwaysSound(s, steps) <==> NeverReuses(s, steps)
    decreases |steps|
  {
    if steps != [] {
      if Reuses(s, steps[0]) {
        InstallSoundIff(s, steps[0].address);
        assert !Sound(Apply(s, steps[0]));
      } else {
        StepSound(s, steps[0]);
        AlwaysSoundIff(Apply(s, steps[0]), steps[1..]);
      }
    }
  }

  // ----- What an address used again does ------------------------------------------------

  lemma {:induction false} RunThen(s: State, steps: seq<Step>, more: seq<Step>)
    requires Possible(s, steps) && Possible(Exec(s, steps), more)
    ensures Possible(s, steps + more) && Exec(s, steps + more) == Exec(Exec(s, steps), more)
    decreases |steps|
  {
    if steps == [] {
      assert steps + more == more;
    } else {
      assert (steps + more)[1..] == steps[1..] + more;
      RunThen(Apply(s, steps[0]), steps[1..], more);
    }
  }

  lemma RunOne(s: State, steps: seq<Step>, step: Step)
    requires Possible(s, steps) && Enabled(Exec(s, steps), step)
    ensures Possible(s, steps + [step]) && Exec(s, steps + [step]) == Apply(Exec(s, steps), step)
  {
    assert [step][1..] == [];
    RunThen(s, steps, [step]);
  }

  /** A connection is accepted at `address` while nothing else happens. */
  lemma RunAccept(s: State, steps: seq<Step>, address: nat) returns (longer: seq<Step>)
    requires Possible(s, steps)
    requires var e := Exec(s, steps);
             e.accept.Idle? && !InUse(e, address) && (e.session.Some? ==> e.session.value < |e.sessions|)
    ensures Possible(s, longer)
    ensures var e := Exec(s, steps);
            var closed := if e.session.Some? then Closed(e.sessions, e.session.value) else e.sessions;
            Exec(s, longer) ==
            State(closed + [Connection(address, false, Reading, false)], Some(|e.sessions|), e.endedSession, Idle,
                  e.reaped)
  {
    var e := Exec(s, steps);
    var closed := if e.session.Some? then Closed(e.sessions, e.session.value) else e.sessions;
    RunOne(s, steps, TakeCurrent);
    var taken := steps + [TakeCurrent];
    RunOne(s, taken, CloseReplaced);
    var replaced := taken + [CloseReplaced];
    SameInUse(e, Exec(s, replaced), address);
    RunOne(s, replaced, Install(address));
    var installed := replaced + [Install(address)];
    RunOne(s, installed, Start);
    var started := installed + [Start];
    RunOne(s, started, FinishAccept);
    longer := started + [FinishAccept];
    assert Exec(s, installed).sessions == closed + [Connection(address, false, Created, false)];
    assert Moved(Exec(s, installed).sessions, |closed|, Reading) ==
           closed + [Connection(address, false, Reading, false)];
  }

  lemma SameInUse(s: State, t: State, address: nat)
    requires !InUse(s, address) && |s.sessions| == |t.sessions|
    requires forall id | 0 <= id < |s.sessions| ::
               s.sessions[id].freed == t.sessions[id].freed && s.sessions[id].address == t.sessions[id].address
    ensures !InUse(t, address)
  {
  }

  /** The read loop of a session ends and reports it. */
  lemma RunEnd(s: State, steps: seq<Step>, id: nat) returns (longer: seq<Step>)
    requires Possible(s, steps)
    requires id < |Exec(s, steps).sessions| && Exec(s, steps).sessions[id].phase.Reading?
    ensures Possible(s, longer)
    ensures var e := Exec(s, steps);
            Exec(s, longer) ==
            e.(sessions := Moved(e.sessions, id, Done),
               endedSession := if e.session == Some(id) then Some(e.sessions[id].address) else e.endedSession)
  {
    var e := Exec(s, steps);
    RunOne(s, steps, EndLoop(id));
    var ended := steps + [EndLoop(id)];
    RunOne(s, ended, OnClosed(id));
    longer := ended + [OnClosed(id)];
    assert Moved(Moved(e.sessions, id, Ended), id, Done) == Moved(e.sessions, id, Done);
  }

  /** Three connections: the first done, replaced and freed, the third where the first was. */
  const REUSED := State(
    [Connection(1, true, Done, true), Connection(2, true, Reading, false), Connection(1, false, Reading, false)],
    Some(2), Some(1), Idle, None)

  /** Such a state can come about: a done session is replaced before it is reaped. */
  lemma ReuseReachable() returns (steps: seq<Step>)
    ensures Possible(INITIAL, steps) && Exec(INITIAL, steps) == REUSED
  {
    steps := RunAccept(INITIAL, [], 1);
    var s := Exec(INITIAL, steps);
    assert s.sessions == [Connection(1, false, Reading, false)];
    steps := RunEnd(INITIAL, steps, 0);
    s := Exec(INITIAL, steps);
    assert s.sessions == [Connection(1, false, Done, false)];
    steps := RunAccept(INITIAL, steps, 2);
    s := Exec(INITIAL, steps);
    assert s.sessions == [Connection(1, true, Done, false), Connection(2, false, Reading, false)];
    RunOne(INITIAL, steps, Destroy(0));
    steps := steps + [Destroy(0)];
    s := Exec(INITIAL, steps);
    assert s.sessions == [Connection(1, true, Done, true), Connection(2, false, Reading, false)];
    steps := RunAccept(INITIAL, steps, 1);
    assert Exec(INITIAL, steps).sessions == REUSED.sessions;
  }

  /** When an address is used again the source can reap a session that is still reading. */
  lemma ReuseReapsLiveSession() returns (steps: seq<Step>)
    ensures Possible(INITIAL, steps)
    ensures var s := Exec(INITIAL, steps);
            && s.session == Some(2) && |s.sessions| == 3 && s.sessions[2].Live() && s.sessions[2].phase.Reading?
            && Enabled(s, Reap) && Apply(s, Reap).session == None
  {
    steps := ReuseReachable();
  }

  /**
  A connection accepted before the main loop gets to close what it reaped makes
  two sessions that are both unclosed and reading; then the loop closes the first.
  */
  lemma ReuseMakesTwoLive() returns (steps: seq<Step>)
    ensures Possible(INITIAL, steps)
    ensures var s := Exec(INITIAL, steps);
            && |s.sessions| == 4 && s.reaped == Some(2)
            && s.sessions[2].Live() && s.sessions[2].phase.Reading?
            && s.sessions[3].Live() && s.sessions[3].phase.Reading?
            && Enabled(s, DropReaped) && !Apply(s, DropReaped).sessions[2].Live()
  {
    steps := ReuseReachable();
    RunOne(INITIAL, steps, Reap);
    steps := steps + [Reap];
    var s := Exec(INITIAL, steps);
    assert s == State(REUSED.sessions, None, None, Idle, Some(2));
    assert !InUse(s, 3);
    steps := RunAccept(INITIAL, steps, 3);
    assert Exec(INITIAL, steps).sessions == REUSED.sessions + [Connection(3, false, Reading, false)];
  }
}
