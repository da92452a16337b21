/**
The bounded queue between the read thread and the decode thread
(app/video_queue.h).  Every operation holds the mutex, so an interleaving of
threads is a sequence of steps; a wait is one step, taken when it ends.
*/
module VideoQueue {
  import opened Bytes

  const CAPACITY: nat := 2

  datatype State<T> = State(queue: seq<T>, dropped: nat, shuttingDown: bool)

  datatype Step<T> = Push(item: T) | PopWait | Shutdown

  function PushStep<T>(capacity: nat, s: State<T>, item: T): State<T>
    requires capacity > 0
  {
    if |s.queue| >= capacity then s.(queue := s.queue[1..] + [item], dropped := s.dropped + 1)
    else s.(queue := s.queue + [item])
  }

  /** The wait ends with a frame, at shutdown or at the timeout; only a frame is ever taken. */
  function PopStep<T>(s: State<T>): (State<T>, Option<T>) {
    if s.queue == [] then (s, None) else (s.(queue := s.queue[1..]), Some(s.queue[0]))
  }

  function Apply<T>(capacity: nat, s: State<T>, step: Step<T>): State<T>
    requires capacity > 0
  {
    match step
    case Push(item) => PushStep(capacity, s, item)
    case PopWait => PopStep(s).0
    case Shutdown => s.(shuttingDown := true)
  }

  class VideoQueue<T> {
    const capacity: nat
    var queue: seq<T>
    var shuttingDown: bool
    var dropped: nat

    ghost predicate Valid()
      reads this
    {
      capacity > 0
    }

    ghost function Value(): State<T>
      reads this
    {
      State(queue, dropped, shuttingDown)
    }

    constructor (capacity: nat := CAPACITY)
      requires capacity > 0
      ensures Valid() && this.capacity == capacity
      ensures Value() == State([], 0, false)
    {
      this.capacity := capacity;
      queue := [];
      shuttingDown := false;
      dropped := 0;
    }

    method Push(item: T) returns (dropping: bool)
      requires Valid()
      modifies this
      ensures Valid() && Value() == PushStep(capacity, old(Value()), item)
      ensures dropping <==> dropped == old(dropped) + 1
    {
      dropping := false;
      if |queue| >= capacity {
        queue := queue[1..];
        dropping := true;
      }
      queue := queue + [item];
      if dropping {
        dropped := dropped + 1;
      }
    }

    method PopWait() returns (item: Option<T>)
      requires Valid()
      modifies this
      ensures Valid() && (Value(), item) == PopStep(old(Value()))
    {
      if queue == [] {
        return None;
      }
      item := Some(queue[0]);
      queue := queue[1..];
    }

    method Shutdown()
      requires Valid()
      modifies this
      ensures Valid() && Value() == old(Value()).(shuttingDown := true)
    {
      shuttingDown := true;
    }
  }

  // ----- Runs -------------------------------------------------------------------------

  function Exec<T>(capacity: nat, s: State<T>, steps: seq<Step<T>>): State<T>
    requires capacity > 0
    decreases |steps|
  {
    if steps == [] then s else Exec(capacity, Apply(capacity, s, steps[0]), steps[1..])
  }

  function Pushed<T>(steps: seq<Step<T>>): seq<T> {
    if steps == [] then []
    else (match steps[0] case Push(item) => [item] case _ => []) + Pushed(steps[1..])
  }

  /** A frame some wait returned, and how many pushes had happened by then. */
  datatype Take<T> = Take(item: T, pushes: nat)

  function Taken<T>(capacity: nat, s: State<T>, steps: seq<Step<T>>, pushes: nat): seq<Take<T>>
    requires capacity > 0
    decreases |steps|
  {
    if steps == [] then []
    else
      var n := if steps[0].Push? then pushes + 1 else pushes;
      var taken := if steps[0].PopWait? && s.queue != [] then [Take(s.queue[0], n)] else [];
      taken + Taken(capacity, Apply(capacity, s, steps[0]), steps[1..], n)
  }

  /** The queue holds the last frames pushed, in order and never more than its capacity. */
  ghost predicate HoldsSuffix<T>(capacity: nat, s: State<T>, past: seq<T>) {
    && |s.queue| <= capacity
    && |s.queue| <= |past|
    && s.queue == past[|past| - |s.queue|..]
  }

  /** What pushing at capacity keeps of the queue. */
  lemma PushKeepsSuffix<T>(capacity: nat, s: State<T>, past: seq<T>, item: T)
    requires capacity > 0 && HoldsSuffix(capacity, s, past)
    ensures HoldsSuffix(capacity, PushStep(capacity, s, item), past + [item])
  {
    var kept := if |s.queue| >= capacity then s.queue[1..] else s.queue;
    var from := |past| - |kept|;
    assert kept == past[from..];
    assert (past + [item])[from..] == past[from..] + [item];
  }

  lemma StepKeepsSuffix<T>(capacity: nat, s: State<T>, past: seq<T>, step: Step<T>)
    requires capacity > 0 && HoldsSuffix(capacity, s, past)
    ensures HoldsSuffix(capacity, Apply(capacity, s, step), past + Pushed([step]))
  {
    PushedOne(step);
    if step.Push? {
      PushKeepsSuffix(capacity, s, past, step.item);
    } else {
      assert past + [] == past;
    }
  }

  lemma PushedOne<T>(step: Step<T>)
    ensures Pushed([step]) == match step case Push(item) => [item] case _ => []
  {
    assert [step][1..] == [];
  }

  lemma PushedFirst<T>(past: seq<T>, steps: seq<Step<T>>)
    requires steps != []
    ensures past + Pushed(steps) == (past + Pushed([steps[0]])) + Pushed(steps[1..])
  {
    assert [steps[0]][1..] == [];
    ConcatAssoc(past, Pushed([steps[0]]), Pushed(steps[1..]));
  }

  /** In every run the queue holds a contiguous suffix of everything pushed. */
  lemma {:induction false} ContentsAreNewest<T>(capacity: nat, s: State<T>, past: seq<T>, steps: seq<Step<T>>)
    requires capacity > 0 && HoldsSuffix(capacity, s, past)
    ensures HoldsSuffix(capacity, Exec(capacity, s, steps), past + Pushed(steps))
    decreases |steps|
  {
    if steps != [] {
      StepKeepsSuffix(capacity, s, past, steps[0]);
      PushedFirst(past, steps);
      ContentsAreNewest(capacity, Apply(capacity, s, steps[0]), past + Pushed([steps[0]]), steps[1..]);
    } else {
      assert past + [] == past;
    }
  }

  /** No frame is lost unaccounted: pushed = taken + dropped + still queued. */
  lemma {:induction false} NothingLost<T>(capacity: nat, s: State<T>, steps: seq<Step<T>>, pushes: nat)
    requires capacity > 0
    ensures var e := Exec(capacity, s, steps);
            |s.queue| + s.dropped + |Pushed(steps)| ==
            |Taken(capacity, s, steps, pushes)| + e.dropped + |e.queue|
    decreases |steps|
  {
    if steps != [] {
      var n := if steps[0].Push? then pushes + 1 else pushes;
      NothingLost(capacity, Apply(capacity, s, steps[0]), steps[1..], n);
    }
  }

  /** Frame k was push number at[k]; no earlier than `from`, in push order, and fresh when taken. */
  ghost predicate InPushOrder<T>(capacity: nat, from: nat, pushed: seq<T>, taken: seq<Take<T>>, at: seq<nat>) {
    && |at| == |taken|
    && (forall k | 0 <= k < |at| ::
          && from <= at[k] < taken[k].pushes <= |pushed|
          && taken[k].pushes <= at[k] + capacity
          && taken[k].item == pushed[at[k]])
    && (forall j, k | 0 <= j < k < |at| :: at[j] < at[k])
  }

  lemma Prepend<T>(capacity: nat, first: nat, next: nat, pushed: seq<T>, t: Take<T>, taken: seq<Take<T>>, at: seq<nat>)
    requires InPushOrder(capacity, next, pushed, taken, at)
    requires first < next && first < t.pushes <= |pushed| && t.pushes <= first + capacity
    requires t.item == pushed[first]
    ensures InPushOrder(capacity, first, pushed, [t] + taken, [first] + at)
  {
    var all, ats := [t] + taken, [first] + at;
    forall k | 0 <= k < |ats|
      ensures first <= ats[k] < all[k].pushes <= |pushed|
      ensures all[k].pushes <= ats[k] + capacity && all[k].item == pushed[ats[k]]
    {
      if k > 0 {
        assert ats[k] == at[k - 1] && all[k] == taken[k - 1];
      }
    }
    forall j, k | 0 <= j < k < |ats|
      ensures ats[j] < ats[k]
    {
      assert ats[k] == at[k - 1];
      if j > 0 {
        assert ats[j] == at[j - 1];
      }
    }
  }

  lemma StartsLater<T>(capacity: nat, from: nat, next: nat, pushed: seq<T>, taken: seq<Take<T>>, at: seq<nat>)
    requires InPushOrder(capacity, next, pushed, taken, at) && from <= next
    ensures InPushOrder(capacity, from, pushed, taken, at)
  {
  }

  /** How one step moves the first frame still to come. */
  lemma NextFirst<T>(capacity: nat, s: State<T>, past: seq<T>, step: Step<T>)
    requires capacity > 0 && HoldsSuffix(capacity, s, past)
    ensures var s', past' := Apply(capacity, s, step), past + Pushed([step]);
            && |past'| == |past| + (if step.Push? then 1 else 0)
            && |past| - |s.queue| + (if step.PopWait? && s.queue != [] then 1 else 0) <= |past'| - |s'.queue|
  {
    PushedOne(step);
  }

  /**
  Every wait that returns a frame returns one of the `capacity` newest pushed by
  then, and frames come out strictly in the order they were pushed.
  */
  lemma {:induction false} TakenInOrder<T>(capacity: nat, s: State<T>, past: seq<T>, steps: seq<Step<T>>)
      returns (at: seq<nat>)
    requires capacity > 0 && HoldsSuffix(capacity, s, past)
    ensures InPushOrder(capacity, |past| - |s.queue|, past + Pushed(steps), Taken(capacity, s, steps, |past|), at)
    decreases |steps|
  {
    at := [];
    if steps != [] {
      var s', past' := Apply(capacity, s, steps[0]), past + Pushed([steps[0]]);
      var all, first := past + Pushed(steps), |past| - |s.queue|;
      StepKeepsSuffix(capacity, s, past, steps[0]);
      NextFirst(capacity, s, past, steps[0]);
      PushedFirst(past, steps);
      at := TakenInOrder(capacity, s', past', steps[1..]);
      var rest := Taken(capacity, s', steps[1..], |past'|);
      if steps[0].PopWait? && s.queue != [] {
        assert past[first] == s.queue[0];
        StartsLater(capacity, first + 1, |past'| - |s'.queue|, all, rest, at);
        Prepend(capacity, first, first + 1, all, Take(s.queue[0], |past|), rest, at);
        at := [first] + at;
      } else {
        StartsLater(capacity, first, |past'| - |s'.queue|, all, rest, at);
        assert [] + rest == rest;
      }
    }
  }

  function Items<T>(taken: seq<Take<T>>): (v: seq<T>)
    ensures |v| == |taken|
  {
    seq(|taken|, k requires 0 <= k < |taken| => taken[k].item)
  }

  lemma {:induction false} DroppedGrows<T>(capacity: nat, s: State<T>, steps: seq<Step<T>>)
    requires capacity > 0
    ensures Exec(capacity, s, steps).dropped >= s.dropped
    decreases |steps|
  {
    if steps != [] {
      DroppedGrows(capacity, Apply(capacity, s, steps[0]), steps[1..]);
    }
  }

  lemma {:induction false} NoDropKeepsAll<T>(capacity: nat, s: State<T>, steps: seq<Step<T>>, pushes: nat)
    requires capacity > 0 && Exec(capacity, s, steps).dropped == s.dropped
    ensures Items(Taken(capacity, s, steps, pushes)) + Exec(capacity, s, steps).queue == s.queue + Pushed(steps)
    decreases |steps|
  {
    if steps == [] {
      assert [] + s.queue == s.queue + [];
    } else {
      var s' := Apply(capacity, s, steps[0]);
      var n := if steps[0].Push? then pushes + 1 else pushes;
      var later, end := Taken(capacity, s', steps[1..], n), Exec(capacity, s', steps[1..]).queue;
      DroppedGrows(capacity, s', steps[1..]);
      NoDropKeepsAll(capacity, s', steps[1..], n);
      if steps[0].Push? {
        assert [] + later == later;
        ConcatAssoc(s.queue, [steps[0].item], Pushed(steps[1..]));
      } else if steps[0].PopWait? && s.queue != [] {
        var first := Take(s.queue[0], n);
        assert Items([first] + later) == [s.queue[0]] + Items(later);
        assert s.queue == [s.queue[0]] + s'.queue;
        assert [] + Pushed(steps[1..]) == Pushed(steps[1..]);
        ConcatAssoc([s.queue[0]], Items(later), end);
        ConcatAssoc([s.queue[0]], s'.queue, Pushed(steps[1..]));
      } else {
        assert [] + later == later && [] + Pushed(steps[1..]) == Pushed(steps[1..]);
      }
    }
  }

  /** The frames taken and those still queued are all that were pushed, in order, if and only if none was dropped. */
  lemma CompleteIff<T>(capacity: nat, s: State<T>, steps: seq<Step<T>>, pushes: nat)
    requires capacity > 0
    ensures var e := Exec(capacity, s, steps);
            Items(Taken(capacity, s, steps, pushes)) + e.queue == s.queue + Pushed(steps) <==> e.dropped == s.dropped
  {
    var e := Exec(capacity, s, steps);
    NothingLost(capacity, s, steps, pushes);
    if e.dropped == s.dropped {
      NoDropKeepsAll(capacity, s, steps, pushes);
    } else {
      assert |Items(Taken(capacity, s, steps, pushes)) + e.queue| != |s.queue + Pushed(steps)|;
    }
  }

  /** After shutdown the decode thread drains what is left, in order, and then only gets nothing. */
  lemma {:induction false} ShutdownDrains<T>(capacity: nat, s: State<T>, steps: seq<Step<T>>, pushes: nat)
    requires capacity > 0 && s.shuttingDown
    requires forall k | 0 <= k < |steps| :: steps[k].PopWait?
    ensures var e, n := Exec(capacity, s, steps), Min(|steps|, |s.queue|);
            && e == s.(queue := s.queue[n..])
            && Taken(capacity, s, steps, pushes) == seq(n, k requires 0 <= k < n => Take(s.queue[k], pushes))
    decreases |steps|
  {
    if steps != [] {
      ShutdownDrains(capacity, Apply(capacity, s, steps[0]), steps[1..], pushes);
    }
  }
}
