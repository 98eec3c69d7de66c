/** The counting semaphore of the PR loop (scripts/pr-loop-daemon.ts). */
module Semaphore {
  import opened Basics

  type Caller = nat

  /** `queue` holds the callers whose resolver waits. */
  datatype State = State(limit: int, active: int, queue: seq<Caller>)

  class AsyncSemaphore {
    const limit: int
    var active: int
    var queue: seq<Caller>

    constructor (limit: int)
      ensures this.limit == limit && active == 0 && queue == []
    {
      this.limit := limit;
      active, queue := 0, [];
    }

    function View(): State
      reads this
    {
      State(limit, active, queue)
    }

    /** True if the caller may go on at once. */
    method Acquire(caller: Caller) returns (entered: bool)
      modifies this
      ensures (View(), entered) == Acquired(old(View()), caller)
    {
      if active < limit {
        active := active + 1;
        return true;
      }
      queue := queue + [caller];
      return false;
    }

    /** The waiting caller that is woken, if any. */
    method Release() returns (woken: Option<Caller>)
      modifies this
      ensures (View(), woken) == Released(old(View()))
    {
      active := active - 1;
      if queue == [] {
        return None;
      }
      var next := queue[0];
      queue := queue[1..];
      active := active + 1;
      return Some(next);
    }
  }

  function Acquired(s: State, caller: Caller): (State, bool) {
    if s.active < s.limit then (s.(active := s.active + 1), true) else (s.(queue := s.queue + [caller]), false)
  }

  function Released(s: State): (State, Option<Caller>) {
    if s.queue == [] then (s.(active := s.active - 1), None)
    else (s.(queue := s.queue[1..]), Some(s.queue[0]))
  }

  // ---- Runs with matched acquire and release ----

  /** Who asked, who entered, in which order, and who has left again. */
  datatype World = World(sem: State, arrived: seq<Caller>, entered: seq<Caller>, left: set<Caller>)

  datatype Event = Arrive(caller: Caller) | Leave(caller: Caller)

  function Start(limit: int): World {
    World(State(limit, 0, []), [], [], {})
  }

  /** A caller acquires once, and releases once, after it has entered. */
  predicate Enabled(w: World, e: Event) {
    match e
    case Arrive(caller) => caller !in w.arrived
    case Leave(caller) => caller in w.entered && caller !in w.left
  }

  function Step(w: World, e: Event): World {
    match e
    case Arrive(caller) =>
      var (sem, entered) := Acquired(w.sem, caller);
      World(sem, w.arrived + [caller], if entered then w.entered + [caller] else w.entered, w.left)
    case Leave(caller) =>
      var (sem, woken) := Released(w.sem);
      World(sem, w.arrived, if woken.Some? then w.entered + [woken.value] else w.entered, w.left + {caller})
  }

  predicate LegalRun(w: World, events: seq<Event>)
    decreases |events|
  {
    events == [] || (Enabled(w, events[0]) && LegalRun(Step(w, events[0]), events[1..]))
  }

  function Run(w: World, events: seq<Event>): World
    decreases |events|
  {
    if events == [] then w else Run(Step(w, events[0]), events[1..])
  }

  predicate NoRepeats(s: seq<Caller>) {
    forall i, j :: 0 <= i < j < |s| ==> s[i] != s[j]
  }

  function Elements(s: seq<Caller>): set<Caller> {
    set t | t in s
  }

  /** Callers enter in the order they arrive and the queue holds exactly the rest; the counter is the number of
      callers inside, never over the limit, and nobody waits while there is room. */
  ghost predicate Inv(w: World) {
    && w.entered + w.sem.queue == w.arrived
    && NoRepeats(w.arrived)
    && w.left <= Elements(w.entered)
    && w.sem.active == |w.entered| - |w.left|
    && 0 <= w.sem.active <= w.sem.limit
    && (w.sem.queue != [] ==> w.sem.active == w.sem.limit)
  }

  lemma ArriveKeeps(w: World, caller: Caller)
    requires Inv(w) && Enabled(w, Arrive(caller))
    ensures Inv(Step(w, Arrive(caller)))
  {
    var w' := Step(w, Arrive(caller));
    assert w'.entered + w'.sem.queue == w.entered + w.sem.queue + [caller];
    if w.sem.active < w.sem.limit {
      assert w.sem.queue == [];
    }
  }

  lemma {:induction false} SomeoneInside(entered: seq<Caller>, left: set<Caller>, caller: Caller)
    requires NoRepeats(entered) && left <= Elements(entered)
    ensures |left| <= |entered|
    ensures caller in entered && caller !in left ==> |left| < |entered|
  {
    if entered != [] {
      var n := |entered| - 1;
      var last := entered[n];
      forall t | t in left - {last} ensures t in entered[..n] {
      }
      SomeoneInside(entered[..n], left - {last}, caller);
    }
  }

  lemma LeaveKeeps(w: World, caller: Caller)
    requires Inv(w) && Enabled(w, Leave(caller))
    ensures Inv(Step(w, Leave(caller)))
  {
    var w' := Step(w, Leave(caller));
    assert NoRepeats(w.entered) by {
      forall i, j | 0 <= i < j < |w.entered| ensures w.entered[i] != w.entered[j] {
        assert w.arrived[i] == w.entered[i] && w.arrived[j] == w.entered[j];
      }
    }
    SomeoneInside(w.entered, w.left, caller);
    if w.sem.queue != [] {
      assert w.sem.queue == [w.sem.queue[0]] + w.sem.queue[1..];
      assert w'.entered + w'.sem.queue == w.entered + w.sem.queue;
    }
    assert |w'.left| == |w.left| + 1;
  }

  /** Over every run, starting empty. */
  lemma {:induction false} RunKeeps(w: World, events: seq<Event>)
    requires Inv(w) && LegalRun(w, events)
    ensures Inv(Run(w, events))
    decreases |events|
  {
    if events != [] {
      match events[0] {
        case Arrive(caller) => ArriveKeeps(w, caller);
        case Leave(caller) => LeaveKeeps(w, caller);
      }
      RunKeeps(Step(w, events[0]), events[1..]);
    }
  }

  /** In any matched run of a semaphore with a limit of at least zero: the counter stays between zero and the
      limit, a waiting caller means that the limit is reached, callers enter in arrival order and none is lost:
      whoever has not entered is in the queue. */
  lemma SemaphoreIsFair(limit: nat, events: seq<Event>)
    requires LegalRun(Start(limit), events)
    ensures var w := Run(Start(limit), events);
            && 0 <= w.sem.active <= w.sem.limit
            && (w.sem.queue != [] ==> w.sem.active == w.sem.limit)
            && w.entered <= w.arrived
            && w.sem.queue == w.arrived[|w.entered|..]
  {
    RunKeeps(Start(limit), events);
    var w := Run(Start(limit), events);
    assert w.arrived == w.entered + w.sem.queue;
  }

  /** When every caller inside has left, nobody is waiting: with a positive limit the queue always drains. */
  lemma NobodyIsLeftBehind(limit: nat, events: seq<Event>)
    requires limit > 0 && LegalRun(Start(limit), events)
    requires forall t :: t in Run(Start(limit), events).entered ==> t in Run(Start(limit), events).left
    ensures Run(Start(limit), events).entered == Run(Start(limit), events).arrived
  {
    RunKeeps(Start(limit), events);
    var w := Run(Start(limit), events);
    LimitIsConstant(Start(limit), events);
    assert w.left == Elements(w.entered);
    assert NoRepeats(w.entered) by {
      forall i, j | 0 <= i < j < |w.entered| ensures w.entered[i] != w.entered[j] {
        assert w.arrived[i] == w.entered[i] && w.arrived[j] == w.entered[j];
      }
    }
    AllDistinct(w.entered);
    assert w.entered + [] == w.entered;
  }

  lemma {:induction false} LimitIsConstant(w: World, events: seq<Event>)
    ensures Run(w, events).sem.limit == w.sem.limit
    decreases |events|
  {
    if events != [] {
      LimitIsConstant(Step(w, events[0]), events[1..]);
    }
  }

  lemma {:induction false} AllDistinct(s: seq<Caller>)
    requires NoRepeats(s)
    ensures |Elements(s)| == |s|
  {
    if s != [] {
      var n := |s| - 1;
      AllDistinct(s[..n]);
      assert s == s[..n] + [s[n]];
      assert Elements(s) == Elements(s[..n]) + {s[n]} && s[n] !in Elements(s[..n]);
    }
  }
}
