/** The in-process queue in front of the transcript manifest lock (lib/brain/transcript-manifest-lock.js): a
    chain of promises per lock file. A promise is named by the call that will resolve it. */
module ManifestLock {
  import opened Basics

  type Call = nat

  /** The promise that each waiting or running call awaits, and the module's map from key to newest promise. */
  class PromiseQueue {
    var tails: map<string, Call>
    var awaited: map<Call, Option<Call>>
    var resolved: set<Call>

    constructor ()
      ensures View() == State(map[], map[], {})
    {
      tails, awaited, resolved := map[], map[], {};
    }

    function View(): State
      reads this
    {
      State(tails, awaited, resolved)
    }

    /** Up to the `await previous`. */
    method Enter(key: string, call: Call)
      modifies this
      ensures View() == Entered(old(View()), key, call)
    {
      var previous := if key in tails then Some(tails[key]) else None;
      tails := tails[key := call];
      awaited := awaited[call := previous];
    }

    /** The `finally` block, reached on success and on error alike. */
    method Exit(key: string, call: Call)
      modifies this
      ensures View() == Exited(old(View()), key, call)
    {
      resolved := resolved + {call};
      if key in tails && tails[key] == call {
        tails := tails - {key};
      }
    }
  }

  datatype State = State(tails: map<string, Call>, awaited: map<Call, Option<Call>>, resolved: set<Call>)

  function Entered(s: State, key: string, call: Call): State {
    State(s.tails[key := call], s.awaited[call := if key in s.tails then Some(s.tails[key]) else None], s.resolved)
  }

  function Exited(s: State, key: string, call: Call): State {
    State(if key in s.tails && s.tails[key] == call then s.tails - {key} else s.tails, s.awaited, s.resolved + {call})
  }

  /** The promise that this call awaits is resolved. */
  predicate MayStart(s: State, call: Call) {
    call in s.awaited && (s.awaited[call].Some? ==> s.awaited[call].value in s.resolved)
  }

  // ---- Runs ----

  /** The queue, and per key: the calls in arrival order and how many have started and finished. */
  datatype World = World(queue: State, arrived: map<string, seq<Call>>, started: map<string, seq<Call>>,
                         finished: map<string, seq<Call>>)

  datatype Event = Arrive(key: string, call: Call) | Begin(key: string, call: Call) | Finish(key: string, call: Call)

  const START := World(State(map[], map[], {}), map[], map[], map[])

  function CallsOf(m: map<string, seq<Call>>, key: string): seq<Call> {
    if key in m then m[key] else []
  }

  /** Calls are new; one begins when its promise is resolved; one that has begun finishes once. */
  predicate Enabled(w: World, e: Event) {
    match e
    case Arrive(key, call) => call !in w.queue.awaited
    case Begin(key, call) =>
      call in CallsOf(w.arrived, key) && call !in CallsOf(w.started, key) && MayStart(w.queue, call)
    case Finish(key, call) => call in CallsOf(w.started, key) && call !in CallsOf(w.finished, key)
  }

  function Step(w: World, e: Event): World {
    match e
    case Arrive(key, call) =>
      w.(queue := Entered(w.queue, key, call), arrived := w.arrived[key := CallsOf(w.arrived, key) + [call]])
    case Begin(key, call) => w.(started := w.started[key := CallsOf(w.started, key) + [call]])
    case Finish(key, call) =>
      w.(queue := Exited(w.queue, key, call), finished := w.finished[key := CallsOf(w.finished, key) + [call]])
  }

  predicate LegalRun(w: World, events: seq<Event>)
    decreases |events|
  {
    events == [] || (Enabled(w, events[0]) && LegalRun(Step(w, events[0]), events[1..]))
  }

  function Run(w: World, events: seq<Event>): World
    decreases |events|
  {
    if events == [] then w else Run(Step(w, events[0]), events[1..])
  }

  /** The awaited promise, if any, is the predecessor's. */
  predicate Follows(previous: Option<Call>, calls: seq<Call>, i: nat)
    requires i < |calls|
  {
    previous.Some? ==> i > 0 && previous.value == calls[i - 1]
  }

  predicate Ordered(a: seq<Call>, s: seq<Call>, f: seq<Call>) {
    && (forall i, j :: 0 <= i < j < |a| ==> a[i] != a[j])
    && f <= s && s <= a && |s| <= |f| + 1
  }

  /** One key's queue, given its calls that arrived, started and finished: they start and finish in arrival order,
      at most one is between the two, each awaits its predecessor unless that had finished when it came, and the
      map entry is the newest call, or is missing when all have finished. */
  ghost predicate KeyOk(q: State, key: string, a: seq<Call>, s: seq<Call>, f: seq<Call>) {
    && Ordered(a, s, f)
    && (forall i :: 0 <= i < |a| ==> a[i] in q.awaited && Follows(q.awaited[a[i]], a, i))
    && (forall i :: 0 <= i < |a| ==> (a[i] in q.resolved <==> i < |f|))
    && (forall i :: |f| < i < |a| ==> q.awaited[a[i]].Some?)
    && (if |f| < |a| then key in q.tails && q.tails[key] == a[|a| - 1] else key !in q.tails)
  }

  ghost predicate KeyInv(w: World, key: string) {
    KeyOk(w.queue, key, CallsOf(w.arrived, key), CallsOf(w.started, key), CallsOf(w.finished, key))
  }

  /** A call belongs to one key. */
  ghost predicate Separate(w: World) {
    forall k1, k2, call :: call in CallsOf(w.arrived, k1) && call in CallsOf(w.arrived, k2) ==> k1 == k2
  }

  ghost predicate Inv(w: World) {
    && (forall key :: KeyInv(w, key))
    && Separate(w)
    && w.queue.resolved <= w.queue.awaited.Keys
  }

  lemma EnterOk(q: State, key: string, call: Call, a: seq<Call>, s: seq<Call>, f: seq<Call>)
    requires KeyOk(q, key, a, s, f) && call !in q.awaited && q.resolved <= q.awaited.Keys
    ensures KeyOk(Entered(q, key, call), key, a + [call], s, f)
  {
    var q', a' := Entered(q, key, call), a + [call];
    forall i | 0 <= i < |a'| ensures a'[i] in q'.awaited && Follows(q'.awaited[a'[i]], a', i) {
      if i < |a| {
        assert Follows(q.awaited[a[i]], a, i);
      }
    }
  }

  lemma EnterElsewhere(q: State, key: string, call: Call, other: string, a: seq<Call>, s: seq<Call>, f: seq<Call>)
    requires KeyOk(q, other, a, s, f) && call !in q.awaited && other != key
    ensures KeyOk(Entered(q, key, call), other, a, s, f)
  {
  }

  lemma ExitOk(q: State, key: string, call: Call, a: seq<Call>, s: seq<Call>, f: seq<Call>)
    requires KeyOk(q, key, a, s, f) && |f| < |a| && call == a[|f|] && s == f + [call]
    ensures KeyOk(Exited(q, key, call), key, a, s, f + [call])
  {
    assert forall i :: 0 <= i < |a| && i != |f| ==> a[i] != call;
  }

  lemma ExitElsewhere(q: State, key: string, call: Call, other: string, a: seq<Call>, s: seq<Call>, f: seq<Call>)
    requires KeyOk(q, other, a, s, f) && call !in a && other != key
    ensures KeyOk(Exited(q, key, call), other, a, s, f)
  {
    assert forall i :: 0 <= i < |a| ==> a[i] != call;
  }

  lemma ArriveKeeps(w: World, key: string, call: Call)
    requires Inv(w) && Enabled(w, Arrive(key, call))
    ensures Inv(Step(w, Arrive(key, call)))
  {
    var w' := Step(w, Arrive(key, call));
    forall k ensures KeyInv(w', k) {
      assert KeyInv(w, k);
      var a, s, f := CallsOf(w.arrived, k), CallsOf(w.started, k), CallsOf(w.finished, k);
      if k == key {
        EnterOk(w.queue, key, call, a, s, f);
      } else {
        EnterElsewhere(w.queue, key, call, k, a, s, f);
      }
    }
    forall k1, k2, c | c in CallsOf(w'.arrived, k1) && c in CallsOf(w'.arrived, k2) ensures k1 == k2 {
      assert KeyInv(w, k1) && KeyInv(w, k2);
    }
  }

  /** Only the first call that has not finished can begin, and only when nobody is running. */
  lemma BeginIsNext(w: World, key: string, call: Call)
    requires Inv(w) && Enabled(w, Begin(key, call))
    ensures var a, f := CallsOf(w.arrived, key), CallsOf(w.finished, key);
            |f| < |a| && a[|f|] == call && CallsOf(w.started, key) == f
  {
    assert KeyInv(w, key);
    var a, s, f := CallsOf(w.arrived, key), CallsOf(w.started, key), CallsOf(w.finished, key);
    var i :| 0 <= i < |a| && a[i] == call;
    assert i >= |s| by {
      assert forall j :: 0 <= j < |s| ==> s[j] == a[j];
    }
    assert Follows(w.queue.awaited[call], a, i);
    assert forall j :: |f| <= j < |a| ==> a[j] !in w.queue.resolved;
  }

  lemma BeginKeeps(w: World, key: string, call: Call)
    requires Inv(w) && Enabled(w, Begin(key, call))
    ensures Inv(Step(w, Begin(key, call)))
  {
    BeginIsNext(w, key, call);
    var w' := Step(w, Begin(key, call));
    forall k ensures KeyInv(w', k) {
      assert KeyInv(w, k);
    }
  }

  lemma FinishIsRunning(w: World, key: string, call: Call)
    requires Inv(w) && Enabled(w, Finish(key, call))
    ensures var s, f := CallsOf(w.started, key), CallsOf(w.finished, key);
            s == f + [call] && |f| < |CallsOf(w.arrived, key)| && call == CallsOf(w.arrived, key)[|f|]
  {
    assert KeyInv(w, key);
    var s, f := CallsOf(w.started, key), CallsOf(w.finished, key);
    var i :| 0 <= i < |s| && s[i] == call;
    assert forall j :: 0 <= j < |f| ==> f[j] != call;
  }

  lemma FinishKeeps(w: World, key: string, call: Call)
    requires Inv(w) && Enabled(w, Finish(key, call))
    ensures Inv(Step(w, Finish(key, call)))
  {
    FinishIsRunning(w, key, call);
    assert KeyInv(w, key);
    var w' := Step(w, Finish(key, call));
    forall k ensures KeyInv(w', k) {
      assert KeyInv(w, k);
      var a, s, f := CallsOf(w.arrived, k), CallsOf(w.started, k), CallsOf(w.finished, k);
      if k == key {
        ExitOk(w.queue, key, call, a, s, f);
      } else {
        assert call in CallsOf(w.arrived, key);
        ExitElsewhere(w.queue, key, call, k, a, s, f);
      }
    }
  }

  /** Over every run: success and failure of the operations make no difference to the queue. */
  lemma {:induction false} RunKeeps(w: World, events: seq<Event>)
    requires Inv(w) && LegalRun(w, events)
    ensures Inv(Run(w, events))
    decreases |events|
  {
    if events != [] {
      match events[0] {
        case Arrive(key, call) => ArriveKeeps(w, key, call);
        case Begin(key, call) => BeginKeeps(w, key, call);
        case Finish(key, call) => FinishKeeps(w, key, call);
      }
      RunKeeps(Step(w, events[0]), events[1..]);
    }
  }

  /** Per key, at most one operation is running, operations run in arrival order, and a missing map entry
      means that nobody holds the lock or waits for it. */
  lemma OneAtATimeInOrder(events: seq<Event>, key: string)
    requires LegalRun(START, events)
    ensures var w := Run(START, events);
            var a, s, f := CallsOf(w.arrived, key), CallsOf(w.started, key), CallsOf(w.finished, key);
            && s <= a && f <= s && |s| - |f| <= 1
            && (key !in w.queue.tails <==> f == a)
  {
    RunKeeps(START, events);
    assert KeyInv(Run(START, events), key);
  }

  /** No deadlock: while somebody waits and nobody runs, the next in line may begin. */
  lemma NextMayBegin(events: seq<Event>, key: string)
    requires LegalRun(START, events)
    requires var w := Run(START, events);
             CallsOf(w.started, key) == CallsOf(w.finished, key) != CallsOf(w.arrived, key)
    ensures var w := Run(START, events);
            var n := |CallsOf(w.finished, key)|;
            n < |CallsOf(w.arrived, key)|
            && MayStart(w.queue, CallsOf(w.arrived, key)[n])
  {
    RunKeeps(START, events);
    var w := Run(START, events);
    assert KeyInv(w, key);
    var a, f := CallsOf(w.arrived, key), CallsOf(w.finished, key);
    assert f <= a;
    assert Follows(w.queue.awaited[a[|f|]], a, |f|);
  }
}
