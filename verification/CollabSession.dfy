/** The autonomous player/coach loop (scripts/collab-session.ts). What the player and coach processes do in
    each round is given by a function from the round's position to its result. */
module CollabSession {
  import opened Basics

  datatype State = Open | PlayerTurn | CoachTurn | Director | Approved | Paused | Closed | Complete | Stalled
  datatype Verdict = Approve | Revise | Block

  predicate IsTerminal(s: State) {
    s == Paused || s == Closed || s == Complete || s == Stalled
  }

  datatype Iteration = Iteration(round: int, verdict: Option<Verdict>, feedback: string)

  /** How a round ends: an error before the player's output is recorded, before the verdict is, or after it, when the
      session is saved; an interrupt that leaves a terminal state; or a verdict with its feedback. */
  datatype RoundResult =
    | PlayerThrew(message: string)
    | CoachThrew(message: string)
    | SaveThrew(verdict: Option<Verdict>, feedback: string, message: string)
    | Interrupted(state: State, verdict: Option<Verdict>, feedback: string)
    | Finished(verdict: Option<Verdict>, feedback: string)

  predicate Throws(r: RoundResult) {
    r.PlayerThrew? || r.CoachThrew? || r.SaveThrew?
  }

  const BRIEF_MAX: nat := 50_000

  // ---- The brief ----

  /** The last `n` characters, or all of them: `slice(-n)` for a positive n. */
  function Tail(n: nat, s: string): (r: string)
    ensures |r| == if |s| <= n then |s| else n
    decreases |s|
  {
    if |s| <= n then s else Tail(n, s[1..])
  }

  lemma {:induction false} TailIsSlice(n: nat, s: string)
    ensures Tail(n, s) == if |s| <= n then s else s[|s| - n..]
    decreases |s|
  {
    if |s| > n {
      TailIsSlice(n, s[1..]);
      if |s| == n + 1 {
        assert s[1..] == s[|s| - n..];
      } else {
        assert s[1..][|s| - 1 - n..] == s[|s| - n..];
      }
    }
  }

  /** Appending under the cap, as the source does it. */
  function Capped(brief: string, addendum: string): string {
    if |brief| + |addendum| > BRIEF_MAX then
      if |addendum| < BRIEF_MAX then Tail(BRIEF_MAX - |addendum|, brief) + addendum else Tail(BRIEF_MAX, addendum)
    else brief + addendum
  }

  lemma CappedIsTail(brief: string, addendum: string)
    ensures Capped(brief, addendum) == Tail(BRIEF_MAX, brief + addendum)
  {
    TailIsSlice(BRIEF_MAX, brief + addendum);
    TailIsSlice(BRIEF_MAX, addendum);
    if |addendum| < BRIEF_MAX {
      TailIsSlice(BRIEF_MAX - |addendum|, brief);
    }
  }

  lemma DropInto(a: string, b: string, m: nat, k: nat)
    requires m <= |a| && k <= |a| - m + |b|
    ensures (a[m..] + b)[k..] == (a + b)[m + k..]
  {
    assert a[m..] + b == (a + b)[m..];
  }

  lemma TailAbsorbs(n: nat, a: string, b: string)
    ensures Tail(n, Tail(n, a) + b) == Tail(n, a + b)
  {
    TailIsSlice(n, a);
    if |a| > n {
      TailIsSlice(n, a[|a| - n..] + b);
      TailIsSlice(n, a + b);
      DropInto(a, b, |a| - n, |b|);
      DropInto(a, b, |a| - n, 0);
    }
  }

  function BriefAfter(brief: string, addenda: seq<string>): string {
    if addenda == [] then brief else Capped(BriefAfter(brief, addenda[..|addenda| - 1]), addenda[|addenda| - 1])
  }

  function Concat(parts: seq<string>): string {
    if parts == [] then "" else Concat(parts[..|parts| - 1]) + parts[|parts| - 1]
  }

  lemma WrittenStep(brief: string, sofar: string, before: string, addendum: string)
    requires before == brief + sofar || before == Tail(BRIEF_MAX, brief + sofar)
    ensures Capped(before, addendum) == Tail(BRIEF_MAX, brief + (sofar + addendum))
  {
    CappedIsTail(before, addendum);
    TailAbsorbs(BRIEF_MAX, brief + sofar, addendum);
    assert brief + (sofar + addendum) == brief + sofar + addendum;
  }

  /** After one revision or more, the brief is exactly the end of everything ever written to it. */
  lemma {:induction false} BriefIsTailOfEverything(brief: string, addenda: seq<string>)
    ensures addenda == [] ==> BriefAfter(brief, addenda) == brief
    ensures addenda != [] ==> BriefAfter(brief, addenda) == Tail(BRIEF_MAX, brief + Concat(addenda))
  {
    if addenda != [] {
      var init, last := addenda[..|addenda| - 1], addenda[|addenda| - 1];
      BriefIsTailOfEverything(brief, init);
      if init == [] {
        assert brief + Concat(init) == brief;
      }
      WrittenStep(brief, Concat(init), BriefAfter(brief, init), last);
    }
  }

  // ---- How a run unfolds ----

  type Rounds = nat -> RoundResult

  /** The loop goes on after this round. */
  predicate GoesOn(r: RoundResult, round: int, maxRounds: int) {
    r.Finished? && r.verdict == Some(Revise) && round < maxRounds
  }

  /** How many revisions the loop accepts, with `done` rounds behind it. */
  function Revisions(rounds: Rounds, done: nat, round: int, maxRounds: int): nat
    decreases maxRounds - round
  {
    if GoesOn(rounds(done), round, maxRounds) then 1 + Revisions(rounds, done + 1, round + 1, maxRounds) else 0
  }

  /** The state that the round which does not go on leaves. */
  function FinalState(r: RoundResult): State {
    match r
    case Interrupted(state, _, _) => if IsTerminal(state) then state else Stalled
    case Finished(Some(Approve), _) => Complete
    case _ => Stalled
  }

  lemma {:induction false} RevisionsAreBounded(rounds: Rounds, done: nat, round: int, maxRounds: int)
    ensures Revisions(rounds, done, round, maxRounds) <= if round < maxRounds then maxRounds - round else 0
    ensures forall j :: done <= j < done + Revisions(rounds, done, round, maxRounds) ==>
              GoesOn(rounds(j), round + (j - done), maxRounds)
    ensures !GoesOn(rounds(done + Revisions(rounds, done, round, maxRounds)),
                    round + Revisions(rounds, done, round, maxRounds), maxRounds)
    decreases maxRounds - round
  {
    if GoesOn(rounds(done), round, maxRounds) {
      RevisionsAreBounded(rounds, done + 1, round + 1, maxRounds);
    }
  }

  /** A round adds its own iteration; an error takes the place of the last one's feedback, even when that one
      belongs to an earlier round. */
  function IterationsAfter(iterations: seq<Iteration>, round: int, r: RoundResult): seq<Iteration> {
    match r
    case PlayerThrew(message) =>
      if iterations == [] then []
      else iterations[|iterations| - 1 := iterations[|iterations| - 1].(feedback := message)]
    case CoachThrew(message) => iterations + [Iteration(round, None, message)]
    case SaveThrew(verdict, _, message) => iterations + [Iteration(round, verdict, message)]
    case Interrupted(_, verdict, feedback) => iterations + [Iteration(round, verdict, feedback)]
    case Finished(verdict, feedback) => iterations + [Iteration(round, verdict, feedback)]
  }

  /** The addenda of the first `k` rounds. */
  function Addenda(heading: int -> string, rounds: Rounds, round: int, k: nat): seq<string> {
    if k == 0 then []
    else
      Addenda(heading, rounds, round, k - 1) +
      [heading(round + k - 1) + if rounds(k - 1).Finished? then rounds(k - 1).feedback else ""]
  }

  class Session {
    const maxRounds: int
    const heading: int -> string
    var state: State
    var round: int
    var brief: string
    var iterations: seq<Iteration>

    constructor (maxRounds: int, heading: int -> string, round: int, brief: string)
      ensures state == Open && this.round == round && this.brief == brief && iterations == []
      ensures this.maxRounds == maxRounds && this.heading == heading
    {
      this.maxRounds, this.heading, this.round, this.brief := maxRounds, heading, round, brief;
      state, iterations := Open, [];
    }

    /** One player turn and one coach turn; `threw` carries the error, if there was one. */
    method RunRound(result: RoundResult) returns (threw: Option<string>)
      modifies this`state, this`iterations
      ensures threw == (if Throws(result) then Some(result.message) else None)
      ensures result.PlayerThrew? ==> state == PlayerTurn && iterations == old(iterations)
      ensures result.CoachThrew? ==> state == CoachTurn && iterations == old(iterations) + [Iteration(round, None, "")]
      ensures result.Interrupted? ==> state == result.state
      ensures result.SaveThrew? || result.Finished? ==> state == Director
      ensures result.SaveThrew? || result.Interrupted? || result.Finished? ==>
                iterations == old(iterations) + [Iteration(round, result.verdict, result.feedback)]
    {
      state := PlayerTurn;
      if result.PlayerThrew? {
        return Some(result.message);
      }
      iterations := iterations + [Iteration(round, None, "")];
      state := CoachTurn;
      if result.CoachThrew? {
        return Some(result.message);
      }
      iterations := iterations[|iterations| - 1 := Iteration(round, result.verdict, result.feedback)];
      state := if result.Interrupted? then result.state else Director;
      return if result.SaveThrew? then Some(result.message) else None;
    }

    /** The body of the loop: run a round, then stop or revise. */
    method RunAndRoute(result: RoundResult)
      requires result.Interrupted? ==> IsTerminal(result.state)
      modifies this`state, this`round, this`brief, this`iterations
      ensures if GoesOn(result, old(round), maxRounds) then
                && state == PlayerTurn && round == old(round) + 1
                && brief == Capped(old(brief), heading(old(round)) + result.feedback)
              else state == FinalState(result) && round == old(round) && brief == old(brief)
      ensures iterations == IterationsAfter(old(iterations), old(round), result)
      ensures |iterations| == |old(iterations)| + if result.PlayerThrew? then 0 else 1
      ensures Throws(result) && iterations != [] ==> iterations[|iterations| - 1].feedback == result.message
    {
      var threw := RunRound(result);
      if threw.Some? {
        if |iterations| > 0 {
          var last := |iterations| - 1;
          iterations := iterations[last := iterations[last].(feedback := threw.value)];
        }
        state := Stalled;
        return;
      }
      if IsTerminal(state) {
        return;
      }
      var last := iterations[|iterations| - 1];
      if last.verdict == Some(Approve) {
        state := Complete;
      } else if last.verdict == Some(Revise) && round < maxRounds {
        brief := Capped(brief, heading(round) + last.feedback);
        round := round + 1;
        state := PlayerTurn;
      } else {
        state := Stalled;
      }
    }

    /** The loop stops in a terminal state, where AfterRounds says, and the brief has received the feedback of
        every accepted revision. An error while the routed round is saved escapes it: after the first round that is not
        interrupted and whose saving fails, with the state and the brief of that point. */
    method RunAutonomousLoop(rounds: Rounds, saveFails: nat -> bool) returns (taken: nat, escaped: bool)
      requires forall k :: rounds(k).Interrupted? ==> IsTerminal(rounds(k).state)
      modifies this`state, this`round, this`brief, this`iterations
      ensures escaped || IsTerminal(state)
      ensures if IsTerminal(old(state)) then
                !escaped && taken == 0 && state == old(state) && round == old(round) && brief == old(brief)
              else
                && AfterRounds(rounds, old(round), maxRounds, taken, state, round)
                && Written(heading, rounds, old(round), old(brief), round, brief)
                && taken > 0 && SavedSo(rounds, saveFails, taken, escaped)
    {
      taken, escaped := 0, false;
      if IsTerminal(state) {
        return;
      }
      ghost var start, written := round, brief;
      while !IsTerminal(state) && !escaped
        invariant AfterRounds(rounds, start, maxRounds, taken, state, round)
        invariant Written(heading, rounds, start, written, round, brief)
        invariant taken == 0 ==> !escaped && !IsTerminal(state)
        invariant SavedSo(rounds, saveFails, taken, escaped)
        decreases Revisions(rounds, 0, start, maxRounds) + 1 - taken, !escaped
      {
        ghost var before := brief;
        RunAndRoute(rounds(taken));
        escaped := !rounds(taken).Interrupted? && saveFails(taken);
        OneMoreRound(rounds, start, maxRounds, taken, state, round);
        BriefStep(heading, rounds, start, taken, written, before, round, brief);
        OneMoreSaved(rounds, saveFails, taken);
        taken := taken + 1;
      }
    }
  }

  /** Of the rounds so far, saving failed for the last one if the loop was escaped, and for no other; an interrupted
      round is not saved. */
  ghost predicate SavedSo(rounds: Rounds, saveFails: nat -> bool, taken: nat, escaped: bool) {
    forall k :: 0 <= k < taken ==> (!rounds(k).Interrupted? && saveFails(k) <==> escaped && k == taken - 1)
  }

  lemma OneMoreSaved(rounds: Rounds, saveFails: nat -> bool, taken: nat)
    requires SavedSo(rounds, saveFails, taken, false)
    ensures SavedSo(rounds, saveFails, taken + 1, !rounds(taken).Interrupted? && saveFails(taken))
  {
  }

  /** The brief at this round, `written` having been the brief at round `start`. */
  ghost predicate Written(heading: int -> string, rounds: Rounds, start: int, written: string, round: int,
                          brief: string)
  {
    round >= start && brief == BriefAfter(written, Addenda(heading, rounds, start, round - start))
  }

  /** Where the loop is after `taken` rounds: still within the accepted revisions, or one round past them and
      in the state that round calls for. */
  ghost predicate AfterRounds(rounds: Rounds, start: int, maxRounds: int, taken: nat, state: State, round: int) {
    var k := Revisions(rounds, 0, start, maxRounds);
    && round == start + (if IsTerminal(state) then k else taken)
    && (if IsTerminal(state) then taken == k + 1 && state == FinalState(rounds(k)) else taken <= k)
  }

  /** So the loop takes at most max(1, maxRounds - round + 1) rounds, and unless it was interrupted it ends
      COMPLETE, exactly when the last round approved, or STALLED. */
  lemma LoopOutcome(rounds: Rounds, start: int, maxRounds: int, taken: nat, state: State, round: int)
    requires AfterRounds(rounds, start, maxRounds, taken, state, round) && IsTerminal(state)
    ensures 1 <= taken <= if start < maxRounds then maxRounds - start + 1 else 1
    ensures var last := rounds(taken - 1);
            !last.Interrupted? ==>
              state == if last.Finished? && last.verdict == Some(Approve) then Complete else Stalled
    ensures forall j :: 0 <= j < taken - 1 ==> rounds(j).Finished? && rounds(j).verdict == Some(Revise)
  {
    RevisionsAreBounded(rounds, 0, start, maxRounds);
    forall j | 0 <= j < taken - 1 ensures rounds(j).Finished? && rounds(j).verdict == Some(Revise) {
      assert GoesOn(rounds(j), start + (j - 0), maxRounds);
    }
  }

  lemma OneMoreRound(rounds: Rounds, start: int, maxRounds: int, taken: nat, state: State, round: int)
    requires rounds(taken).Interrupted? ==> IsTerminal(rounds(taken).state)
    requires taken <= Revisions(rounds, 0, start, maxRounds)
    requires if GoesOn(rounds(taken), start + taken, maxRounds) then state == PlayerTurn && round == start + taken + 1
             else state == FinalState(rounds(taken)) && round == start + taken
    ensures AfterRounds(rounds, start, maxRounds, taken + 1, state, round)
  {
    RevisionsAreBounded(rounds, 0, start, maxRounds);
    if taken < Revisions(rounds, 0, start, maxRounds) {
      assert GoesOn(rounds(taken), start + (taken - 0), maxRounds);
    }
  }

  lemma BriefStep(heading: int -> string, rounds: Rounds, start: int, taken: nat, written: string, before: string,
                  round: int, brief: string)
    requires Written(heading, rounds, start, written, start + taken, before)
    requires round == start + taken ==> brief == before
    requires round == start + taken + 1 ==>
               rounds(taken).Finished? && brief == Capped(before, heading(start + taken) + rounds(taken).feedback)
    requires start + taken <= round <= start + taken + 1
    ensures Written(heading, rounds, start, written, round, brief)
  {
    AddendaCount(heading, rounds, start, taken);
    var after := Addenda(heading, rounds, start, taken + 1);
    assert after[..taken] == Addenda(heading, rounds, start, taken);
  }

  /** So at the end the brief is what it was, or the end of everything written to it. */
  lemma BriefAtTheEnd(heading: int -> string, rounds: Rounds, start: int, written: string, round: int, brief: string)
    requires Written(heading, rounds, start, written, round, brief)
    ensures brief == if round == start then written
                     else Tail(BRIEF_MAX, written + Concat(Addenda(heading, rounds, start, round - start)))
  {
    AddendaCount(heading, rounds, start, round - start);
    BriefIsTailOfEverything(written, Addenda(heading, rounds, start, round - start));
  }

  lemma {:induction false} AddendaCount(heading: int -> string, rounds: Rounds, round: int, k: nat)
    ensures |Addenda(heading, rounds, round, k)| == k
  {
    if k > 0 {
      AddendaCount(heading, rounds, round, k - 1);
    }
  }

  /** What makes the loop stop, and what makes it go on: every round but the last ended in a REVISE below the limit, and
      a last round that ended in a REVISE was at the limit. */
  lemma RevisionsAreFollowed(rounds: Rounds, start: int, maxRounds: int, taken: nat, state: State, round: int)
    requires AfterRounds(rounds, start, maxRounds, taken, state, round) && IsTerminal(state)
    ensures taken > 0
    ensures forall j :: 0 <= j < taken - 1 ==>
              rounds(j).Finished? && rounds(j).verdict == Some(Revise) && start + j < maxRounds
    ensures var last := rounds(taken - 1);
            last.Finished? && last.verdict == Some(Revise) ==> start + taken - 1 >= maxRounds
    ensures var last := rounds(taken - 1);
            last.Interrupted? && IsTerminal(last.state) ==> state == last.state
  {
    RevisionsAreBounded(rounds, 0, start, maxRounds);
    forall j | 0 <= j < taken - 1
      ensures rounds(j).Finished? && rounds(j).verdict == Some(Revise) && start + j < maxRounds
    {
      assert GoesOn(rounds(j), start + (j - 0), maxRounds);
    }
  }
}
