/** Writes against the canonical ref (lib/brain/canonical-write.js), run against a repository that other
    processes keep moving between any two git commands. */
module CanonicalWrite {
  import opened Basics

  type Tree = map<string, string>

  datatype Node = Node(parents: seq<nat>, tree: Tree)
  datatype Head = OnBranch(ref: string) | Detached(commit: nat)
  /** A commit's name is its place in `commits`, so a commit only ever names older ones as parents. */
  datatype Repo = Repo(commits: seq<Node>, refs: map<string, nat>, head: Head)

  predicate WellFormed(r: Repo) {
    && (forall i :: 0 <= i < |r.commits| ==> forall p :: p in r.commits[i].parents ==> p < i)
    && (forall ref :: ref in r.refs ==> r.refs[ref] < |r.commits|)
    && (r.head.Detached? ==> r.head.commit < |r.commits|)
  }

  type Well = r: Repo | WellFormed(r) witness Repo([], map[], OnBranch(""))

  /** `c` is `ancestor` or comes after it. */
  predicate Descends(r: Well, c: nat, ancestor: nat)
    requires c < |r.commits|
    decreases c
  {
    c == ancestor || exists p :: p in r.commits[c].parents && Descends(r, p, ancestor)
  }

  lemma {:induction false} DescendantsAreNewer(r: Well, c: nat, ancestor: nat)
    requires c < |r.commits| && Descends(r, c, ancestor)
    ensures ancestor <= c
    decreases c
  {
    if c != ancestor {
      var p :| p in r.commits[c].parents && Descends(r, p, ancestor);
      DescendantsAreNewer(r, p, ancestor);
    }
  }

  function RefValue(r: Repo, ref: string): Option<nat> {
    if ref in r.refs then Some(r.refs[ref]) else None
  }

  // ---- What happens to the repository ----

  /** What other processes may do: anything at all that names existing commits. */
  datatype Move =
    | NewCommit(parents: seq<nat>, tree: Tree)
    | SetRef(ref: string, target: nat)
    | DeleteRef(ref: string)
    | SwitchHead(head: Head)

  function ApplyMove(r: Well, move: Move): (r': Well)
    ensures r.commits <= r'.commits
  {
    match move
    case NewCommit(parents, tree) =>
      if forall p :: p in parents ==> p < |r.commits| then r.(commits := r.commits + [Node(parents, tree)]) else r
    case SetRef(ref, target) => if target < |r.commits| then r.(refs := r.refs[ref := target]) else r
    case DeleteRef(ref) => r.(refs := r.refs - {ref})
    case SwitchHead(head) => if head.Detached? ==> head.commit < |r.commits| then r.(head := head) else r
  }

  /** The move leaves the ref alone. */
  predicate Spares(move: Move, ref: string) {
    !((move.SetRef? || move.DeleteRef?) && move.ref == ref)
  }

  /** The move leaves the ref alone or fast-forwards it. */
  predicate Advances(r: Well, move: Move, ref: string) {
    || Spares(move, ref)
    || (move.SetRef? && (ref in r.refs && move.target < |r.commits| ==> Descends(r, move.target, r.refs[ref])))
  }

  /** One step of a run: a move of the others, or a commit, a ref update or a head move of our own. */
  datatype Step =
    | Theirs(move: Move)
    | Committed(parent: nat, tree: Tree)
    | Updated(ref: string, now: nat)
    | HeadMoved(commit: nat)

  function Take(r: Well, step: Step): (r': Well)
    ensures r.commits <= r'.commits
  {
    match step
    case Theirs(move) => ApplyMove(r, move)
    case Committed(parent, tree) =>
      if parent < |r.commits| then r.(commits := r.commits + [Node([parent], tree)]) else r
    case Updated(ref, now) => if now < |r.commits| then r.(refs := r.refs[ref := now]) else r
    case HeadMoved(commit) => if commit < |r.commits| then r.(head := Detached(commit)) else r
  }

  /** A run so far: where it started, then step after step. */
  datatype Trace = Start(repo: Well) | Then(past: Trace, step: Step)

  function Replay(t: Trace): Well {
    match t
    case Start(repo) => repo
    case Then(past, step) => Take(Replay(past), step)
  }

  /** The value of a ref at this point of a run. */
  function RefAt(t: Trace, ref: string): Option<nat> {
    RefValue(Replay(t), ref)
  }

  /** `t` is `earlier` with more steps after it. */
  predicate Follows(t: Trace, earlier: Trace) {
    t == earlier || (t.Then? && Follows(t.past, earlier))
  }

  /** How many ref updates of our own there are. */
  function Updates(t: Trace): nat {
    if t.Start? then 0 else Updates(t.past) + if t.step.Updated? then 1 else 0
  }

  function Length(t: Trace): nat {
    if t.Start? then 0 else Length(t.past) + 1
  }

  lemma {:induction false} FollowsLength(t: Trace, earlier: Trace)
    requires Follows(t, earlier)
    ensures Length(earlier) <= Length(t) && (Length(earlier) == Length(t) ==> t == earlier)
  {
    if t != earlier {
      FollowsLength(t.past, earlier);
    }
  }

  lemma {:induction false} FollowsOn(t: Trace, middle: Trace, earlier: Trace)
    requires Follows(t, middle) && Follows(middle, earlier)
    ensures Follows(t, earlier)
  {
    if t != middle {
      FollowsOn(t.past, middle, earlier);
    }
  }

  lemma {:induction false} UpdatesGrow(t: Trace, earlier: Trace)
    requires Follows(t, earlier)
    ensures Updates(earlier) <= Updates(t)
  {
    if t != earlier {
      UpdatesGrow(t.past, earlier);
    }
  }

  /** Since `earlier` no move of the others named the ref. */
  predicate OthersSpare(t: Trace, earlier: Trace, ref: string) {
    t == earlier || (t.Then? && (t.step.Theirs? ==> Spares(t.step.move, ref)) && OthersSpare(t.past, earlier, ref))
  }

  /** Then a ref that we did not update is where it was. */
  lemma {:induction false} RefStays(t: Trace, earlier: Trace, ref: string)
    requires Follows(t, earlier) && OthersSpare(t, earlier, ref) && Updates(t) == Updates(earlier)
    ensures RefAt(t, ref) == RefAt(earlier, ref)
  {
    if t != earlier {
      UpdatesGrow(t.past, earlier);
      RefStays(t.past, earlier, ref);
    }
  }

  /** The same if our only update was the last step and of another ref. */
  lemma OtherRefStays(t: Trace, earlier: Trace, ref: string)
    requires Follows(t, earlier) && OthersSpare(t, earlier, ref) && Updates(t) == Updates(earlier) + 1
    requires t.Then? && t.step.Updated? && t.step.ref != ref
    ensures RefAt(t, ref) == RefAt(earlier, ref)
  {
    RefStays(t.past, earlier, ref);
  }

  /** Since `earlier` every move of the others left the ref alone or fast-forwarded it. */
  predicate OnlyFastForwards(t: Trace, earlier: Trace, ref: string) {
    t == earlier ||
    (&& t.Then? && (t.step.Theirs? ==> Advances(Replay(t.past), t.step.move, ref))
     && OnlyFastForwards(t.past, earlier, ref))
  }

  lemma StepAdvances(r: Well, step: Step, ref: string)
    requires ref in r.refs && !step.Updated? && (step.Theirs? ==> Advances(r, step.move, ref))
    ensures ref in Take(r, step).refs && r.refs[ref] <= Take(r, step).refs[ref]
  {
    if step.Theirs? && !Spares(step.move, ref) && step.move.target < |r.commits| {
      DescendantsAreNewer(r, step.move.target, r.refs[ref]);
    }
  }

  /** Then nobody has taken the ref away or back. */
  lemma {:induction false} RefOnlyAdvances(t: Trace, earlier: Trace, ref: string)
    requires Follows(t, earlier) && OnlyFastForwards(t, earlier, ref) && Updates(t) == Updates(earlier)
    requires RefAt(earlier, ref).Some?
    ensures RefAt(t, ref).Some? && RefAt(earlier, ref).value <= RefAt(t, ref).value
  {
    if t != earlier {
      UpdatesGrow(t.past, earlier);
      RefOnlyAdvances(t.past, earlier, ref);
      StepAdvances(Replay(t.past), t.step, ref);
    }
  }

  lemma {:induction false} FastForwardsSplit(t: Trace, middle: Trace, earlier: Trace, ref: string)
    requires Follows(t, middle) && Follows(middle, earlier) && OnlyFastForwards(t, earlier, ref)
    ensures OnlyFastForwards(t, middle, ref) && OnlyFastForwards(middle, earlier, ref)
  {
    if t != middle && t != earlier {
      FastForwardsSplit(t.past, middle, earlier, ref);
    } else {
      FollowsLength(t, middle);
      FollowsLength(middle, earlier);
    }
  }

  // ---- The swap ----

  /** A ref that holds the same value at the plan and at the update held it in between as well, if the others only
      fast-forward it: the worktree was created at the commit that the plan saw. */
  lemma FastForwardsMakeTheSwapSound(planned: Trace, worktree: Trace, updated: Trace, ref: string)
    requires Follows(worktree, planned) && Follows(updated, worktree) && Updates(updated) == Updates(planned)
    requires OnlyFastForwards(updated, planned, ref)
    requires RefAt(planned, ref).Some? && RefAt(updated, ref) == RefAt(planned, ref)
    ensures RefAt(worktree, ref) == RefAt(planned, ref)
  {
    UpdatesGrow(worktree, planned);
    UpdatesGrow(updated, worktree);
    FastForwardsSplit(updated, worktree, planned, ref);
    RefOnlyAdvances(worktree, planned, ref);
    RefOnlyAdvances(updated, worktree, ref);
  }

  /** Without that, after every run: moving the ref to any other commit, opening the worktree there and moving the
      ref back lets the swap install a child of a commit that the plan never saw. */
  lemma MovingBackDefeatsTheSwap(planned: Trace, ref: string, elsewhere: nat, tree: Tree)
    requires var r := Replay(planned);
             ref in r.refs && elsewhere < |r.commits| && elsewhere != r.refs[ref]
    ensures var r := Replay(planned);
            var worktree := Then(planned, Theirs(SetRef(ref, elsewhere)));
            var back := Then(worktree, Theirs(SetRef(ref, r.refs[ref])));
            var committed := Then(back, Committed(elsewhere, tree));
            var updated := Then(committed, Updated(ref, |r.commits|));
            && RefAt(worktree, ref) == Some(elsewhere)
            && RefAt(committed, ref) == RefAt(planned, ref)
            && RefAt(updated, ref) == Some(|r.commits|)
            && Replay(updated).commits == r.commits + [Node([elsewhere], tree)]
  {
    var r := Replay(planned);
    var worktree := Then(planned, Theirs(SetRef(ref, elsewhere)));
    var back := Then(worktree, Theirs(SetRef(ref, r.refs[ref])));
    var away := r.(refs := r.refs[ref := elsewhere]);
    assert Replay(worktree) == Take(r, worktree.step) == away;
    assert away.refs[ref := r.refs[ref]] == r.refs;
    assert Replay(back) == Take(away, back.step) == r;
    AfterReturn(back, ref, elsewhere, tree);
  }

  /** A commit on any commit and an update of the ref to it. */
  lemma AfterReturn(back: Trace, ref: string, parent: nat, tree: Tree)
    requires parent < |Replay(back).commits|
    ensures var r := Replay(back);
            var committed := Then(back, Committed(parent, tree));
            var updated := Then(committed, Updated(ref, |r.commits|));
            && RefAt(committed, ref) == RefAt(back, ref)
            && RefAt(updated, ref) == Some(|r.commits|)
            && Replay(updated).commits == r.commits + [Node([parent], tree)]
  {
    var committed := Then(back, Committed(parent, tree));
    assert Replay(committed) == Take(Replay(back), committed.step);
  }

  // ---- Planning ----

  /** `git update-ref`, with or without an expected old value. */
  predicate MayUpdate(r: Repo, ref: string, expected: Option<nat>) {
    expected.Some? ==> RefValue(r, ref) == expected
  }

  datatype Policy = Commit | Propose | DryRun
  datatype Refusal =
    | DirtyOverlap | NotFastForward | MergeConflict | UnknownUpstream | UnpublishedCanonical
    | CanonicalRefMissing | WorktreeUnavailable | PolicyRequired

  /** What the plan learns besides refs: commits ahead of the upstream if that is known, the dirty paths if
      those could be listed, and what is already staged in the main work tree. */
  datatype Site = Site(ahead: Option<int>, dirty: Option<set<string>>, staged: Tree)

  datatype Route = InPlace | Isolated
  datatype Plan = Refuse(reason: Refusal) | Planned(route: Route, commit: nat)

  function MakePlan(commit: Option<nat>, checkedOut: Option<string>, canonicalRef: string, site: Site,
                    targets: set<string>): Plan {
    if commit.None? then Refuse(CanonicalRefMissing)
    else if site.ahead.None? then Refuse(UnknownUpstream)
    else if site.ahead.value > 0 then Refuse(UnpublishedCanonical)
    else if site.dirty.None? then Refuse(DirtyOverlap)
    else if checkedOut == Some(canonicalRef) && site.dirty.value * targets != {} then Refuse(DirtyOverlap)
    else Planned(if checkedOut == Some(canonicalRef) then InPlace else Isolated, commit.value)
  }

  /** What a plan is refused for, in the order in which it is looked at: no canonical ref; an upstream that is unknown,
      or behind; dirty paths that are unknown, or, with the canonical ref checked out, among the targets. */
  predicate RefusedFor(reason: Refusal, commit: Option<nat>, checkedOut: Option<string>, canonicalRef: string,
                       site: Site, targets: set<string>) {
    match reason
    case CanonicalRefMissing => commit.None?
    case UnknownUpstream => commit.Some? && site.ahead.None?
    case UnpublishedCanonical => commit.Some? && site.ahead.Some? && site.ahead.value > 0
    case DirtyOverlap =>
      && commit.Some? && site.ahead.Some? && site.ahead.value <= 0
      && (site.dirty.None?
          || (checkedOut == Some(canonicalRef) && exists path :: path in site.dirty.value && path in targets))
    case _ => false
  }

  /** Nothing stands in the way of a write to the canonical ref. */
  predicate Clear(commit: Option<nat>, checkedOut: Option<string>, canonicalRef: string, site: Site,
                  targets: set<string>) {
    && commit.Some? && site.ahead.Some? && site.ahead.value <= 0 && site.dirty.Some?
    && (checkedOut == Some(canonicalRef) ==> forall path :: path in site.dirty.value ==> path !in targets)
  }

  /** A plan is made if and only if nothing stands in the way, in place if and only if the canonical ref is checked out;
      otherwise it is refused for exactly the reason that holds. */
  lemma PlanExactly(commit: Option<nat>, checkedOut: Option<string>, canonicalRef: string, site: Site,
                    targets: set<string>, reason: Refusal)
    ensures var plan := MakePlan(commit, checkedOut, canonicalRef, site, targets);
            && (plan.Planned? <==> Clear(commit, checkedOut, canonicalRef, site, targets))
            && (plan.Planned? ==>
                  plan.commit == commit.value && (plan.route == InPlace <==> checkedOut == Some(canonicalRef)))
            && (plan == Refuse(reason) <==> RefusedFor(reason, commit, checkedOut, canonicalRef, site, targets))
  {
    if site.dirty.Some? {
      var overlap := site.dirty.value * targets;
      assert forall path :: path in overlap <==> path in site.dirty.value && path in targets;
      if overlap != {} {
        var path :| path in overlap;
        assert path in site.dirty.value && path in targets;
      }
    }
  }

  function CheckedOut(head: Head): Option<string> {
    if head.OnBranch? then Some(head.ref) else None
  }

  lemma CheckedOutExactly(head: Head, ref: string)
    ensures CheckedOut(head) == Some(ref) <==> head == OnBranch(ref)
  {
  }

  const HEADS := "refs/heads/"

  function ShortRefName(ref: string): string {
    if HEADS <= ref then ref[|HEADS|..] else ref
  }

  /** A branch's full name is the one that `update-ref` is given. */
  lemma CommitRefOfBranch(ref: string)
    ensures HEADS <= ref ==> HEADS + ShortRefName(ref) == ref
    ensures !(HEADS <= ref) ==> HEADS + ShortRefName(ref) != ref
  {
  }

  /** The refusals that come after a plan. */
  predicate Late(reason: Refusal) {
    reason == MergeConflict || reason == NotFastForward || reason == WorktreeUnavailable
  }

  datatype Result =
    | Refused(reason: Refusal)
    | Reported(before: nat)
    | Unchanged(commit: nat)
    | Written(before: nat, route: Route, commit: nat)

  // ---- The writer ----

  class Git {
    const canonicalRef: string
    const movers: nat -> seq<Move>
    const fails: nat -> bool
    const proposalRef: (nat, Tree) -> string

    var repo: Well
    var clock: nat
    /** Everything that has happened to the repository since the start, by whomever. */
    ghost var trace: Trace
    /** The run so far when the plan read the ref, and when the worktree was added. */
    ghost var plannedAt: Trace
    ghost var openedAt: Trace

    constructor (repo: Well, canonicalRef: string, movers: nat -> seq<Move>, fails: nat -> bool,
                 proposalRef: (nat, Tree) -> string)
      ensures Valid() && this.repo == repo && trace == Start(repo)
    {
      this.repo, this.canonicalRef, this.movers, this.fails, this.proposalRef :=
        repo, canonicalRef, movers, fails, proposalRef;
      clock, trace, plannedAt, openedAt := 0, Start(repo), Start(repo), Start(repo);
    }

    /** The repository is what the run makes of the start. */
    ghost predicate Valid()
      reads this
    {
      repo == Replay(trace)
    }

    /** Nobody else is at work and git never fails. */
    ghost predicate Quiet() {
      forall t :: movers(t) == [] && !fails(t)
    }

    /** No proposal shares the canonical ref's name. */
    ghost predicate NamedApart() {
      forall before, contents :: proposalRef(before, contents) != canonicalRef
    }

    /** The run has only gone on. */
    twostate predicate Ran()
      reads this
    {
      Valid() && Follows(trace, old(trace)) && old(repo).commits <= repo.commits
    }

    /** No ref update of ours was added, and so no ref moved unless others moved it. */
    twostate predicate Untouched()
      reads this
    {
      Updates(trace) == Updates(old(trace)) && (Quiet() ==> repo.refs == old(repo).refs)
    }

    /** One ref update of ours was added, as the last step. */
    twostate predicate OneUpdate(ref: string, commit: nat)
      reads this
    {
      && trace.Then? && trace.step == Updated(ref, commit) && Follows(trace.past, old(trace))
      && Updates(trace) == Updates(old(trace)) + 1
      && RefValue(repo, ref) == Some(commit)
      && (Quiet() ==> repo.refs == old(repo).refs[ref := commit])
    }

    method Do(step: Step)
      requires Valid()
      modifies this`repo, this`trace
      ensures Ran() && repo == Take(old(repo), step) && trace == Then(old(trace), step)
    {
      repo := Take(repo, step);
      trace := Then(trace, step);
    }

    /** The others run, then one git command of ours is attempted. */
    method Command() returns (ok: bool)
      requires Valid()
      modifies this`repo, this`clock, this`trace
      ensures Ran() && Untouched()
      ensures Quiet() ==> ok && repo == old(repo)
    {
      var moves := movers(clock);
      for i := 0 to |moves|
        invariant Ran() && Updates(trace) == Updates(old(trace))
        invariant i == 0 ==> repo == old(repo)
      {
        Do(Theirs(moves[i]));
      }
      ok := !fails(clock);
      clock := clock + 1;
    }

    /** The ref that a policy writes. */
    function TargetRef(policy: Policy, before: nat, contents: Tree): string {
      if policy == Commit then HEADS + ShortRefName(canonicalRef) else proposalRef(before, contents)
    }

    /** Refuse to reuse a proposal ref for another tree. */
    method FindProposal(ref: string, staged: Tree) returns (found: Option<Result>)
      requires Valid()
      modifies this`repo, this`clock, this`trace
      ensures Ran() && Untouched()
      ensures found.Some? ==> found.value == Refused(NotFastForward) || found.value.Unchanged?
      ensures Quiet() ==> repo == old(repo)
      ensures Quiet() ==>
                found == if ref !in repo.refs then None
                         else if repo.commits[repo.refs[ref]].tree == staged then Some(Unchanged(repo.refs[ref]))
                         else Some(Refused(NotFastForward))
    {
      ghost var was := trace;
      var ok := Command();
      var existing := RefValue(repo, ref);
      if !ok || existing.None? {
        return None;
      }
      ghost var mid := trace;
      ok := Command();
      FollowsOn(trace, mid, was);
      var current := RefValue(repo, ref);
      if !ok || current.None? || repo.commits[current.value].tree != staged {
        return Some(Refused(NotFastForward));
      }
      return Some(Unchanged(existing.value));
    }

    /** `git update-ref`, from the expected value if one is given. */
    method Swap(ref: string, expected: Option<nat>, commit: nat) returns (ok: bool)
      requires Valid() && commit < |repo.commits|
      modifies this`repo, this`clock, this`trace
      ensures Ran()
      ensures if ok then OneUpdate(ref, commit) && (expected.Some? ==> RefAt(trace.past, ref) == expected)
              else Untouched()
      ensures Quiet() ==> (ok <==> MayUpdate(old(repo), ref, expected))
    {
      ok := Command();
      ok := ok && MayUpdate(repo, ref, expected);
      if ok {
        Do(Updated(ref, commit));
      }
    }

    /** Commit in the detached worktree, then touch the ref: a canonical one only from the expected value. */
    method CommitAndUpdate(ref: string, expected: Option<nat>, workHead: nat, staged: Tree, before: nat)
      returns (r: Result)
      requires Valid() && workHead < |repo.commits|
      modifies this`repo, this`clock, this`trace
      ensures Ran()
      ensures !r.Written? ==> r.Refused? && Late(r.reason) && Untouched()
      ensures r.Written? ==>
                && r.before == before && r.route == Isolated && r.commit < |repo.commits|
                && repo.commits[r.commit] == Node([workHead], staged)
                && OneUpdate(ref, r.commit)
                && (expected.Some? ==> RefAt(trace.past, ref) == expected)
      ensures Quiet() ==>
                (r.Written? <==> old(repo).commits[workHead].tree != staged && MayUpdate(old(repo), ref, expected))
    {
      ghost var was := trace;
      var ok := Command();
      if !ok || repo.commits[workHead].tree == staged {
        return Refused(MergeConflict);
      }
      var commit := |repo.commits|;
      Do(Committed(workHead, staged));
      ghost var mid := trace;
      FollowsOn(mid, mid.past, was);
      ok := Swap(ref, expected, commit);
      FollowsOn(trace, mid, was);
      if ok {
        FollowsOn(trace.past, mid, was);
      }
      return if ok then Written(before, Isolated, commit) else Refused(NotFastForward);
    }

    /** Stage in a detached worktree at `workHead`, commit there, and only then touch a ref. */
    method ApplyIsolated(policy: Policy, contents: Tree, before: nat, workHead: nat) returns (r: Result)
      requires Valid() && policy != DryRun && workHead < |repo.commits|
      modifies this`repo, this`clock, this`trace
      ensures Ran()
      ensures !r.Written? ==> Untouched() && (r.Unchanged? || (r.Refused? && Late(r.reason)))
      ensures r.Written? ==>
                && r.before == before && r.route == Isolated && r.commit < |repo.commits|
                && repo.commits[r.commit] == Node([workHead], repo.commits[workHead].tree + contents)
                && OneUpdate(TargetRef(policy, before, contents), r.commit)
                && (policy == Commit ==> RefAt(trace.past, TargetRef(policy, before, contents)) == Some(before))
      ensures Quiet() && policy == Propose ==>
                var existing := RefValue(old(repo), proposalRef(before, contents));
                var tree := old(repo).commits[workHead].tree;
                if tree + contents == tree then r == Unchanged(before) && repo == old(repo)
                else if existing.None? then r.Written?
                else
                  && repo == old(repo)
                  && r == if repo.commits[existing.value].tree == tree + contents then Unchanged(existing.value)
                          else Refused(NotFastForward)
      ensures Quiet() && policy == Commit ==>
                var tree := old(repo).commits[workHead].tree;
                if tree + contents == tree then r == Unchanged(before)
                else (r.Written? <==> MayUpdate(old(repo), TargetRef(policy, before, contents), Some(before)))
    {
      ghost var was := trace;
      var ok := Command();
      if !ok {
        return Refused(MergeConflict);
      }
      var base := repo.commits[workHead].tree;
      var staged := base + contents;
      ghost var mid := trace;
      ok := Command();
      FollowsOn(trace, mid, was);
      if ok && staged == base {
        return Unchanged(before);
      }
      var ref := TargetRef(policy, before, contents);
      if policy == Propose {
        mid := trace;
        var found := FindProposal(ref, staged);
        FollowsOn(trace, mid, was);
        if found.Some? {
          return found.value;
        }
      }
      mid := trace;
      r := CommitAndUpdate(ref, if policy == Commit then Some(before) else None, workHead, staged, before);
      FollowsOn(trace, mid, was);
      if r.Written? {
        FollowsOn(trace.past, mid, was);
      }
    }

    /** The commit that is checked out in the main work tree. */
    function Tip(): Option<nat>
      reads this
    {
      match repo.head
      case OnBranch(ref) => RefValue(repo, ref)
      case Detached(commit) => Some(commit)
    }

    /** The index after `git add`: what was staged already goes along. */
    function StagedInPlace(tip: nat, contents: Tree, site: Site): Tree
      requires tip < |repo.commits|
      reads this
    {
      repo.commits[tip].tree + site.staged + contents
    }

    /** Path by path: what is written, else what was staged already, else what the tip has. */
    lemma StagedExactly(tip: nat, contents: Tree, site: Site, path: string)
      requires tip < |repo.commits|
      ensures var staged, tree := StagedInPlace(tip, contents, site), repo.commits[tip].tree;
              && (path in staged <==> path in contents || path in site.staged || path in tree)
              && (path in staged ==>
                    staged[path] == if path in contents then contents[path]
                                    else if path in site.staged then site.staged[path] else tree[path])
    {
    }

    /** The new commit is a child of what the checked-out branch held, and that branch has moved to it; or no
        branch is checked out, and no ref has moved. */
    twostate predicate ChildOfTip(commit: nat)
      reads this
    {
      && commit < |repo.commits|
      && (Untouched() ||
          (trace.Then? && trace.step.Updated? && OneUpdate(trace.step.ref, commit)
           && RefAt(trace.past, trace.step.ref).Some?
           && repo.commits[commit].parents == [RefAt(trace.past, trace.step.ref).value]))
    }

    /** The commit's tree holds the contents. */
    predicate Carries(commit: nat, contents: Tree)
      reads this
    {
      commit < |repo.commits| &&
      forall path :: path in contents ==>
        path in repo.commits[commit].tree && repo.commits[commit].tree[path] == contents[path]
    }

    /** `git commit` in the main work tree moves the branch that is checked out, if one is. */
    method CommitHere(tip: nat, staged: Tree, before: nat) returns (r: Result)
      requires Valid() && Tip() == Some(tip) && tip < |repo.commits|
      modifies this`repo, this`trace
      ensures Ran() && r == Written(before, InPlace, |old(repo).commits|) && ChildOfTip(r.commit)
      ensures r.commit < |repo.commits| && repo.commits[r.commit] == Node([tip], staged)
      ensures if old(repo).head.Detached? then Untouched() else OneUpdate(old(repo).head.ref, r.commit)
    {
      var commit := |repo.commits|;
      ghost var was := trace;
      Do(Committed(tip, staged));
      assert Follows(trace, was) && Updates(trace) == Updates(was) && repo.refs == old(repo).refs;
      if repo.head.OnBranch? {
        Do(Updated(repo.head.ref, commit));
      } else {
        Do(HeadMoved(commit));
      }
      return Written(before, InPlace, commit);
    }

    /** `git commit` as it finds the main work tree by then. */
    method CommitTip(contents: Tree, site: Site, before: nat) returns (r: Result)
      requires Valid()
      modifies this`repo, this`clock, this`trace
      ensures Ran()
      ensures !r.Written? ==> Untouched() && (r.Unchanged? || (r.Refused? && Late(r.reason)))
      ensures r.Written? ==>
                r.before == before && r.route == InPlace && ChildOfTip(r.commit) && Carries(r.commit, contents)
      ensures Quiet() && old(repo).head == OnBranch(canonicalRef) && RefValue(old(repo), canonicalRef) == Some(before)
              && old(StagedInPlace(before, contents, site)) != old(repo).commits[before].tree ==>
                && r.Written? && OneUpdate(canonicalRef, r.commit)
                && repo.commits[r.commit] == Node([before], old(StagedInPlace(before, contents, site)))
    {
      ghost var was := trace;
      var ok := Command();
      var tip := Tip();
      if !ok || tip.None? || StagedInPlace(tip.value, contents, site) == repo.commits[tip.value].tree {
        return Refused(MergeConflict);
      }
      ghost var mid := trace;
      r := CommitHere(tip.value, StagedInPlace(tip.value, contents, site), before);
      FollowsOn(trace, mid, was);
      if trace.Then? && Follows(trace.past, mid) {
        FollowsOn(trace.past, mid, was);
      }
    }

    /** Commit in the main work tree: git moves whatever branch is checked out by then. */
    method ApplyInPlace(contents: Tree, site: Site, before: nat) returns (r: Result)
      requires Valid()
      modifies this`repo, this`clock, this`trace
      ensures Ran()
      ensures !r.Written? ==> Untouched() && (r.Unchanged? || (r.Refused? && Late(r.reason)))
      ensures r.Written? ==>
                r.before == before && r.route == InPlace && ChildOfTip(r.commit) && Carries(r.commit, contents)
      ensures Quiet() && old(repo).head == OnBranch(canonicalRef)
              && RefValue(old(repo), canonicalRef) == Some(before) ==>
                if old(StagedInPlace(before, contents, site)) == old(repo).commits[before].tree then
                  r == Unchanged(before)
                else
                  && r.Written? && OneUpdate(canonicalRef, r.commit)
                  && repo.commits[r.commit] == Node([before], old(StagedInPlace(before, contents, site)))
    {
      ghost var was := trace;
      var ok := Command();
      if !ok {
        return Refused(MergeConflict);
      }
      ghost var mid := trace;
      ok := Command();
      FollowsOn(trace, mid, was);
      var tip := Tip();
      if ok && tip.Some? && StagedInPlace(tip.value, contents, site) == repo.commits[tip.value].tree {
        return Unchanged(before);
      }
      mid := trace;
      r := CommitTip(contents, site, before);
      FollowsOn(trace, mid, was);
      if trace.Then? && Follows(trace.past, mid) {
        FollowsOn(trace.past, mid, was);
      }
    }

    /** The plan says what holds of this repository. */
    predicate PlannedRightly(plan: Plan, r: Well, site: Site, targets: set<string>) {
      var commit, head := RefValue(r, canonicalRef), CheckedOut(r.head);
      && (forall reason :: plan == Refuse(reason) <==> RefusedFor(reason, commit, head, canonicalRef, site, targets))
      && (plan.Planned? <==> Clear(commit, head, canonicalRef, site, targets))
      && (plan.Planned? ==> Some(plan.commit) == commit && (plan.route == InPlace <==> head == Some(canonicalRef)))
    }

    /** Planning reads the ref first and the head later; the others may move both in between, and a command that
        fails reads as no commit, or as no branch. */
    method PlanWrite(site: Site, targets: set<string>) returns (plan: Plan)
      requires Valid()
      modifies this`repo, this`clock, this`trace, this`plannedAt
      ensures Ran() && Untouched()
      ensures Follows(plannedAt, old(trace)) && Follows(trace, plannedAt) && Updates(plannedAt) == Updates(old(trace))
      ensures plan.Planned? ==> RefAt(plannedAt, canonicalRef) == Some(plan.commit)
      ensures plan.Planned? ==>
                && site.ahead.Some? && site.ahead.value <= 0 && site.dirty.Some?
                && (plan.route == InPlace ==> forall path :: path in site.dirty.value ==> path !in targets)
      ensures plan.Refuse? ==> !Late(plan.reason) && plan.reason != PolicyRequired
      ensures Quiet() ==> PlannedRightly(plan, repo, site, targets)
      ensures Quiet() ==>
                && repo == old(repo)
                && plan == MakePlan(RefValue(repo, canonicalRef), CheckedOut(repo.head), canonicalRef, site, targets)
    {
      ghost var was := trace;
      var ok := Command();
      var commit := if ok then RefValue(repo, canonicalRef) else None;
      plannedAt := trace;
      ok := Command();
      FollowsOn(trace, plannedAt, was);
      var head := if ok then CheckedOut(repo.head) else None;
      plan := MakePlan(commit, head, canonicalRef, site, targets);
      forall reason
        ensures plan == Refuse(reason) <==> RefusedFor(reason, commit, head, canonicalRef, site, targets)
      {
        PlanExactly(commit, head, canonicalRef, site, targets, reason);
      }
      PlanExactly(commit, head, canonicalRef, site, targets, PolicyRequired);
    }

    /** What a quiet repository gives for a write through the worktree: nothing to change, or a write, or the proposal
        that is there already, or a refusal to move it. */
    twostate predicate QuietApart(policy: Policy, r: Result, contents: Tree, before: nat)
      requires before < |old(repo).commits|
      reads this
    {
      var tree := old(repo).commits[before].tree;
      var existing := RefValue(old(repo), proposalRef(before, contents));
      if tree + contents == tree then r == Unchanged(before)
      else if policy == Commit then HEADS <= canonicalRef ==> r.Written?
      else if existing.None? then r.Written?
      else if existing.value < |old(repo).commits| && old(repo).commits[existing.value].tree == tree + contents then
        r == Unchanged(existing.value)
      else r == Refused(NotFastForward)
    }

    /** Add the detached worktree at the canonical ref, as it is by then, and write there. */
    method WriteIsolated(policy: Policy, contents: Tree, before: nat) returns (r: Result)
      requires Valid() && policy != DryRun
      modifies this`repo, this`clock, this`trace, this`openedAt
      ensures Ran()
      ensures !r.Written? ==> Untouched() && (r.Unchanged? || (r.Refused? && Late(r.reason)))
      ensures r.Written? ==>
                && r.before == before && r.route == Isolated && r.commit < |repo.commits|
                && OneUpdate(TargetRef(policy, before, contents), r.commit)
                && Follows(openedAt, old(trace)) && Follows(trace.past, openedAt)
                && (policy == Commit ==> RefAt(trace.past, TargetRef(policy, before, contents)) == Some(before))
      ensures r.Written? ==>
                var workHead := RefAt(openedAt, canonicalRef);
                && workHead.Some? && workHead.value < |repo.commits|
                && repo.commits[r.commit] == Node([workHead.value], repo.commits[workHead.value].tree + contents)
      ensures r.Written? && policy == Propose && Quiet() ==> RefValue(old(repo), proposalRef(before, contents)).None?
      ensures Quiet() && RefValue(old(repo), canonicalRef) == Some(before) ==> QuietApart(policy, r, contents, before)
    {
      ghost var was := trace;
      CommitRefOfBranch(canonicalRef);
      var ok := Command();
      var workHead := RefValue(repo, canonicalRef);
      if !ok || workHead.None? {
        return Refused(WorktreeUnavailable);
      }
      openedAt := trace;
      r := ApplyIsolated(policy, contents, before, workHead.value);
      FollowsOn(trace, openedAt, was);
      if r.Written? {
        FollowsOn(trace.past, openedAt, was);
      }
    }

    /** What a written COMMIT through the isolated worktree has done: the canonical ref went from the plan's commit to
        a child of the value it had when the worktree was added; so to a child of the plan's commit if and only if it
        had the plan's value then, and always if the others only fast-forward it. */
    ghost predicate CommittedApart(before: nat, commit: nat, contents: Tree)
      reads this
    {
      && trace.Then? && trace.step == Updated(canonicalRef, commit) && commit < |repo.commits|
      && Follows(openedAt, plannedAt) && Follows(trace.past, openedAt)
      && RefAt(plannedAt, canonicalRef) == Some(before) && RefAt(trace.past, canonicalRef) == Some(before)
      && var workHead := RefAt(openedAt, canonicalRef);
      && workHead.Some? && workHead.value < |repo.commits|
      && repo.commits[commit] == Node([workHead.value], repo.commits[workHead.value].tree + contents)
      && (repo.commits[commit].parents == [before] <==> workHead == RefAt(plannedAt, canonicalRef))
      && (OnlyFastForwards(trace.past, plannedAt, canonicalRef) ==> repo.commits[commit].parents == [before])
    }

    /** The canonical ref is where the others have put it. */
    twostate predicate LeftToOthers()
      reads this
    {
      OthersSpare(trace, old(trace), canonicalRef) ==> RefValue(repo, canonicalRef) == RefValue(old(repo), canonicalRef)
    }

    /** A COMMIT through the isolated worktree, after its plan. */
    method CommitApart(contents: Tree, before: nat) returns (r: Result)
      requires Valid() && HEADS <= canonicalRef
      requires Follows(trace, plannedAt) && Updates(trace) == Updates(plannedAt)
      requires RefAt(plannedAt, canonicalRef) == Some(before)
      modifies this`repo, this`clock, this`trace, this`openedAt
      ensures Ran() && plannedAt == old(plannedAt)
      ensures !r.Written? ==> Untouched() && (r.Unchanged? || (r.Refused? && Late(r.reason)))
      ensures r.Written? ==> r.before == before && r.route == Isolated && r.commit < |repo.commits|
      ensures r.Written? ==> OneUpdate(canonicalRef, r.commit) && CommittedApart(before, r.commit, contents)
      ensures Quiet() && RefValue(old(repo), canonicalRef) == Some(before) ==> QuietApart(Commit, r, contents, before)
    {
      ghost var was := trace;
      CommitRefOfBranch(canonicalRef);
      r := WriteIsolated(Commit, contents, before);
      if r.Written? {
        FollowsOn(openedAt, was, plannedAt);
        if OnlyFastForwards(trace.past, plannedAt, canonicalRef) {
          FastForwardsMakeTheSwapSound(plannedAt, openedAt, trace.past, canonicalRef);
        }
      }
    }

    /** What a quiet repository gives for a COMMIT with the canonical ref checked out. */
    twostate predicate QuietInPlace(r: Result, contents: Tree, site: Site, before: nat)
      requires before < |old(repo).commits|
      reads this
    {
      if old(StagedInPlace(before, contents, site)) == old(repo).commits[before].tree then r == Unchanged(before)
      else r.Written?
    }

    /** From the plan on. */
    method CarryOut(policy: Policy, contents: Tree, site: Site, plan: Plan) returns (r: Result)
      requires Valid() && policy != DryRun && plan.Planned?
      requires Follows(trace, plannedAt) && Updates(trace) == Updates(plannedAt)
      requires RefAt(plannedAt, canonicalRef) == Some(plan.commit)
      modifies this`repo, this`clock, this`trace, this`openedAt
      ensures Ran() && plannedAt == old(plannedAt)
      ensures !r.Written? ==> Untouched() && (r.Unchanged? || (r.Refused? && Late(r.reason)))
      ensures r.Written? ==> r.before == plan.commit && r.commit < |repo.commits| && Carries(r.commit, contents)
      ensures r.Written? ==> (r.route == InPlace <==> policy == Commit && plan.route == InPlace)
      ensures r.Written? && r.route == InPlace ==> ChildOfTip(r.commit)
      ensures r.Written? && r.route == InPlace && Quiet() && old(repo).head == OnBranch(canonicalRef)
              && RefValue(old(repo), canonicalRef) == Some(plan.commit) ==>
                && OneUpdate(canonicalRef, r.commit)
                && repo.commits[r.commit] == Node([r.before], old(StagedInPlace(plan.commit, contents, site)))
      ensures r.Written? && r.route == Isolated ==> OneUpdate(TargetRef(policy, r.before, contents), r.commit)
      ensures r.Written? && r.route == Isolated && policy == Commit && HEADS <= canonicalRef ==>
                CommittedApart(r.before, r.commit, contents)
      ensures r.Written? && policy == Propose && Quiet() ==>
                RefValue(old(repo), proposalRef(r.before, contents)).None?
      ensures Quiet() && RefValue(old(repo), canonicalRef) == Some(plan.commit) ==>
                if policy == Propose || plan.route == Isolated then QuietApart(policy, r, contents, plan.commit)
                else if old(repo).head == OnBranch(canonicalRef) then QuietInPlace(r, contents, site, plan.commit)
                else true
    {
      CommitRefOfBranch(canonicalRef);
      if policy == Commit && plan.route == InPlace {
        r := ApplyInPlace(contents, site, plan.commit);
      } else if policy == Commit && HEADS <= canonicalRef {
        r := CommitApart(contents, plan.commit);
      } else {
        r := WriteIsolated(policy, contents, plan.commit);
      }
    }

    /** What a write has done. In place: the checked-out branch moved to a child of what it held; in a quiet
        repository that is the canonical ref, from the plan's commit. Apart: one ref moved, for COMMIT the canonical
        one as described, for PROPOSE the proposal's, which in a quiet repository did not exist. */
    twostate predicate Wrote(policy: Policy, r: Result, contents: Tree, site: Site)
      requires r.Written?
      reads this
    {
      && (r.route == InPlace ==> policy == Commit && ChildOfTip(r.commit))
      && (r.route == InPlace && Quiet() ==>
            && OneUpdate(canonicalRef, r.commit) && RefValue(old(repo), canonicalRef) == Some(r.before)
            && repo.commits[r.commit] == Node([r.before], old(StagedInPlace(r.before, contents, site))))
      && (r.route == Isolated ==> OneUpdate(TargetRef(policy, r.before, contents), r.commit))
      && (r.route == Isolated && policy == Commit && HEADS <= canonicalRef ==>
            Follows(plannedAt, old(trace)) && CommittedApart(r.before, r.commit, contents))
      && (policy == Propose && Quiet() ==> RefValue(old(repo), proposalRef(r.before, contents)).None?)
    }

    /** In a quiet repository, exactly when each refusal of the plan is given; and when none is, what comes instead. */
    twostate predicate QuietOutcome(policy: Policy, r: Result, contents: Tree, site: Site)
      reads this
    {
      var commit, head := RefValue(old(repo), canonicalRef), CheckedOut(old(repo).head);
      && (forall reason :: !Late(reason) && reason != PolicyRequired ==>
            (r == Refused(reason) <==> RefusedFor(reason, commit, head, canonicalRef, site, contents.Keys)))
      && (Clear(commit, head, canonicalRef, site, contents.Keys) ==>
            && commit.value < |old(repo).commits|
            && if policy == DryRun then r == Reported(commit.value)
               else if policy == Commit && head == Some(canonicalRef) then QuietInPlace(r, contents, site, commit.value)
               else QuietApart(policy, r, contents, commit.value))
    }

    /** What every write implies of the site: nothing ahead of the upstream, known dirty paths, and none of them written
        over in place. */
    predicate SiteAllows(r: Result, contents: Tree, site: Site)
      requires r.Written?
    {
      && site.ahead.Some? && site.ahead.value <= 0 && site.dirty.Some?
      && (r.route == InPlace ==> forall path :: path in site.dirty.value ==> path !in contents)
    }

    method PlanAndWrite(policy: Policy, contents: Tree, site: Site) returns (r: Result)
      requires Valid()
      modifies this
      ensures Ran()
      ensures if r.Written? then policy != DryRun && Wrote(policy, r, contents, site) else Untouched()
      ensures policy == DryRun ==> r.Refused? || r.Reported?
      ensures r.Written? ==> SiteAllows(r, contents, site) && Carries(r.commit, contents)
      ensures Quiet() ==> QuietOutcome(policy, r, contents, site)
    {
      ghost var was := trace;
      var plan := PlanWrite(site, contents.Keys);
      if plan.Refuse? {
        return Refused(plan.reason);
      }
      if policy == DryRun {
        return Reported(plan.commit);
      }
      ghost var mid := trace;
      FollowsOn(mid, plannedAt, was);
      r := CarryOut(policy, contents, site, plan);
      FollowsOn(trace, mid, was);
      if trace.Then? && Follows(trace.past, mid) {
        FollowsOn(trace.past, mid, was);
      }
    }

    /** For every schedule of the others: PROPOSE, a dry run and every refusal leave the canonical ref where the others
        have put it, and a write does what Wrote says. */
    method WriteToCanonicalRef(policy: Option<Policy>, contents: Tree, site: Site) returns (r: Result)
      requires Valid()
      modifies this
      ensures Ran()
      ensures policy.None? ==> r == Refused(PolicyRequired)
      ensures policy == Some(DryRun) ==> r.Refused? || r.Reported?
      ensures r.Written? ==> SiteAllows(r, contents, site) && Carries(r.commit, contents)
      ensures policy.Some? && Quiet() ==> QuietOutcome(policy.value, r, contents, site)
      ensures if r.Written? then policy.Some? && Wrote(policy.value, r, contents, site) else Untouched()
      ensures (!r.Written? || policy == Some(Propose)) && NamedApart() ==> LeftToOthers()
    {
      if policy.None? {
        return Refused(PolicyRequired);
      }
      ghost var was := trace;
      r := PlanAndWrite(policy.value, contents, site);
      if OthersSpare(trace, was, canonicalRef) {
        if !r.Written? {
          RefStays(trace, was, canonicalRef);
        } else if policy == Some(Propose) && NamedApart() {
          OtherRefStays(trace, was, canonicalRef);
        }
      }
    }

    /** With nobody else at work, proposing the same content twice yields one ref and one commit. */
    method ProposeTwice(contents: Tree) returns (first: Result, second: Result)
      requires Valid() && Quiet() && NamedApart()
      requires canonicalRef in repo.refs
      modifies this
      ensures first.Written? ==> second == Unchanged(first.commit) && Updates(trace) == Updates(old(trace)) + 1
      ensures !first.Written? ==> second == first && Untouched()
    {
      var before := repo.refs[canonicalRef];
      first := ApplyIsolated(Propose, contents, before, before);
      second := ApplyIsolated(Propose, contents, before, before);
    }
  }
}
