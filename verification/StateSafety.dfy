/** Main results about whole runs of the canonical state root: what can be materialized and rolled
    back to, and who may write. */
module StateSafety {
  import opened Basics
  import opened ContainedPath
  import opened StateRoot
  import opened StateHistory

  /** The imported gate is the one in ContainedPath. */
  ghost predicate Gated(lib: Imports) {
    forall value :: lib.contain(value) == Contain(value)
  }

  /** The canonical paths that the gate refuses when it sees them again. */
  predicate Unstable(p: string) {
    Blank(p) || DriveAbsolute(p)
  }

  /** No path of this index is refused on its way back out. */
  predicate AllStable(index: Index, applyTombstones: bool) {
    && (forall p :: p in index.entries ==> !Unstable(p))
    && (applyTombstones ==> forall p :: p in index.tombstones ==> !Unstable(p))
  }

  lemma CanonicalReentry(lib: Imports, p: string)
    requires Gated(lib) && IsCanonical(lib, p)
    ensures lib.contain(p) == if Unstable(p) then Rejected else Contained(p)
  {
    var value :| lib.contain(value) == Contained(p);
    ContainedIsNormal(value);
    NormalReentry(p);
  }

  lemma SoundIsSettled(lib: Imports, bodies: iset<Bytes>, blobs: map<string, Bytes>, c: Commit, applyTombstones: bool)
    requires Gated(lib) && Sound(lib, bodies, blobs, c)
    ensures Settled(lib, c.index)
    ensures AllStable(c.index, applyTombstones) <==> AllAccepted(lib, c.index, applyTombstones)
  {
    forall p | p in c.index.entries.Keys + c.index.tombstones.Keys
      ensures lib.contain(p) == if Unstable(p) then Rejected else Contained(p)
    {
      CanonicalReentry(lib, p);
    }
    assert forall p :: p in c.index.entries ==> p in c.index.entries.Keys + c.index.tombstones.Keys;
    assert forall p :: p in c.index.tombstones ==> p in c.index.entries.Keys + c.index.tombstones.Keys;
  }

  predicate AllAccepted(lib: Imports, index: Index, applyTombstones: bool) {
    && (forall p :: p in index.entries ==> lib.contain(p).Contained?)
    && (applyTombstones ==> forall p :: p in index.tombstones ==> lib.contain(p).Contained?)
  }

  predicate SameRecords(a: Index, b: Index) {
    a.entries == b.entries && a.tombstones == b.tombstones
  }

  lemma SoundEntryReads(lib: Imports, bodies: iset<Bytes>, area: Area, c: Commit, p: string)
    requires CollisionFree(lib, bodies)
    requires Sound(lib, bodies, area.blobs, c) && BlobsSound(lib, bodies, area.blobs)
    requires SameRecords(area.index, c.index) && p in c.index.entries
    ensures EntryReadable(lib, area, p) <==> lib.contain(p).Contained?
    ensures area.index.entries[p].sha256 in area.blobs
    ensures area.blobs[area.index.entries[p].sha256] == c.files[p]
  {
    assert p in c.files;
  }

  /** An area whose current index is a sound commit projects exactly that commit's files. */
  lemma SoundProjects(lib: Imports, bodies: iset<Bytes>, area: Area, c: Commit, applyTombstones: bool)
    requires CollisionFree(lib, bodies)
    requires Sound(lib, bodies, area.blobs, c) && BlobsSound(lib, bodies, area.blobs)
    requires SameRecords(area.index, c.index)
    ensures Materializable(lib, area, applyTombstones) <==> AllAccepted(lib, area.index, applyTombstones)
    ensures Content(area, area.index.entries.Keys) == c.files
  {
    forall p | p in c.index.entries
      ensures EntryReadable(lib, area, p) <==> lib.contain(p).Contained?
      ensures area.index.entries[p].sha256 in area.blobs
      ensures area.blobs[area.index.entries[p].sha256] == c.files[p]
    {
      SoundEntryReads(lib, bodies, area, c, p);
    }
  }

  lemma ProjectionIsOverlay(area: Area, files: map<string, Bytes>, checkout: map<string, Bytes>)
    requires Content(area, area.index.entries.Keys) == files
    requires files.Keys !! area.index.tombstones.Keys
    ensures Projected(area, map[], true) == files
    ensures Projected(area, checkout, true) == (checkout - area.index.tombstones.Keys) + files
  {
  }

  /** After any legal run, for every commit of every key: a writer that holds the lease can roll back
      to it, the index then projects exactly when no path is blank or drive-like, an empty checkout
      becomes the committed files byte for byte, and any other checkout gets each committed file in
      place, loses the tombstoned ones and keeps the rest. */
  lemma EveryCommitRebuilds(lib: Imports, bodies: iset<Bytes>, ops: seq<Op>, key: string, i: nat, machine: string,
                            token: Option<int>, checkout: map<string, Bytes>)
    requires Gated(lib) && CollisionFree(lib, bodies)
    requires LegalRun(lib, EMPTY_WORLD, ops) && RunWithin(ops, bodies)
    requires i < |CommitsAt(Run(lib, EMPTY_WORLD, ops), key)|
    requires Holds(AreaAt(Run(lib, EMPTY_WORLD, ops).areas, key), machine, token)
    ensures var w := Run(lib, EMPTY_WORLD, ops);
            var c := CommitsAt(w, key)[i];
            var (after, result) := Rollback(AreaAt(w.areas, key), c.index, machine, token);
            && result.Ok?
            && (Materializable(lib, after, true) <==> AllStable(c.index, true))
            && Projected(after, map[], true) == c.files
            && Projected(after, checkout, true) == (checkout - c.index.tombstones.Keys) + c.files
  {
    EmptyWorldInv(lib, bodies);
    RunKeeps(lib, bodies, EMPTY_WORLD, ops);
    var w := Run(lib, EMPTY_WORLD, ops);
    var area := AreaAt(w.areas, key);
    assert AreaInv(lib, bodies, area, CommitsAt(w, key));
    var c := CommitsAt(w, key)[i];
    var after := Rollback(area, c.index, machine, token).0;
    SoundProjects(lib, bodies, after, c, true);
    SoundIsSettled(lib, bodies, area.blobs, c, true);
    ProjectionIsOverlay(after, c.files, checkout);
  }

  /** The same for the index that is current at the end of the run. */
  lemma CurrentIndexProjects(lib: Imports, bodies: iset<Bytes>, ops: seq<Op>, key: string,
                             checkout: map<string, Bytes>, applyTombstones: bool)
    requires Gated(lib) && CollisionFree(lib, bodies)
    requires LegalRun(lib, EMPTY_WORLD, ops) && RunWithin(ops, bodies)
    ensures var w := Run(lib, EMPTY_WORLD, ops);
            var area := AreaAt(w.areas, key);
            var files := LatestFiles(w, key);
            && (Materializable(lib, area, applyTombstones) <==> AllStable(area.index, applyTombstones))
            && Settled(lib, area.index)
            && area.index.entries.Keys !! area.index.tombstones.Keys
            && (forall p :: p in files ==> p in Projected(area, checkout, applyTombstones)
                                           && Projected(area, checkout, applyTombstones)[p] == files[p])
            && (applyTombstones ==> area.index.tombstones.Keys !! Projected(area, checkout, true).Keys)
  {
    EmptyWorldInv(lib, bodies);
    RunKeeps(lib, bodies, EMPTY_WORLD, ops);
    var w := Run(lib, EMPTY_WORLD, ops);
    var area := AreaAt(w.areas, key);
    assert AreaInv(lib, bodies, area, CommitsAt(w, key));
    var commits := CommitsAt(w, key);
    SoundProjects(lib, bodies, area, commits[|commits| - 1], applyTombstones);
    SoundIsSettled(lib, bodies, area.blobs, commits[|commits| - 1], applyTombstones);
  }

  /** Without any assumption on the hash: after every legal run no entry of any commit lacks its blob,
      no blob is corrupt, and no tombstone carries a revision from the future. */
  lemma NoBlobIsEverMissing(lib: Imports, bodies: iset<Bytes>, ops: seq<Op>, key: string, i: nat)
    requires LegalRun(lib, EMPTY_WORLD, ops) && RunWithin(ops, bodies)
    requires i < |CommitsAt(Run(lib, EMPTY_WORLD, ops), key)|
    ensures var w := Run(lib, EMPTY_WORLD, ops);
            var blobs := AreaAt(w.areas, key).blobs;
            var index := CommitsAt(w, key)[i].index;
            && index.revision == i
            && index.entries.Keys !! index.tombstones.Keys
            && (forall p :: p in index.entries ==>
                  index.entries[p].sha256 in blobs
                  && lib.sha256(blobs[index.entries[p].sha256]) == index.entries[p].sha256)
            && (forall p :: p in index.tombstones ==> index.tombstones[p].revision <= i)
  {
    EmptyWorldInv(lib, bodies);
    RunKeeps(lib, bodies, EMPTY_WORLD, ops);
    var w := Run(lib, EMPTY_WORLD, ops);
    assert AreaInv(lib, bodies, AreaAt(w.areas, key), CommitsAt(w, key));
    var c := CommitsAt(w, key)[i];
    assert Sound(lib, bodies, AreaAt(w.areas, key).blobs, c);
    forall p | p in c.index.entries
      ensures c.index.entries[p].sha256 in AreaAt(w.areas, key).blobs
    {
      assert p in c.files;
    }
  }

  // ---- The shortest runs ----

  /** Take the lease of a fresh key and publish. */
  function Setup(key: string, machine: string, change: Change): seq<Op> {
    [AcquireOp(key, machine, Some(0), 0), PublishOp(key, machine, change, 0, Some(1))]
  }

  lemma SetupRuns(lib: Imports, key: string, machine: string, change: Change)
    requires FilesContained(lib, change.contents) && PathsContained(lib, change.deletions)
    ensures LegalRun(lib, EMPTY_WORLD, Setup(key, machine, change))
    ensures var area := AreaAt(Run(lib, EMPTY_WORLD, Setup(key, machine, change)).areas, key);
            Holds(area, machine, Some(1)) && area.index == Published(lib, EMPTY_INDEX, machine, change)
  {
    var ops := Setup(key, machine, change);
    var leased := Step(lib, EMPTY_WORLD, ops[0]);
    assert AreaAt(leased.areas, key) == EMPTY_AREA.(lease := Some(Lease(machine, 0, 1)));
    assert ops[1..] == [ops[1]] && ops[1..][1..] == [];
    assert Run(lib, EMPTY_WORLD, ops) == Run(lib, leased, ops[1..]) == Step(lib, leased, ops[1]);
    assert LegalRun(lib, leased, ops[1..]);
  }

  /** Publishing to `./C:/x` is accepted, and leaves an index that no checkout can be made from. */
  lemma DrivePathStopsProjection(lib: Imports, key: string, machine: string, file: File, drive: char, name: string,
                                 applyTombstones: bool)
    requires Gated(lib) && Letter(drive) && NormalForm(name)
    requires file.path == "./" + ([drive, ':'] + "/" + name)
    ensures var ops := Setup(key, machine, Change([file], []));
            && LegalRun(lib, EMPTY_WORLD, ops)
            && !Materializable(lib, AreaAt(Run(lib, EMPTY_WORLD, ops).areas, key), applyTombstones)
  {
    var p, change := [drive, ':'] + "/" + name, Change([file], []);
    DriveFailsReentry(p, drive, name);
    assert lib.contain(file.path) == Contained(p) && lib.contain(p) == Rejected;
    SetupRuns(lib, key, machine, change);
    assert [file][..0] == [] && CanonicalFiles(lib, [file]) == map[p := file.body];
    assert CanonicalPaths(lib, change.deletions) == {};
    var area := AreaAt(Run(lib, EMPTY_WORLD, Setup(key, machine, change)).areas, key);
    assert p in area.index.entries && !EntryReadable(lib, area, p);
  }

  // ---- Fencing ----

  function LeaseAt(w: World, key: string): Option<Lease> {
    AreaAt(w.areas, key).lease
  }

  /** A grant, as the operations alone tell it: to whom and until when. */
  datatype Grant = Grant(machine: string, expiresAt: int)

  /** A grant is held back while another machine's last one has not expired. */
  predicate Accepts(grants: seq<Grant>, op: Op) {
    op.AcquireOp? && op.now.Some? &&
    (grants == [] || grants[|grants| - 1].machine == op.machine || grants[|grants| - 1].expiresAt <= op.now.value)
  }

  /** A release goes through if it is the last grantee's own. */
  predicate Clears(grants: seq<Grant>, op: Op) {
    op.ReleaseOp? && (grants == [] || grants[|grants| - 1].machine == op.machine)
  }

  function Tallied(grants: seq<Grant>, op: Op, key: string): seq<Grant> {
    if op.AcquireOp? && op.key == key && Accepts(grants, op) then
      grants + [Grant(op.machine, op.now.value + op.ttl)]
    else if op.ReleaseOp? && op.key == key && Clears(grants, op) then []
    else grants
  }

  /** The grants on a key since the last release that went through. */
  function GrantsSince(ops: seq<Op>, key: string): seq<Grant> {
    if ops == [] then [] else Tallied(GrantsSince(ops[..|ops| - 1], key), ops[|ops| - 1], key)
  }

  /** The lease on file is the last grant, and its token is their number. */
  predicate LeaseIsTally(lease: Option<Lease>, grants: seq<Grant>) {
    lease == if grants == [] then None
             else Some(Lease(grants[|grants| - 1].machine, grants[|grants| - 1].expiresAt, |grants|))
  }

  lemma {:induction false} DrainKeepsLeases(lib: Imports, w: World, queue: seq<Item>, machine: string,
                                            token: Option<int>, key: string)
    ensures LeaseAt(StepDrain(lib, w, queue, machine, token), key) == LeaseAt(w, key)
  {
    if queue != [] {
      DrainKeepsLeases(lib, w, queue[..|queue| - 1], machine, token, key);
    }
  }

  lemma StepOnTally(lib: Imports, w: World, grants: seq<Grant>, op: Op, key: string)
    requires LeaseIsTally(LeaseAt(w, key), grants)
    ensures LeaseIsTally(LeaseAt(Step(lib, w, op), key), Tallied(grants, op, key))
  {
    if op.DrainOp? {
      DrainKeepsLeases(lib, w, op.queue, op.machine, op.token, key);
    }
  }

  lemma {:induction false} RunSnoc(lib: Imports, w: World, ops: seq<Op>)
    requires ops != []
    ensures Run(lib, w, ops) == Step(lib, Run(lib, w, ops[..|ops| - 1]), ops[|ops| - 1])
    decreases |ops|
  {
    if |ops| == 1 {
      assert ops[1..] == [] && ops[..0] == [];
    } else {
      RunSnoc(lib, Step(lib, w, ops[0]), ops[1..]);
      assert ops[..|ops| - 1][1..] == ops[1..][..|ops| - 2];
    }
  }

  lemma {:induction false} RunOnTally(lib: Imports, ops: seq<Op>, key: string)
    ensures LeaseIsTally(LeaseAt(Run(lib, EMPTY_WORLD, ops), key), GrantsSince(ops, key))
    decreases |ops|
  {
    if ops != [] {
      var n := |ops| - 1;
      RunSnoc(lib, EMPTY_WORLD, ops);
      RunOnTally(lib, ops[..n], key);
      StepOnTally(lib, Run(lib, EMPTY_WORLD, ops[..n]), GrantsSince(ops[..n], key), ops[n], key);
    }
  }

  /** Exactly who passes the fence, over every run by any machines: the machine of the last grant since the last
      release that went through, with the number of grants since then as its token. */
  lemma HoldsExactly(lib: Imports, ops: seq<Op>, key: string, machine: string, token: int)
    ensures var grants := GrantsSince(ops, key);
            Holds(AreaAt(Run(lib, EMPTY_WORLD, ops).areas, key), machine, Some(token)) <==>
              grants != [] && grants[|grants| - 1].machine == machine && token == |grants|
  {
    RunOnTally(lib, ops, key);
  }

  /** None of these releases goes through. */
  predicate NeverCleared(grants: seq<Grant>, ops: seq<Op>, key: string)
    decreases |ops|
  {
    ops == [] ||
    (&& !(ops[0].ReleaseOp? && ops[0].key == key && Clears(grants, ops[0]))
     && NeverCleared(Tallied(grants, ops[0], key), ops[1..], key))
  }

  lemma {:induction false} TallyGrows(before: seq<Op>, ops: seq<Op>, key: string)
    requires NeverCleared(GrantsSince(before, key), ops, key)
    ensures |GrantsSince(before, key)| <= |GrantsSince(before + ops, key)|
    decreases |ops|
  {
    if ops == [] {
      assert before + ops == before;
    } else {
      assert (before + [ops[0]])[..|before|] == before;
      assert before + [ops[0]] + ops[1..] == before + ops;
      TallyGrows(before + [ops[0]], ops[1..], key);
    }
  }

  /** Between two clearings the tokens of successive grants strictly increase. */
  lemma TokensIncrease(lib: Imports, ops: seq<Op>, more: seq<Op>, op: Op, key: string)
    requires op.AcquireOp? && op.key == key && Accepts(GrantsSince(ops + more, key), op)
    requires NeverCleared(GrantsSince(ops, key), more, key) && GrantsSince(ops, key) != []
    ensures var first, second := LeaseAt(Run(lib, EMPTY_WORLD, ops), key),
                                 LeaseAt(Run(lib, EMPTY_WORLD, ops + more + [op]), key);
            && first.Some? && second.Some? && second.value.machine == op.machine
            && first.value.token < second.value.token
  {
    TallyGrows(ops, more, key);
    assert (ops + more + [op])[..|ops + more|] == ops + more;
    RunOnTally(lib, ops, key);
    RunOnTally(lib, ops + more + [op], key);
  }

  /** Releasing restarts the count: whoever held a lease and released it passes the fence with it again, as soon as the
      grants since then are as many as its token and the last of them was to that machine. */
  lemma ReleaseForgetsTheToken(lib: Imports, ops: seq<Op>, release: Op, more: seq<Op>, key: string, machine: string,
                               token: int)
    requires Holds(AreaAt(Run(lib, EMPTY_WORLD, ops).areas, key), machine, Some(token))
    requires release == ReleaseOp(key, machine)
    requires var grants := GrantsSince(ops + [release] + more, key);
             grants != [] && |grants| == token && grants[|grants| - 1].machine == machine
    ensures GrantsSince(ops + [release], key) == []
    ensures Holds(AreaAt(Run(lib, EMPTY_WORLD, ops + [release] + more).areas, key), machine, Some(token))
  {
    RunOnTally(lib, ops, key);
    assert (ops + [release])[..|ops|] == ops;
    HoldsExactly(lib, ops + [release] + more, key, machine, token);
  }

  function Times(op: Op, n: nat): (ops: seq<Op>)
    ensures |ops| == n
  {
    if n == 0 then [] else Times(op, n - 1) + [op]
  }

  predicate AllTo(grants: seq<Grant>, machine: string) {
    forall k :: 0 <= k < |grants| ==> grants[k].machine == machine
  }

  lemma OneMoreGrant(grants: seq<Grant>, op: Op, key: string)
    requires op.AcquireOp? && op.key == key && op.now.Some? && AllTo(grants, op.machine)
    ensures |Tallied(grants, op, key)| == |grants| + 1 && AllTo(Tallied(grants, op, key), op.machine)
  {
  }

  /** The shortest way there: as many grants to the same machine as the token says. */
  lemma {:induction false} Reacquired(before: seq<Op>, op: Op, key: string, n: nat)
    requires GrantsSince(before, key) == [] && op.AcquireOp? && op.key == key && op.now.Some?
    ensures var grants := GrantsSince(before + Times(op, n), key);
            |grants| == n && AllTo(grants, op.machine)
    decreases n
  {
    if n == 0 {
      assert before + [] == before;
    } else {
      Reacquired(before, op, key, n - 1);
      OneMoreGrant(GrantsSince(before + Times(op, n - 1), key), op, key);
      var ops := before + Times(op, n);
      assert ops[..|ops| - 1] == before + Times(op, n - 1) && ops[|ops| - 1] == op;
    }
  }

  /** So no lease is ever void for good: for every lease that was held there is a run, by its own machine alone, after
      which it passes again. */
  lemma EveryLeaseReturns(lib: Imports, ops: seq<Op>, key: string, machine: string, token: nat, again: Op)
    requires Holds(AreaAt(Run(lib, EMPTY_WORLD, ops).areas, key), machine, Some(token))
    requires again.AcquireOp? && again.key == key && again.machine == machine && again.now.Some?
    ensures var more := [ReleaseOp(key, machine)] + Times(again, token);
            Holds(AreaAt(Run(lib, EMPTY_WORLD, ops + more).areas, key), machine, Some(token))
  {
    var release := ReleaseOp(key, machine);
    HoldsExactly(lib, ops, key, machine, token);
    RunOnTally(lib, ops, key);
    assert (ops + [release])[..|ops|] == ops;
    Reacquired(ops + [release], again, key, token);
    ReleaseForgetsTheToken(lib, ops, release, Times(again, token), key, machine, token);
    assert ops + [release] + Times(again, token) == ops + ([release] + Times(again, token));
  }

  /** The key's lease is not this machine's. */
  predicate NotHeldBy(w: World, key: string, machine: string) {
    LeaseAt(w, key).Some? ==> LeaseAt(w, key).value.machine != machine
  }

  lemma {:induction false} StaysOut(lib: Imports, w: World, ops: seq<Op>, key: string, machine: string)
    requires NotHeldBy(w, key, machine)
    requires forall op :: op in ops && op.AcquireOp? && op.key == key ==> op.machine != machine
    ensures NotHeldBy(Run(lib, w, ops), key, machine)
    decreases |ops|
  {
    if ops != [] {
      if ops[0].DrainOp? {
        DrainKeepsLeases(lib, w, ops[0].queue, ops[0].machine, ops[0].token, key);
      }
      StaysOut(lib, Step(lib, w, ops[0]), ops[1..], key, machine);
    }
  }

  /** Once another machine has been granted the lease, and until the old machine asks for it again, whatever happens,
      releases included: the old machine writes nothing, with any token. Publish and rollback are refused and the whole
      area, index and blobs, is as it was. */
  lemma OldLeaseIsFenced(lib: Imports, w: World, ops: seq<Op>, key: string, machine: string, token: Option<int>,
                         change: Change, base: int, previous: Index)
    requires LeaseAt(w, key).Some? && LeaseAt(w, key).value.machine != machine
    requires forall op :: op in ops && op.AcquireOp? && op.key == key ==> op.machine != machine
    ensures var area := AreaAt(Run(lib, w, ops).areas, key);
            var (published, r1) := Publish(lib, area, machine, change, base, token);
            var (restored, r2) := Rollback(area, previous, machine, token);
            && r1.Err? && published == area
            && r2 == Err(LeaseHeld) && restored == area
  {
    StaysOut(lib, w, ops, key, machine);
  }

  /** The same machine's older tokens stay refused until the lease is released. */
  lemma OldTokenIsFenced(lib: Imports, ops: seq<Op>, more: seq<Op>, op: Op, later: seq<Op>, key: string,
                         machine: string, token: int)
    requires Holds(AreaAt(Run(lib, EMPTY_WORLD, ops).areas, key), machine, Some(token))
    requires op.AcquireOp? && op.key == key && Accepts(GrantsSince(ops + more, key), op)
    requires NeverCleared(GrantsSince(ops, key), more, key)
    requires NeverCleared(GrantsSince(ops + more + [op], key), later, key)
    ensures !Holds(AreaAt(Run(lib, EMPTY_WORLD, ops + more + [op] + later).areas, key), machine, Some(token))
  {
    HoldsExactly(lib, ops, key, machine, token);
    TallyGrows(ops, more, key);
    assert (ops + more + [op])[..|ops + more|] == ops + more;
    TallyGrows(ops + more + [op], later, key);
    HoldsExactly(lib, ops + more + [op] + later, key, machine, token);
  }

  /** Only the machine and token of the lease on file change an index, by exactly one revision. */
  lemma OnlyTheHolderWrites(lib: Imports, w: World, op: Op, key: string)
    ensures var before := AreaAt(w.areas, key);
            var after := AreaAt(Step(lib, w, op).areas, key);
            after.index != before.index ==>
              && (op.PublishOp? || op.RollbackOp? || op.DrainOp?)
              && Holds(before, op.machine, op.token)
              && (!op.DrainOp? ==> op.key == key && after.index.revision == before.index.revision + 1)
  {
    if op.DrainOp? && !Holds(AreaAt(w.areas, key), op.machine, op.token) {
      DrainNeedsTheLease(lib, w, op.queue, op.machine, op.token, key);
    }
  }

  lemma {:induction false} DrainNeedsTheLease(lib: Imports, w: World, queue: seq<Item>, machine: string,
                                              token: Option<int>, key: string)
    requires !Holds(AreaAt(w.areas, key), machine, token)
    ensures AreaAt(StepDrain(lib, w, queue, machine, token).areas, key) == AreaAt(w.areas, key)
  {
    if queue != [] {
      DrainNeedsTheLease(lib, w, queue[..|queue| - 1], machine, token, key);
    }
  }
}
