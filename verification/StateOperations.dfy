/** What each operation on the canonical state root promises its caller, and what that means for stale writers. */
module StateOperations {
  import opened Basics
  import opened ContainedPath
  import opened StateRoot
  import opened StateHistory
  import opened StateReplay

  // ---- One operation ----

  /** A lease is granted if and only if there is a clock and no other machine's lease is still running; it passes the
      fence at once. */
  lemma AcquireExactly(area: Area, machine: string, now: Option<int>, ttl: int)
    ensures var (after, result) := Acquire(area, machine, now, ttl);
            && (result.Ok? <==>
                  && now.Some?
                  && (area.lease.None? || area.lease.value.machine == machine
                      || area.lease.value.expiresAt <= now.value))
            && (result.Err? ==> after == area && result.reason == if now.None? then ClockRequired else LeaseHeld)
            && (result.Ok? ==>
                  && after == area.(lease := Some(result.value)) && Holds(after, machine, Some(result.value.token))
                  && result.value.expiresAt == now.value + ttl
                  && result.value.token == 1 + if area.lease.Some? then area.lease.value.token else 0)
  {
  }

  /** A release goes through if and only if the lease is the caller's own or missing. */
  lemma ReleaseExactly(area: Area, machine: string)
    ensures var (after, result) := Release(area, machine);
            && (result.Ok? <==> area.lease.None? || area.lease.value.machine == machine)
            && (result.Ok? ==> after == area.(lease := None))
            && (result.Err? ==> after == area && result.reason == LeaseHeld)
  {
  }

  /** A publish is accepted if and only if the base is the current revision, the caller's machine and token are those
      of the lease on file and no path is rejected. On any other base it is refused as stale with the area as it was,
      whoever holds the lease. What it returns is what is then on file. */
  lemma PublishExactly(lib: Imports, area: Area, machine: string, change: Change, base: int, token: Option<int>)
    ensures var (after, result) := Publish(lib, area, machine, change, base, token);
            && (result.Ok? <==>
                  && base == area.index.revision
                  && area.lease.Some? && area.lease.value.machine == machine && token == Some(area.lease.value.token)
                  && (forall file :: file in change.contents ==> lib.contain(file.path).Contained?)
                  && (forall path :: path in change.deletions ==> lib.contain(path).Contained?))
            && (base != area.index.revision ==> result == Err(StaleWriter) && after == area)
            && (base == area.index.revision && !Holds(area, machine, token) ==>
                  result == Err(LeaseHeld) && after == area)
            && (base == area.index.revision && Holds(area, machine, token) && result.Err? ==>
                  result == Err(PathRejected) && after == area.(blobs := after.blobs))
            && (result.Ok? ==> after.index == result.value && result.value.revision == base + 1)
            && after.lease == area.lease
  {
    if FilesContained(lib, change.contents) {
      assert forall file :: file in change.contents ==> lib.contain(file.path).Contained?;
    }
    if PathsContained(lib, change.deletions) {
      assert forall path :: path in change.deletions ==> lib.contain(path).Contained?;
    }
    if forall file :: file in change.contents ==> lib.contain(file.path).Contained? {
      assert forall i :: 0 <= i < |change.contents| ==> change.contents[i] in change.contents;
    }
    if forall path :: path in change.deletions ==> lib.contain(path).Contained? {
      assert forall i :: 0 <= i < |change.deletions| ==> change.deletions[i] in change.deletions;
    }
  }

  /** A rollback goes through if and only if the caller holds the lease; the index then on file is the old one's
      entries and tombstones under the next revision. */
  lemma RollbackExactly(area: Area, previous: Index, machine: string, token: Option<int>)
    ensures var (after, result) := Rollback(area, previous, machine, token);
            && (result.Ok? <==>
                  area.lease.Some? && area.lease.value.machine == machine && token == Some(area.lease.value.token))
            && (result.Err? ==> after == area && result.reason == LeaseHeld)
            && (result.Ok? ==>
                  && after == area.(index := result.value)
                  && result.value == Index(area.index.revision + 1, previous.entries, previous.tombstones))
  {
  }

  /** Nothing later in the change writes or deletes this file's canonical path. */
  predicate LastWordOn(lib: Imports, change: Change, i: nat)
    requires i < |change.contents|
  {
    var p := lib.contain(change.contents[i].path);
    && (forall j :: i < j < |change.contents| ==> lib.contain(change.contents[j].path) != p)
    && (forall j :: 0 <= j < |change.deletions| ==> lib.contain(change.deletions[j]) != p)
  }

  lemma {:induction false} LastFileWins(lib: Imports, contents: seq<File>, i: nat)
    requires i < |contents| && FilesContained(lib, contents)
    requires forall j :: i < j < |contents| ==> lib.contain(contents[j].path) != lib.contain(contents[i].path)
    ensures var p := lib.contain(contents[i].path).path;
            p in CanonicalFiles(lib, contents) && CanonicalFiles(lib, contents)[p] == contents[i].body
    decreases |contents|
  {
    var n := |contents| - 1;
    if i < n {
      LastFileWins(lib, contents[..n], i);
      assert lib.contain(contents[n].path).path != lib.contain(contents[i].path).path;
    }
  }

  /** An accepted publish leaves, for every file that has the last word on its path, an entry of the file's digest and
      length under the writer's name, and no tombstone; all other paths keep what they had. */
  lemma WritesLeaveEntries(lib: Imports, area: Area, machine: string, change: Change, token: Option<int>, i: nat)
    requires i < |change.contents| && LastWordOn(lib, change, i)
    requires Publish(lib, area, machine, change, area.index.revision, token).1.Ok?
    ensures var after := Publish(lib, area, machine, change, area.index.revision, token).0;
            var p, body := lib.contain(change.contents[i].path).path, change.contents[i].body;
            && p in after.index.entries && p !in after.index.tombstones
            && after.index.entries[p] == Entry(lib.sha256(body), |body|, machine)
  {
    LastFileWins(lib, change.contents, i);
    CanonicalPathKeys(lib, change.deletions, lib.contain(change.contents[i].path).path);
  }

  lemma OtherPathsStay(lib: Imports, area: Area, machine: string, change: Change, token: Option<int>, p: string)
    requires forall j :: 0 <= j < |change.contents| ==> lib.contain(change.contents[j].path) != Contained(p)
    requires forall j :: 0 <= j < |change.deletions| ==> lib.contain(change.deletions[j]) != Contained(p)
    ensures var after := Publish(lib, area, machine, change, area.index.revision, token).0;
            && (p in after.index.entries <==> p in area.index.entries)
            && (p in after.index.entries ==> after.index.entries[p] == area.index.entries[p])
            && (p in after.index.tombstones <==> p in area.index.tombstones)
            && (p in after.index.tombstones ==> after.index.tombstones[p] == area.index.tombstones[p])
  {
    if FilesContained(lib, change.contents) && PathsContained(lib, change.deletions) {
      CanonicalFileKeys(lib, change.contents, p);
      CanonicalPathKeys(lib, change.deletions, p);
    }
  }

  /** Storing keeps every blob on file as it was. */
  lemma {:induction false} StoredKeeps(lib: Imports, blobs: map<string, Bytes>, contents: seq<File>, digest: string)
    requires digest in blobs
    ensures digest in Stored(lib, blobs, contents) && Stored(lib, blobs, contents)[digest] == blobs[digest]
  {
    if contents != [] {
      StoredKeeps(lib, blobs, contents[..|contents| - 1], digest);
    }
  }

  /** The live files are the queued ones without a tombstone, each once and in order. */
  lemma {:induction false} LiveByPosition(contents: seq<File>, tombstones: map<string, Tombstone>)
    returns (at: seq<nat>)
    ensures Picks(at, |contents|, (i: nat) => i < |contents| && contents[i].path !in tombstones)
    ensures |Live(contents, tombstones)| == |at|
    ensures forall j :: 0 <= j < |at| ==> at[j] < |contents| && Live(contents, tombstones)[j] == contents[at[j]]
  {
    at := [];
    if contents != [] {
      var n := |contents| - 1;
      at := LiveByPosition(contents[..n], tombstones);
      if contents[n].path !in tombstones {
        at := at + [n];
      }
    }
  }

  // ---- Stale writers, over whole runs ----

  function RevisionAt(w: World, key: string): nat {
    AreaAt(w.areas, key).index.revision
  }

  /** The index of the key is untouched, or has a higher revision. */
  predicate Advanced(w: World, w': World, key: string) {
    AreaAt(w'.areas, key).index == AreaAt(w.areas, key).index || RevisionAt(w, key) < RevisionAt(w', key)
  }

  lemma PublishAdvances(lib: Imports, w: World, key: string, machine: string, change: Change, base: int,
                        token: Option<int>, other: string)
    ensures Advanced(w, StepPublish(lib, w, key, machine, change, base, token), other)
  {
    PublishExactly(lib, AreaAt(w.areas, key), machine, change, base, token);
  }

  lemma {:induction false} DrainAdvances(lib: Imports, w: World, queue: seq<Item>, machine: string, token: Option<int>,
                                         key: string)
    ensures Advanced(w, StepDrain(lib, w, queue, machine, token), key)
  {
    if queue != [] {
      var n := |queue| - 1;
      var before, item := StepDrain(lib, w, queue[..n], machine, token), queue[n];
      DrainAdvances(lib, w, queue[..n], machine, token, key);
      var index := AreaAt(before.areas, item.key).index;
      var live := Live(item.change.contents, index.tombstones);
      PublishAdvances(lib, before, item.key, machine, Change(live, item.change.deletions), index.revision, token, key);
    }
  }

  lemma StepAdvances(lib: Imports, w: World, op: Op, key: string)
    ensures Advanced(w, Step(lib, w, op), key)
  {
    match op
    case PublishOp(k, machine, change, base, token) => PublishAdvances(lib, w, k, machine, change, base, token, key);
    case DrainOp(machine, queue, token) => DrainAdvances(lib, w, queue, machine, token, key);
    case RollbackOp(k, machine, previous, token) => RollbackExactly(AreaAt(w.areas, k), previous, machine, token);
    case _ =>
  }

  lemma {:induction false} RunAdvances(lib: Imports, w: World, ops: seq<Op>, key: string)
    ensures Advanced(w, Run(lib, w, ops), key)
    decreases |ops|
  {
    if ops != [] {
      StepAdvances(lib, w, ops[0], key);
      RunAdvances(lib, Step(lib, w, ops[0]), ops[1..], key);
    }
  }

  /** Once anything at all has been committed on a key, by publish, rollback or drain, a publish on the revision from
      before is refused as stale, whoever makes it and with whatever lease, and the area stays as it is. */
  lemma StaleWriterIsRefused(lib: Imports, w: World, ops: seq<Op>, key: string, machine: string, change: Change,
                             token: Option<int>)
    requires AreaAt(Run(lib, w, ops).areas, key).index != AreaAt(w.areas, key).index
    ensures var area := AreaAt(Run(lib, w, ops).areas, key);
            Publish(lib, area, machine, change, RevisionAt(w, key), token) == (area, Err(StaleWriter))
  {
    RunAdvances(lib, w, ops, key);
    PublishExactly(lib, AreaAt(Run(lib, w, ops).areas, key), machine, change, RevisionAt(w, key), token);
  }

  /** This publish is accepted. */
  predicate Accepted(lib: Imports, w: World, op: Op, key: string) {
    && op.PublishOp? && op.key == key
    && Publish(lib, AreaAt(w.areas, key), op.machine, op.change, op.base, op.token).1.Ok?
  }

  /** No two accepted publishes on a key have the same base revision: bases strictly increase, whatever lies between. */
  lemma BasesIncrease(lib: Imports, w: World, first: Op, ops: seq<Op>, second: Op, key: string)
    requires Accepted(lib, w, first, key)
    requires Accepted(lib, Run(lib, Step(lib, w, first), ops), second, key)
    ensures first.base < second.base
  {
    var w1 := Step(lib, w, first);
    var w2 := Run(lib, w1, ops);
    PublishExactly(lib, AreaAt(w.areas, key), first.machine, first.change, first.base, first.token);
    assert RevisionAt(w1, key) == first.base + 1;
    RunAdvances(lib, w1, ops, key);
    PublishExactly(lib, AreaAt(w2.areas, key), second.machine, second.change, second.base, second.token);
  }
}
