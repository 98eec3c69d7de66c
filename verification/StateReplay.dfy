/** What draining a replay queue does to any store, and when it can lift a tombstone. */
module StateReplay {
  import opened Basics
  import opened ContainedPath
  import opened StateRoot
  import opened StateHistory

  // ---- The fate of each item ----

  /** The store as the i-th item of the queue finds it. */
  function StoreBefore(lib: Imports, areas: Areas, queue: seq<Item>, machine: string, token: Option<int>, i: nat)
    : Areas
    requires i <= |queue|
  {
    Drain(lib, areas, queue[..i], machine, token).0
  }

  function LiveAt(areas: Areas, item: Item): seq<File> {
    Live(item.change.contents, AreaAt(areas, item.key).index.tombstones)
  }

  predicate ItemContained(lib: Imports, areas: Areas, item: Item) {
    FilesContained(lib, LiveAt(areas, item)) && PathsContained(lib, item.change.deletions)
  }

  lemma {:induction false} DrainKeepsLease(lib: Imports, areas: Areas, queue: seq<Item>, machine: string,
                                           token: Option<int>, key: string)
    ensures AreaAt(Drain(lib, areas, queue, machine, token).0, key).lease == AreaAt(areas, key).lease
  {
    if queue != [] {
      DrainKeepsLease(lib, areas, queue[..|queue| - 1], machine, token, key);
    }
  }

  lemma {:induction false} VerdictAt(lib: Imports, areas: Areas, queue: seq<Item>, machine: string,
                                     token: Option<int>, i: nat)
    requires i < |queue|
    ensures Drain(lib, areas, queue, machine, token).1[i] ==
            DrainItem(lib, StoreBefore(lib, areas, queue, machine, token, i), queue[i], machine, token).1
  {
    var n := |queue| - 1;
    if i < n {
      VerdictAt(lib, areas, queue[..n], machine, token, i);
      assert queue[..n][..i] == queue[..i];
    }
  }

  /** Dropped: nothing live and nothing to delete. Remaining: work to do, but the caller's lease is not
      current for the key or a path is rejected. Applied: everything else. */
  lemma FateOfAnItem(lib: Imports, areas: Areas, queue: seq<Item>, machine: string, token: Option<int>, i: nat)
    requires i < |queue|
    ensures var before := StoreBefore(lib, areas, queue, machine, token, i);
            var verdict := Drain(lib, areas, queue, machine, token).1[i];
            var idle := LiveAt(before, queue[i]) == [] && queue[i].change.deletions == [];
            var current := Holds(AreaAt(areas, queue[i].key), machine, token);
            && (verdict == Dropped <==> idle)
            && (verdict == Remaining <==> !idle && !(current && ItemContained(lib, before, queue[i])))
            && (verdict == Applied <==> !idle && current && ItemContained(lib, before, queue[i]))
  {
    VerdictAt(lib, areas, queue, machine, token, i);
    DrainKeepsLease(lib, areas, queue[..i], machine, token, queue[i].key);
  }

  /** With a current lease for every queued key, nothing remains exactly if every item, as the drain finds it, has no
      work left or no rejected path. */
  lemma NothingRemainsExactly(lib: Imports, areas: Areas, queue: seq<Item>, machine: string, token: Option<int>)
    requires forall i :: 0 <= i < |queue| ==> Holds(AreaAt(areas, queue[i].key), machine, token)
    ensures Select(queue, Drain(lib, areas, queue, machine, token).1, Remaining) == [] <==>
            forall i :: 0 <= i < |queue| ==>
              var before := StoreBefore(lib, areas, queue, machine, token, i);
              || (LiveAt(before, queue[i]) == [] && queue[i].change.deletions == [])
              || ItemContained(lib, before, queue[i])
  {
    var verdicts := Drain(lib, areas, queue, machine, token).1;
    forall i | 0 <= i < |queue|
      ensures var before := StoreBefore(lib, areas, queue, machine, token, i);
              verdicts[i] != Remaining <==>
                || (LiveAt(before, queue[i]) == [] && queue[i].change.deletions == [])
                || ItemContained(lib, before, queue[i])
    {
      FateOfAnItem(lib, areas, queue, machine, token, i);
    }
    SelectKeepsOrder(queue, verdicts, Remaining);
    if Select(queue, verdicts, Remaining) == [] {
      assert forall i :: 0 <= i < |queue| ==> i !in Positions(verdicts, Remaining);
    } else if forall i :: 0 <= i < |queue| ==> verdicts[i] != Remaining {
      SelectNone(queue, verdicts, Remaining);
    }
  }

  /** In particular if no queued path is rejected. */
  lemma NothingRemains(lib: Imports, areas: Areas, queue: seq<Item>, machine: string, token: Option<int>)
    requires forall i :: 0 <= i < |queue| ==> Holds(AreaAt(areas, queue[i].key), machine, token)
    requires forall i :: 0 <= i < |queue| ==>
               FilesContained(lib, queue[i].change.contents) && PathsContained(lib, queue[i].change.deletions)
    ensures Remaining !in Drain(lib, areas, queue, machine, token).1
    ensures Select(queue, Drain(lib, areas, queue, machine, token).1, Remaining) == []
  {
    forall i | 0 <= i < |queue| ensures Drain(lib, areas, queue, machine, token).1[i] != Remaining {
      FateOfAnItem(lib, areas, queue, machine, token, i);
      LiveIsSelection(queue[i].change.contents,
                      AreaAt(StoreBefore(lib, areas, queue, machine, token, i), queue[i].key).index.tombstones);
    }
    SelectNone(queue, Drain(lib, areas, queue, machine, token).1, Remaining);
  }

  /** With a lease that is current for no queued key, the store is untouched. */
  lemma {:induction false} FencedDrainIsIdle(lib: Imports, areas: Areas, queue: seq<Item>, machine: string,
                                             token: Option<int>, key: string)
    requires forall i :: 0 <= i < |queue| ==> !Holds(AreaAt(areas, queue[i].key), machine, token)
    ensures AreaAt(Drain(lib, areas, queue, machine, token).0, key) == AreaAt(areas, key)
  {
    if queue != [] {
      var n := |queue| - 1;
      FencedDrainIsIdle(lib, areas, queue[..n], machine, token, key);
      DrainKeepsLease(lib, areas, queue[..n], machine, token, queue[n].key);
    }
  }

  // ---- Order ----

  /** Where the items of one fate sit in the queue. */
  function Positions(verdicts: seq<Verdict>, verdict: Verdict): seq<nat> {
    if verdicts == [] then []
    else
      var n := |verdicts| - 1;
      Positions(verdicts[..n], verdict) + if verdicts[n] == verdict then [n] else []
  }

  /** Each list is the queue read at increasing positions, and the positions are exactly those of the fate:
      the three lists split the queue in order. */
  lemma {:induction false} SelectKeepsOrder(queue: seq<Item>, verdicts: seq<Verdict>, verdict: Verdict)
    requires |queue| == |verdicts|
    ensures var at := Positions(verdicts, verdict);
            && |Select(queue, verdicts, verdict)| == |at|
            && (forall j :: 0 <= j < |at| ==> at[j] < |queue| && Select(queue, verdicts, verdict)[j] == queue[at[j]])
            && (forall j, k :: 0 <= j < k < |at| ==> at[j] < at[k])
            && (forall i :: 0 <= i < |queue| ==> (i in at <==> verdicts[i] == verdict))
  {
    if queue != [] {
      var n := |queue| - 1;
      SelectKeepsOrder(queue[..n], verdicts[..n], verdict);
    }
  }

  lemma {:induction false} SelectNone(queue: seq<Item>, verdicts: seq<Verdict>, verdict: Verdict)
    requires |queue| == |verdicts| && verdict !in verdicts
    ensures Select(queue, verdicts, verdict) == []
  {
    if queue != [] {
      var n := |queue| - 1;
      SelectNone(queue[..n], verdicts[..n], verdict);
    }
  }

  // ---- Tombstones ----

  function Tombs(areas: Areas, key: string): set<string> {
    AreaAt(areas, key).index.tombstones.Keys
  }

  /** Every queued file is spelled the way the gate spells it, or deleted again by the same item. */
  predicate SpelledCanonically(lib: Imports, change: Change) {
    forall i :: 0 <= i < |change.contents| ==>
      var path := change.contents[i].path;
      lib.contain(path).Contained? ==> lib.contain(path).path == path || DeletesIt(lib, change, path)
  }

  /** The item also deletes the canonical path behind `path`. */
  predicate DeletesIt(lib: Imports, change: Change, path: string) {
    exists j :: 0 <= j < |change.deletions| && lib.contain(change.deletions[j]) == lib.contain(path)
  }

  lemma {:induction false} LiveIsSelection(contents: seq<File>, tombstones: map<string, Tombstone>)
    ensures forall file :: file in Live(contents, tombstones) <==> file in contents && file.path !in tombstones
  {
    if contents != [] {
      var n := |contents| - 1;
      LiveIsSelection(contents[..n], tombstones);
      assert contents == contents[..n] + [contents[n]];
    }
  }

  lemma {:induction false} CanonicalFileKeys(lib: Imports, contents: seq<File>, p: string)
    requires FilesContained(lib, contents)
    ensures p in CanonicalFiles(lib, contents) <==>
            exists i :: 0 <= i < |contents| && lib.contain(contents[i].path) == Contained(p)
  {
    if contents != [] {
      var n := |contents| - 1;
      CanonicalFileKeys(lib, contents[..n], p);
      if p in CanonicalFiles(lib, contents[..n]) {
        var i :| 0 <= i < n && lib.contain(contents[..n][i].path) == Contained(p);
        assert lib.contain(contents[i].path) == Contained(p);
      }
      if i :| 0 <= i < |contents| && lib.contain(contents[i].path) == Contained(p) {
        if i < n {
          assert lib.contain(contents[..n][i].path) == Contained(p);
        }
      }
    }
  }

  lemma {:induction false} CanonicalPathKeys(lib: Imports, paths: seq<string>, p: string)
    requires PathsContained(lib, paths)
    ensures p in CanonicalPaths(lib, paths) <==>
            exists i :: 0 <= i < |paths| && lib.contain(paths[i]) == Contained(p)
  {
    if paths != [] {
      var n := |paths| - 1;
      CanonicalPathKeys(lib, paths[..n], p);
      if p in CanonicalPaths(lib, paths[..n]) {
        var i :| 0 <= i < n && lib.contain(paths[..n][i]) == Contained(p);
        assert lib.contain(paths[i]) == Contained(p);
      }
      if i :| 0 <= i < |paths| && lib.contain(paths[i]) == Contained(p) {
        if i < n {
          assert lib.contain(paths[..n][i]) == Contained(p);
        }
      }
    }
  }

  /** What keeps an item from lifting a tombstone: its spelling, or a deletion that the gate rejects, with which
      nothing of the item is ever committed. */
  predicate Keeps(lib: Imports, change: Change) {
    SpelledCanonically(lib, change) || !PathsContained(lib, change.deletions)
  }

  /** A drained item of that kind lifts no tombstone of any key. */
  lemma CanonicalItemKeepsTombstones(lib: Imports, areas: Areas, item: Item, machine: string, token: Option<int>,
                                     key: string)
    requires Keeps(lib, item.change)
    ensures Tombs(areas, key) <= Tombs(DrainItem(lib, areas, item, machine, token).0, key)
  {
    var index := AreaAt(areas, item.key).index;
    var live := LiveAt(areas, item);
    var change := Change(live, item.change.deletions);
    LiveIsSelection(item.change.contents, index.tombstones);
    if key == item.key && DrainItem(lib, areas, item, machine, token).1 == Applied {
      forall p | p in index.tombstones ensures p in Published(lib, index, machine, change).tombstones {
        CanonicalFileKeys(lib, live, p);
        CanonicalPathKeys(lib, item.change.deletions, p);
        if p in CanonicalFiles(lib, live) {
          var i :| 0 <= i < |live| && lib.contain(live[i].path) == Contained(p);
          assert live[i] in item.change.contents && live[i].path != p;
          assert DeletesIt(lib, item.change, live[i].path);
        }
      }
    }
  }

  /** Draining a queue of such items only ever adds tombstones, for every key. */
  lemma {:induction false} TombstonesOnlyGrow(lib: Imports, areas: Areas, queue: seq<Item>, machine: string,
                                              token: Option<int>, key: string)
    requires forall i :: 0 <= i < |queue| ==> Keeps(lib, queue[i].change)
    ensures Tombs(areas, key) <= Tombs(Drain(lib, areas, queue, machine, token).0, key)
  {
    if queue != [] {
      var n := |queue| - 1;
      TombstonesOnlyGrow(lib, areas, queue[..n], machine, token, key);
      CanonicalItemKeepsTombstones(lib, Drain(lib, areas, queue[..n], machine, token).0, queue[n], machine, token, key);
    }
  }

  /** A file that is spelled otherwise than the gate spells it, and whose canonical path the item does not delete. */
  predicate SpelledOtherwise(lib: Imports, change: Change, file: File) {
    && file in change.contents && lib.contain(file.path).Contained?
    && lib.contain(file.path).path != file.path && !DeletesIt(lib, change, file.path)
  }

  /** No rejected path of the item stops it: each has a tombstone of its own, so that the drain leaves it out. */
  predicate RejectedAreBuried(lib: Imports, change: Change, tombstones: map<string, Tombstone>) {
    forall file :: file in change.contents && lib.contain(file.path).Rejected? ==> file.path in tombstones
  }

  /** Then the drain publishes the file and lifts the tombstone of its canonical path. */
  lemma OtherSpellingLifts(lib: Imports, areas: Areas, item: Item, machine: string, token: Option<int>, file: File)
    requires SpelledOtherwise(lib, item.change, file) && PathsContained(lib, item.change.deletions)
    requires Holds(AreaAt(areas, item.key), machine, token)
    requires RejectedAreBuried(lib, item.change, AreaAt(areas, item.key).index.tombstones)
    requires file.path !in Tombs(areas, item.key)
    ensures lib.contain(file.path).path !in Tombs(DrainItem(lib, areas, item, machine, token).0, item.key)
  {
    var area := AreaAt(areas, item.key);
    var live, p := LiveAt(areas, item), lib.contain(file.path).path;
    LiveIsSelection(item.change.contents, area.index.tombstones);
    forall j | 0 <= j < |live| ensures lib.contain(live[j].path).Contained? {
      assert live[j] in live;
    }
    assert file in live;
    var k :| 0 <= k < |live| && live[k] == file;
    assert lib.contain(live[k].path) == Contained(p);
    CanonicalFileKeys(lib, live, p);
    CanonicalPathKeys(lib, item.change.deletions, p);
    PublishLifts(lib, area, Change(live, item.change.deletions), machine, token, p);
  }

  /** An accepted publish that writes `p` and does not delete it leaves no tombstone of `p`. */
  lemma PublishLifts(lib: Imports, area: Area, change: Change, machine: string, token: Option<int>, p: string)
    requires Holds(area, machine, token)
    requires FilesContained(lib, change.contents) && PathsContained(lib, change.deletions)
    requires p in CanonicalFiles(lib, change.contents) && p !in CanonicalPaths(lib, change.deletions)
    ensures p !in Publish(lib, area, machine, change, area.index.revision, token).0.index.tombstones
  {
  }

  lemma NotKept(lib: Imports, change: Change) returns (file: File)
    requires !SpelledCanonically(lib, change)
    ensures SpelledOtherwise(lib, change, file)
  {
    var i :| 0 <= i < |change.contents| &&
             lib.contain(change.contents[i].path).Contained? &&
             lib.contain(change.contents[i].path).path != change.contents[i].path &&
             !DeletesIt(lib, change, change.contents[i].path);
    file := change.contents[i];
  }

  lemma OneFilePublished(lib: Imports, area: Area, change: Change, machine: string, token: Option<int>, p: string)
    requires |change.contents| == 1 && change.deletions == [] && Holds(area, machine, token)
    requires lib.contain(change.contents[0].path) == Contained(p)
    ensures var (after, result) := Publish(lib, area, machine, change, area.index.revision, token);
            result.Ok? && p !in after.index.tombstones && p in after.index.entries
  {
    CanonicalFileKeys(lib, change.contents, p);
  }

  /** Replaying one write under another spelling of the deleted `p` brings `p` back. */
  lemma OtherSpellingResurrects(lib: Imports, area: Area, item: Item, machine: string, token: Option<int>, p: string)
    requires |item.change.contents| == 1 && item.change.deletions == [] && Holds(area, machine, token)
    requires lib.contain(item.change.contents[0].path) == Contained(p)
    requires p in area.index.tombstones && item.change.contents[0].path !in area.index.tombstones
    ensures var (after, verdict) := DrainItem(lib, map[item.key := area], item, machine, token);
            verdict == Applied && p !in Tombs(after, item.key) && p in AreaAt(after, item.key).index.entries
  {
    var contents := item.change.contents;
    assert contents[..0] == [];
    assert Live(contents, area.index.tombstones) == contents;
    OneFilePublished(lib, area, item.change, machine, token, p);
  }

  /** With the real gate every canonical path has such a spelling: `./` in front. */
  lemma DottedReplayResurrects(lib: Imports, area: Area, item: Item, machine: string, token: Option<int>, p: string)
    requires forall value :: lib.contain(value) == Contain(value)
    requires NormalForm(p) && p in area.index.tombstones && "./" + p !in area.index.tombstones
    requires |item.change.contents| == 1 && item.change.contents[0].path == "./" + p && item.change.deletions == []
    requires Holds(area, machine, token)
    ensures p !in Tombs(DrainItem(lib, map[item.key := area], item, machine, token).0, item.key)
  {
    DottedSpelling(p);
    OtherSpellingResurrects(lib, area, item, machine, token, p);
  }

  /** A write to a path that the gate rejects stays in the queue under any lease, unless that very spelling has a
      tombstone. */
  lemma RejectedItemRemains(lib: Imports, area: Area, item: Item, machine: string, token: Option<int>)
    requires |item.change.contents| == 1 && lib.contain(item.change.contents[0].path).Rejected?
    requires item.change.contents[0].path !in area.index.tombstones
    ensures DrainItem(lib, map[item.key := area], item, machine, token).1 == Remaining
  {
    var contents := item.change.contents;
    assert contents[..0] == [];
    assert Live(contents, area.index.tombstones) == contents;
  }

  // ---- Publishing forgets no path ----

  predicate NoRollback(ops: seq<Op>) {
    forall i :: 0 <= i < |ops| ==> !ops[i].RollbackOp?
  }

  function Known(w: World, key: string): set<string> {
    var index := AreaAt(w.areas, key).index;
    index.entries.Keys + index.tombstones.Keys
  }

  lemma {:induction false} DrainForgetsNothing(lib: Imports, w: World, queue: seq<Item>, machine: string,
                                               token: Option<int>, key: string)
    ensures Known(w, key) <= Known(StepDrain(lib, w, queue, machine, token), key)
  {
    if queue != [] {
      var n := |queue| - 1;
      DrainForgetsNothing(lib, w, queue[..n], machine, token, key);
      var before := StepDrain(lib, w, queue[..n], machine, token);
      assert Known(before, key) <= Known(StepDrainItem(lib, before, queue[n], machine, token), key);
    }
  }

  /** No silent absence: in a run without rollbacks, a path that was ever an entry or a tombstone of a key
      stays one or the other. */
  lemma {:induction false} NoSilentAbsence(lib: Imports, w: World, ops: seq<Op>, key: string)
    requires NoRollback(ops)
    ensures Known(w, key) <= Known(Run(lib, w, ops), key)
    decreases |ops|
  {
    if ops != [] {
      if ops[0].DrainOp? {
        DrainForgetsNothing(lib, w, ops[0].queue, ops[0].machine, ops[0].token, key);
      }
      assert Known(w, key) <= Known(Step(lib, w, ops[0]), key);
      NoSilentAbsence(lib, Step(lib, w, ops[0]), ops[1..], key);
    }
  }

  /** A publish that deletes leaves exactly its own mark on each deleted path. */
  lemma DeletionsLeaveTombstones(lib: Imports, area: Area, machine: string, change: Change, token: Option<int>, j: nat)
    requires FilesContained(lib, change.contents) && PathsContained(lib, change.deletions)
    requires Holds(area, machine, token) && j < |change.deletions|
    ensures var (after, result) := Publish(lib, area, machine, change, area.index.revision, token);
            var p := lib.contain(change.deletions[j]).path;
            && result.Ok? && p !in after.index.entries && p in after.index.tombstones
            && after.index.tombstones[p] == Tombstone(machine, area.index.revision + 1)
  {
    var p := lib.contain(change.deletions[j]).path;
    CanonicalPathKeys(lib, change.deletions, p);
    assert lib.contain(change.deletions[j]) == Contained(p);
  }
}
