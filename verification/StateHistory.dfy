/** Whole runs of the canonical state root: any machines, any operations, any number of keys.
    A ghost history records, for each key, every index ever committed together with the files
    it stands for, computed from what the writers published and never from the blob store. */
module StateHistory {
  import opened Basics
  import opened ContainedPath
  import opened StateRoot

  datatype Commit = Commit(index: Index, files: map<string, Bytes>)
  datatype World = World(areas: Areas, commits: map<string, seq<Commit>>)

  const FIRST := Commit(EMPTY_INDEX, map[])
  const EMPTY_WORLD := World(map[], map[])

  datatype Op =
    | AcquireOp(key: string, machine: string, now: Option<int>, ttl: int)
    | ReleaseOp(key: string, machine: string)
    | PublishOp(key: string, machine: string, change: Change, base: int, token: Option<int>)
    | RollbackOp(key: string, machine: string, previous: Index, token: Option<int>)
    | DrainOp(machine: string, queue: seq<Item>, token: Option<int>)

  function CommitsAt(w: World, key: string): seq<Commit> {
    if key in w.commits then w.commits[key] else [FIRST]
  }

  function LatestFiles(w: World, key: string): map<string, Bytes> {
    var commits := CommitsAt(w, key);
    if commits == [] then map[] else commits[|commits| - 1].files
  }

  /** `previous` was read from this key's index file at some time in the past. */
  predicate WasCommitted(w: World, key: string, previous: Index) {
    var commits := CommitsAt(w, key);
    previous.revision < |commits| && commits[previous.revision].index == previous
  }

  /** The files after a change: contents first, then deletions. */
  function Overlay(lib: Imports, files: map<string, Bytes>, change: Change): map<string, Bytes>
    requires FilesContained(lib, change.contents) && PathsContained(lib, change.deletions)
  {
    (files + CanonicalFiles(lib, change.contents)) - CanonicalPaths(lib, change.deletions)
  }

  function Record(w: World, key: string, area: Area, files: map<string, Bytes>): World {
    World(w.areas[key := area], w.commits[key := CommitsAt(w, key) + [Commit(area.index, files)]])
  }

  function StepPublish(lib: Imports, w: World, key: string, machine: string, change: Change, base: int,
                       token: Option<int>): World
  {
    var (after, result) := Publish(lib, AreaAt(w.areas, key), machine, change, base, token);
    if result.Ok? then Record(w, key, after, Overlay(lib, LatestFiles(w, key), change))
    else World(w.areas[key := after], w.commits)
  }

  function StepRollback(w: World, key: string, previous: Index, machine: string, token: Option<int>): World {
    var (after, result) := Rollback(AreaAt(w.areas, key), previous, machine, token);
    if result.Ok? && WasCommitted(w, key, previous) then
      Record(w, key, after, CommitsAt(w, key)[previous.revision].files)
    else World(w.areas[key := after], w.commits)
  }

  function StepDrainItem(lib: Imports, w: World, item: Item, machine: string, token: Option<int>): World {
    var index := AreaAt(w.areas, item.key).index;
    var live := Live(item.change.contents, index.tombstones);
    if live == [] && item.change.deletions == [] then w
    else StepPublish(lib, w, item.key, machine, Change(live, item.change.deletions), index.revision, token)
  }

  function StepDrain(lib: Imports, w: World, queue: seq<Item>, machine: string, token: Option<int>): World {
    if queue == [] then w
    else
      StepDrainItem(lib, StepDrain(lib, w, queue[..|queue| - 1], machine, token), queue[|queue| - 1], machine, token)
  }

  function Step(lib: Imports, w: World, op: Op): World {
    match op
    case AcquireOp(key, machine, now, ttl) =>
      World(w.areas[key := Acquire(AreaAt(w.areas, key), machine, now, ttl).0], w.commits)
    case ReleaseOp(key, machine) =>
      World(w.areas[key := Release(AreaAt(w.areas, key), machine).0], w.commits)
    case PublishOp(key, machine, change, base, token) => StepPublish(lib, w, key, machine, change, base, token)
    case RollbackOp(key, machine, previous, token) => StepRollback(w, key, previous, machine, token)
    case DrainOp(machine, queue, token) => StepDrain(lib, w, queue, machine, token)
  }

  function Run(lib: Imports, w: World, ops: seq<Op>): World
    decreases |ops|
  {
    if ops == [] then w else Run(lib, Step(lib, w, ops[0]), ops[1..])
  }

  /** The history is only an annotation: the store component of a step is the operation itself. */
  lemma {:induction false} DrainErases(lib: Imports, w: World, queue: seq<Item>, machine: string, token: Option<int>)
    ensures StepDrain(lib, w, queue, machine, token).areas == Drain(lib, w.areas, queue, machine, token).0
  {
    if queue != [] {
      DrainErases(lib, w, queue[..|queue| - 1], machine, token);
    }
  }

  /** The one thing asked of callers: roll back only to an index that was once current. */
  predicate Legal(w: World, op: Op) {
    op.RollbackOp? ==> WasCommitted(w, op.key, op.previous)
  }

  predicate LegalRun(lib: Imports, w: World, ops: seq<Op>)
    decreases |ops|
  {
    ops == [] || (Legal(w, ops[0]) && LegalRun(lib, Step(lib, w, ops[0]), ops[1..]))
  }

  // ---- The bodies that enter a run ----

  ghost predicate FilesWithin(contents: seq<File>, bodies: iset<Bytes>) {
    forall i :: 0 <= i < |contents| ==> contents[i].body in bodies
  }

  ghost predicate Within(op: Op, bodies: iset<Bytes>) {
    match op
    case PublishOp(_, _, change, _, _) => FilesWithin(change.contents, bodies)
    case DrainOp(_, queue, _) => forall i :: 0 <= i < |queue| ==> FilesWithin(queue[i].change.contents, bodies)
    case _ => true
  }

  ghost predicate RunWithin(ops: seq<Op>, bodies: iset<Bytes>) {
    forall i :: 0 <= i < |ops| ==> Within(ops[i], bodies)
  }

  /** SHA-256 does not collide on these bodies. */
  ghost predicate CollisionFree(lib: Imports, bodies: iset<Bytes>) {
    forall a, b :: a in bodies && b in bodies && lib.sha256(a) == lib.sha256(b) ==> a == b
  }

  // ---- The invariant ----

  ghost predicate IsCanonical(lib: Imports, p: string) {
    exists value :: lib.contain(value) == Contained(p)
  }

  ghost predicate Sound(lib: Imports, bodies: iset<Bytes>, blobs: map<string, Bytes>, c: Commit) {
    && c.index.entries.Keys == c.files.Keys
    && c.index.entries.Keys !! c.index.tombstones.Keys
    && (forall p :: p in c.index.tombstones ==> c.index.tombstones[p].revision <= c.index.revision)
    && (forall p :: p in c.index.entries.Keys + c.index.tombstones.Keys ==> IsCanonical(lib, p))
    && (forall p :: p in c.files ==>
          && c.files[p] in bodies
          && c.index.entries[p].sha256 == lib.sha256(c.files[p])
          && c.index.entries[p].bytes == |c.files[p]|
          && lib.sha256(c.files[p]) in blobs)
  }

  ghost predicate BlobsSound(lib: Imports, bodies: iset<Bytes>, blobs: map<string, Bytes>) {
    forall digest :: digest in blobs ==> lib.sha256(blobs[digest]) == digest && blobs[digest] in bodies
  }

  /** Commit i has revision i, the last one is the current index, and every one is sound. */
  ghost predicate AreaInv(lib: Imports, bodies: iset<Bytes>, area: Area, commits: seq<Commit>) {
    && commits != [] && commits[0] == FIRST
    && commits[|commits| - 1].index == area.index
    && (forall i :: 0 <= i < |commits| ==> commits[i].index.revision == i)
    && (forall i :: 0 <= i < |commits| ==> Sound(lib, bodies, area.blobs, commits[i]))
    && BlobsSound(lib, bodies, area.blobs)
  }

  ghost predicate Inv(lib: Imports, bodies: iset<Bytes>, w: World) {
    forall key :: AreaInv(lib, bodies, AreaAt(w.areas, key), CommitsAt(w, key))
  }

  // ---- What publishing adds ----

  lemma {:induction false} StoredSound(lib: Imports, bodies: iset<Bytes>, blobs: map<string, Bytes>,
                                       contents: seq<File>)
    requires BlobsSound(lib, bodies, blobs) && FilesWithin(contents, bodies)
    ensures BlobsSound(lib, bodies, Stored(lib, blobs, contents))
    ensures blobs.Keys <= Stored(lib, blobs, contents).Keys
    ensures forall i :: 0 <= i < |contents| ==> lib.sha256(contents[i].body) in Stored(lib, blobs, contents)
  {
    if contents != [] {
      StoredSound(lib, bodies, blobs, contents[..|contents| - 1]);
    }
  }

  lemma {:induction false} CanonicalFilesOrigin(lib: Imports, contents: seq<File>, p: string)
    requires FilesContained(lib, contents) && p in CanonicalFiles(lib, contents)
    ensures IsCanonical(lib, p)
    ensures exists i :: 0 <= i < |contents| && contents[i].body == CanonicalFiles(lib, contents)[p]
  {
    var n := |contents| - 1;
    var last := contents[n];
    if lib.contain(last.path).path != p {
      CanonicalFilesOrigin(lib, contents[..n], p);
      var i :| 0 <= i < n && contents[..n][i].body == CanonicalFiles(lib, contents[..n])[p];
      assert contents[i].body == CanonicalFiles(lib, contents)[p];
    } else {
      assert lib.contain(last.path) == Contained(p);
      assert contents[n].body == CanonicalFiles(lib, contents)[p];
    }
  }

  lemma {:induction false} CanonicalPathsOrigin(lib: Imports, paths: seq<string>, p: string)
    requires PathsContained(lib, paths) && p in CanonicalPaths(lib, paths)
    ensures IsCanonical(lib, p)
  {
    var n := |paths| - 1;
    if lib.contain(paths[n]).path == p {
      assert lib.contain(paths[n]) == Contained(p);
    } else {
      CanonicalPathsOrigin(lib, paths[..n], p);
    }
  }

  lemma SoundWithMoreBlobs(lib: Imports, bodies: iset<Bytes>, blobs: map<string, Bytes>, more: map<string, Bytes>,
                           c: Commit)
    requires Sound(lib, bodies, blobs, c) && blobs.Keys <= more.Keys
    ensures Sound(lib, bodies, more, c)
  {
  }

  lemma PublishedSound(lib: Imports, bodies: iset<Bytes>, blobs: map<string, Bytes>, c: Commit, machine: string,
                       change: Change)
    requires Sound(lib, bodies, blobs, c) && BlobsSound(lib, bodies, blobs)
    requires FilesContained(lib, change.contents) && PathsContained(lib, change.deletions)
    requires FilesWithin(change.contents, bodies)
    ensures Sound(lib, bodies, Stored(lib, blobs, change.contents),
                  Commit(Published(lib, c.index, machine, change), Overlay(lib, c.files, change)))
  {
    var stored := Stored(lib, blobs, change.contents);
    var next := Commit(Published(lib, c.index, machine, change), Overlay(lib, c.files, change));
    var files := CanonicalFiles(lib, change.contents);
    StoredSound(lib, bodies, blobs, change.contents);
    forall p | p in next.index.entries.Keys + next.index.tombstones.Keys ensures IsCanonical(lib, p) {
      if p in files {
        CanonicalFilesOrigin(lib, change.contents, p);
      } else if p in CanonicalPaths(lib, change.deletions) {
        CanonicalPathsOrigin(lib, change.deletions, p);
      } else {
        assert p in c.index.entries.Keys + c.index.tombstones.Keys;
      }
    }
    forall p | p in next.files
      ensures next.files[p] in bodies
      ensures next.index.entries[p].sha256 == lib.sha256(next.files[p])
      ensures next.index.entries[p].bytes == |next.files[p]|
      ensures lib.sha256(next.files[p]) in stored
    {
      if p in files {
        CanonicalFilesOrigin(lib, change.contents, p);
      } else {
        assert p in c.files;
      }
    }
  }

  lemma StoringKeepsArea(lib: Imports, bodies: iset<Bytes>, area: Area, commits: seq<Commit>, contents: seq<File>)
    requires AreaInv(lib, bodies, area, commits) && FilesWithin(contents, bodies)
    ensures AreaInv(lib, bodies, area.(blobs := Stored(lib, area.blobs, contents)), commits)
  {
    var stored := Stored(lib, area.blobs, contents);
    StoredSound(lib, bodies, area.blobs, contents);
    forall i | 0 <= i < |commits| ensures Sound(lib, bodies, stored, commits[i]) {
      SoundWithMoreBlobs(lib, bodies, area.blobs, stored, commits[i]);
    }
  }

  lemma CommitKeepsArea(lib: Imports, bodies: iset<Bytes>, area: Area, commits: seq<Commit>, c: Commit)
    requires AreaInv(lib, bodies, area, commits)
    requires Sound(lib, bodies, area.blobs, c) && c.index.revision == |commits|
    ensures AreaInv(lib, bodies, area.(index := c.index), commits + [c])
  {
  }

  lemma PublishKeepsArea(lib: Imports, bodies: iset<Bytes>, area: Area, commits: seq<Commit>, machine: string,
                         change: Change, base: int, token: Option<int>)
    requires AreaInv(lib, bodies, area, commits) && FilesWithin(change.contents, bodies)
    ensures var (after, result) := Publish(lib, area, machine, change, base, token);
            AreaInv(lib, bodies, after,
                    if result.Err? then commits
                    else commits + [Commit(after.index, Overlay(lib, commits[|commits| - 1].files, change))])
  {
    var accepted := change.contents[..AcceptedPrefix(lib, change.contents)];
    StoringKeepsArea(lib, bodies, area, commits, accepted);
    if Publish(lib, area, machine, change, base, token).1.Ok? {
      var latest := commits[|commits| - 1];
      PrefixStops(lib, change.contents, |change.contents|);
      assert accepted == change.contents;
      PublishedSound(lib, bodies, area.blobs, latest, machine, change);
      CommitKeepsArea(lib, bodies, area.(blobs := Stored(lib, area.blobs, accepted)), commits,
                      Commit(Published(lib, area.index, machine, change), Overlay(lib, latest.files, change)));
    }
  }

  lemma RollbackKeepsArea(lib: Imports, bodies: iset<Bytes>, area: Area, commits: seq<Commit>, previous: Index,
                          machine: string, token: Option<int>)
    requires AreaInv(lib, bodies, area, commits)
    requires previous.revision < |commits| && commits[previous.revision].index == previous
    ensures var (after, result) := Rollback(area, previous, machine, token);
            AreaInv(lib, bodies, after,
                    if result.Err? then commits
                    else commits + [Commit(after.index, commits[previous.revision].files)])
  {
    if Holds(area, machine, token) {
      RaisedSound(lib, bodies, area.blobs, commits[previous.revision], area.index.revision + 1);
      CommitKeepsArea(lib, bodies, area, commits,
                      Commit(previous.(revision := area.index.revision + 1), commits[previous.revision].files));
    }
  }

  lemma RaisedSound(lib: Imports, bodies: iset<Bytes>, blobs: map<string, Bytes>, c: Commit, revision: nat)
    requires Sound(lib, bodies, blobs, c) && c.index.revision <= revision
    ensures Sound(lib, bodies, blobs, Commit(c.index.(revision := revision), c.files))
  {
  }

  /** A step that commits nothing. */
  lemma AreaUpdateKeeps(lib: Imports, bodies: iset<Bytes>, w: World, key: string, area: Area)
    requires Inv(lib, bodies, w) && AreaInv(lib, bodies, area, CommitsAt(w, key))
    ensures Inv(lib, bodies, World(w.areas[key := area], w.commits))
  {
    var w' := World(w.areas[key := area], w.commits);
    forall k ensures AreaInv(lib, bodies, AreaAt(w'.areas, k), CommitsAt(w', k)) {
      assert AreaInv(lib, bodies, AreaAt(w.areas, k), CommitsAt(w, k));
      assert AreaAt(w'.areas, k) == if k == key then area else AreaAt(w.areas, k);
    }
  }

  /** A step that commits once. */
  lemma RecordKeeps(lib: Imports, bodies: iset<Bytes>, w: World, key: string, area: Area, files: map<string, Bytes>)
    requires Inv(lib, bodies, w)
    requires AreaInv(lib, bodies, area, CommitsAt(w, key) + [Commit(area.index, files)])
    ensures Inv(lib, bodies, Record(w, key, area, files))
  {
    var w' := Record(w, key, area, files);
    forall k ensures AreaInv(lib, bodies, AreaAt(w'.areas, k), CommitsAt(w', k)) {
      assert AreaInv(lib, bodies, AreaAt(w.areas, k), CommitsAt(w, k));
      assert AreaAt(w'.areas, k) == if k == key then area else AreaAt(w.areas, k);
    }
  }

  lemma StepPublishKeeps(lib: Imports, bodies: iset<Bytes>, w: World, key: string, machine: string, change: Change,
                         base: int, token: Option<int>)
    requires Inv(lib, bodies, w) && FilesWithin(change.contents, bodies)
    ensures Inv(lib, bodies, StepPublish(lib, w, key, machine, change, base, token))
  {
    var (after, result) := Publish(lib, AreaAt(w.areas, key), machine, change, base, token);
    PublishKeepsArea(lib, bodies, AreaAt(w.areas, key), CommitsAt(w, key), machine, change, base, token);
    if result.Ok? {
      RecordKeeps(lib, bodies, w, key, after, Overlay(lib, LatestFiles(w, key), change));
    } else {
      AreaUpdateKeeps(lib, bodies, w, key, after);
    }
  }

  lemma StepRollbackKeeps(lib: Imports, bodies: iset<Bytes>, w: World, key: string, previous: Index,
                          machine: string, token: Option<int>)
    requires Inv(lib, bodies, w) && WasCommitted(w, key, previous)
    ensures Inv(lib, bodies, StepRollback(w, key, previous, machine, token))
  {
    var (after, result) := Rollback(AreaAt(w.areas, key), previous, machine, token);
    RollbackKeepsArea(lib, bodies, AreaAt(w.areas, key), CommitsAt(w, key), previous, machine, token);
    if result.Ok? {
      RecordKeeps(lib, bodies, w, key, after, CommitsAt(w, key)[previous.revision].files);
    } else {
      AreaUpdateKeeps(lib, bodies, w, key, after);
    }
  }

  lemma {:induction false} LiveWithin(contents: seq<File>, tombstones: map<string, Tombstone>, bodies: iset<Bytes>)
    requires FilesWithin(contents, bodies)
    ensures FilesWithin(Live(contents, tombstones), bodies)
  {
    if contents != [] {
      LiveWithin(contents[..|contents| - 1], tombstones, bodies);
    }
  }

  lemma StepDrainItemKeeps(lib: Imports, bodies: iset<Bytes>, w: World, item: Item, machine: string,
                           token: Option<int>)
    requires Inv(lib, bodies, w) && FilesWithin(item.change.contents, bodies)
    ensures Inv(lib, bodies, StepDrainItem(lib, w, item, machine, token))
  {
    var index := AreaAt(w.areas, item.key).index;
    var live := Live(item.change.contents, index.tombstones);
    LiveWithin(item.change.contents, index.tombstones, bodies);
    StepPublishKeeps(lib, bodies, w, item.key, machine, Change(live, item.change.deletions), index.revision, token);
  }

  lemma {:induction false} StepDrainKeeps(lib: Imports, bodies: iset<Bytes>, w: World, queue: seq<Item>,
                                          machine: string, token: Option<int>)
    requires Inv(lib, bodies, w)
    requires forall i :: 0 <= i < |queue| ==> FilesWithin(queue[i].change.contents, bodies)
    ensures Inv(lib, bodies, StepDrain(lib, w, queue, machine, token))
  {
    if queue != [] {
      var n := |queue| - 1;
      StepDrainKeeps(lib, bodies, w, queue[..n], machine, token);
      StepDrainItemKeeps(lib, bodies, StepDrain(lib, w, queue[..n], machine, token), queue[n], machine, token);
    }
  }

  lemma StepLeaseKeeps(lib: Imports, bodies: iset<Bytes>, w: World, op: Op)
    requires Inv(lib, bodies, w) && (op.AcquireOp? || op.ReleaseOp?)
    ensures Inv(lib, bodies, Step(lib, w, op))
  {
    var area := AreaAt(w.areas, op.key);
    var after := if op.AcquireOp? then Acquire(area, op.machine, op.now, op.ttl).0 else Release(area, op.machine).0;
    assert AreaInv(lib, bodies, after, CommitsAt(w, op.key)) by {
      assert AreaInv(lib, bodies, area, CommitsAt(w, op.key));
      assert after.index == area.index && after.blobs == area.blobs;
    }
    AreaUpdateKeeps(lib, bodies, w, op.key, after);
  }

  lemma StepKeeps(lib: Imports, bodies: iset<Bytes>, w: World, op: Op)
    requires Inv(lib, bodies, w) && Legal(w, op) && Within(op, bodies)
    ensures Inv(lib, bodies, Step(lib, w, op))
  {
    match op
    case PublishOp(key, machine, change, base, token) =>
      StepPublishKeeps(lib, bodies, w, key, machine, change, base, token);
    case RollbackOp(key, machine, previous, token) =>
      StepRollbackKeeps(lib, bodies, w, key, previous, machine, token);
    case DrainOp(machine, queue, token) => StepDrainKeeps(lib, bodies, w, queue, machine, token);
    case _ => StepLeaseKeeps(lib, bodies, w, op);
  }

  /** Every legal run keeps the invariant. */
  lemma {:induction false} RunKeeps(lib: Imports, bodies: iset<Bytes>, w: World, ops: seq<Op>)
    requires Inv(lib, bodies, w) && LegalRun(lib, w, ops) && RunWithin(ops, bodies)
    ensures Inv(lib, bodies, Run(lib, w, ops))
    decreases |ops|
  {
    if ops != [] {
      StepKeeps(lib, bodies, w, ops[0]);
      RunKeeps(lib, bodies, Step(lib, w, ops[0]), ops[1..]);
    }
  }

  lemma EmptyWorldInv(lib: Imports, bodies: iset<Bytes>)
    ensures Inv(lib, bodies, EMPTY_WORLD)
  {
  }
}
