/** The canonical state root: leases, publish, materialize, rollback and replay
    (lib/brain/canonical-state-root.js), each operation as a function of one key's area. */
module StateRoot {
  import opened Basics
  import opened ContainedPath

  /** What the operations import: SHA-256 and the containment gate. */
  datatype Imports = Imports(sha256: Bytes -> string, contain: string -> Containment)

  datatype Lease = Lease(machine: string, expiresAt: int, token: int)
  datatype Entry = Entry(sha256: string, bytes: nat, machine: string)
  datatype Tombstone = Tombstone(deletedBy: string, revision: nat)
  datatype Index = Index(revision: nat, entries: map<string, Entry>, tombstones: map<string, Tombstone>)

  /** One key's directory: `index.json`, `lease.json` and `blobs/`. */
  datatype Area = Area(index: Index, lease: Option<Lease>, blobs: map<string, Bytes>)

  const EMPTY_INDEX := Index(0, map[], map[])
  const EMPTY_AREA := Area(EMPTY_INDEX, None, map[])

  datatype File = File(path: string, body: Bytes)
  /** What one writer asks for; `contents` in the enumeration order of the source's object. */
  datatype Change = Change(contents: seq<File>, deletions: seq<string>)

  datatype Reason = ClockRequired | LeaseHeld | StaleWriter | PathRejected | BlobMissing | BlobCorrupt
  datatype Result<+T> = Ok(value: T) | Err(reason: Reason)

  // ---- Leases ----

  function Acquire(area: Area, machine: string, now: Option<int>, ttl: int): (Area, Result<Lease>) {
    if now.None? then (area, Err(ClockRequired))
    else if area.lease.Some? && area.lease.value.machine != machine && area.lease.value.expiresAt > now.value then
      (area, Err(LeaseHeld))
    else
      var token := (if area.lease.Some? then area.lease.value.token else 0) + 1;
      var lease := Lease(machine, now.value + ttl, token);
      (area.(lease := Some(lease)), Ok(lease))
  }

  function Release(area: Area, machine: string): (Area, Result<()>) {
    if area.lease.Some? && area.lease.value.machine != machine then (area, Err(LeaseHeld))
    else (area.(lease := None), Ok(()))
  }

  /** The fence: the caller's machine and token are those of the lease on file. Expiry is not consulted. */
  predicate Holds(area: Area, machine: string, token: Option<int>) {
    && area.lease.Some?
    && area.lease.value.machine == machine
    && token == Some(area.lease.value.token)
  }

  // ---- Publish ----

  predicate PathsContained(lib: Imports, paths: seq<string>) {
    forall i :: 0 <= i < |paths| ==> lib.contain(paths[i]).Contained?
  }

  predicate FilesContained(lib: Imports, contents: seq<File>) {
    forall i :: 0 <= i < |contents| ==> lib.contain(contents[i].path).Contained?
  }

  /** How many files come before the first one whose path is rejected. */
  function AcceptedPrefix(lib: Imports, contents: seq<File>): (n: nat)
    ensures n <= |contents|
  {
    if contents == [] || lib.contain(contents[0].path).Rejected? then 0
    else 1 + AcceptedPrefix(lib, contents[1..])
  }

  /** Canonical path to body; of two spellings of one path the later body wins. */
  function CanonicalFiles(lib: Imports, contents: seq<File>): map<string, Bytes>
    requires FilesContained(lib, contents)
  {
    if contents == [] then map[]
    else
      var last := contents[|contents| - 1];
      CanonicalFiles(lib, contents[..|contents| - 1])[lib.contain(last.path).path := last.body]
  }

  function CanonicalPaths(lib: Imports, paths: seq<string>): set<string>
    requires PathsContained(lib, paths)
  {
    if paths == [] then {}
    else CanonicalPaths(lib, paths[..|paths| - 1]) + {lib.contain(paths[|paths| - 1]).path}
  }

  /** Content-addressed storage: a digest that is already on file is never rewritten. */
  function Stored(lib: Imports, blobs: map<string, Bytes>, contents: seq<File>): map<string, Bytes> {
    if contents == [] then blobs
    else
      var before := Stored(lib, blobs, contents[..|contents| - 1]);
      var body := contents[|contents| - 1].body;
      if lib.sha256(body) in before then before else before[lib.sha256(body) := body]
  }

  function EntryOf(lib: Imports, machine: string, body: Bytes): Entry {
    Entry(lib.sha256(body), |body|, machine)
  }

  function EntriesOf(lib: Imports, machine: string, files: map<string, Bytes>): map<string, Entry> {
    map p | p in files :: EntryOf(lib, machine, files[p])
  }

  function TombstonesOf(machine: string, revision: nat, paths: set<string>): map<string, Tombstone> {
    map p | p in paths :: Tombstone(machine, revision)
  }

  /** The index an accepted publish commits. */
  function Published(lib: Imports, index: Index, machine: string, change: Change): Index
    requires FilesContained(lib, change.contents) && PathsContained(lib, change.deletions)
  {
    var files := CanonicalFiles(lib, change.contents);
    var deleted := CanonicalPaths(lib, change.deletions);
    Index(index.revision + 1,
          (index.entries + EntriesOf(lib, machine, files)) - deleted,
          (index.tombstones - files.Keys) + TombstonesOf(machine, index.revision + 1, deleted))
  }

  function Publish(lib: Imports, area: Area, machine: string, change: Change, base: int, token: Option<int>)
    : (Area, Result<Index>)
  {
    if base != area.index.revision then (area, Err(StaleWriter))
    else if !Holds(area, machine, token) then (area, Err(LeaseHeld))
    else
      var n := AcceptedPrefix(lib, change.contents);
      var stored := area.(blobs := Stored(lib, area.blobs, change.contents[..n]));
      if !FilesContained(lib, change.contents) || !PathsContained(lib, change.deletions) then
        (stored, Err(PathRejected))
      else
        var next := Published(lib, area.index, machine, change);
        (stored.(index := next), Ok(next))
  }

  // ---- Rollback ----

  function Rollback(area: Area, previous: Index, machine: string, token: Option<int>): (Area, Result<Index>) {
    if !Holds(area, machine, token) then (area, Err(LeaseHeld))
    else
      var restored := previous.(revision := area.index.revision + 1);
      (area.(index := restored), Ok(restored))
  }

  // ---- Materialize ----

  predicate EntryReadable(lib: Imports, area: Area, p: string)
    requires p in area.index.entries
  {
    var digest := area.index.entries[p].sha256;
    lib.contain(p).Contained? && digest in area.blobs && lib.sha256(area.blobs[digest]) == digest
  }

  /** Nothing stops the projection of this area into a checkout. */
  predicate Materializable(lib: Imports, area: Area, applyTombstones: bool) {
    && (forall p :: p in area.index.entries ==> EntryReadable(lib, area, p))
    && (applyTombstones ==> forall p :: p in area.index.tombstones ==> lib.contain(p).Contained?)
  }

  /** The bodies on file for some of the index's paths. */
  function Content(area: Area, paths: set<string>): map<string, Bytes> {
    map p | p in paths && p in area.index.entries && area.index.entries[p].sha256 in area.blobs
      :: area.blobs[area.index.entries[p].sha256]
  }

  /** The checkout after a projection that went through. */
  function Projected(area: Area, files: map<string, Bytes>, applyTombstones: bool): map<string, Bytes> {
    var written := files + Content(area, area.index.entries.Keys);
    if applyTombstones then written - area.index.tombstones.Keys else written
  }

  /** The gate sends each path of the index to itself or rejects it. */
  predicate Settled(lib: Imports, index: Index) {
    forall p :: p in index.entries.Keys + index.tombstones.Keys ==>
      lib.contain(p) == Rejected || lib.contain(p) == Contained(p)
  }

  // ---- Replay ----

  /** The queued files whose path, as spelled in the queue, has no tombstone. */
  function Live(contents: seq<File>, tombstones: map<string, Tombstone>): seq<File> {
    if contents == [] then []
    else
      var n := |contents| - 1;
      Live(contents[..n], tombstones) + if contents[n].path in tombstones then [] else [contents[n]]
  }

  datatype Item = Item(key: string, change: Change)
  datatype Verdict = Applied | Remaining | Dropped

  type Areas = map<string, Area>

  /** A key that was never written reads as an empty area. */
  function AreaAt(areas: Areas, key: string): Area {
    if key in areas then areas[key] else EMPTY_AREA
  }

  function DrainItem(lib: Imports, areas: Areas, item: Item, machine: string, token: Option<int>)
    : (Areas, Verdict)
  {
    var area := AreaAt(areas, item.key);
    var live := Live(item.change.contents, area.index.tombstones);
    if live == [] && item.change.deletions == [] then (areas, Dropped)
    else
      var (after, result) :=
        Publish(lib, area, machine, Change(live, item.change.deletions), area.index.revision, token);
      (areas[item.key := after], if result.Ok? then Applied else Remaining)
  }

  function Drain(lib: Imports, areas: Areas, queue: seq<Item>, machine: string, token: Option<int>)
    : (r: (Areas, seq<Verdict>))
    ensures |r.1| == |queue|
  {
    if queue == [] then (areas, [])
    else
      var (before, verdicts) := Drain(lib, areas, queue[..|queue| - 1], machine, token);
      var (after, verdict) := DrainItem(lib, before, queue[|queue| - 1], machine, token);
      (after, verdicts + [verdict])
  }

  /** The queued items that met a given fate, in queue order. */
  function Select(queue: seq<Item>, verdicts: seq<Verdict>, verdict: Verdict): seq<Item>
    requires |queue| == |verdicts|
  {
    if queue == [] then []
    else
      var n := |queue| - 1;
      Select(queue[..n], verdicts[..n], verdict) + if verdicts[n] == verdict then [queue[n]] else []
  }

  // ---- How the folds grow by one element ----

  lemma FilesStep(lib: Imports, blobs: map<string, Bytes>, contents: seq<File>, i: nat)
    requires i < |contents| && FilesContained(lib, contents[..i]) && lib.contain(contents[i].path).Contained?
    ensures FilesContained(lib, contents[..i + 1])
    ensures CanonicalFiles(lib, contents[..i + 1]) ==
            CanonicalFiles(lib, contents[..i])[lib.contain(contents[i].path).path := contents[i].body]
    ensures Stored(lib, blobs, contents[..i + 1]) ==
            var before := Stored(lib, blobs, contents[..i]);
            var digest := lib.sha256(contents[i].body);
            if digest in before then before else before[digest := contents[i].body]
  {
    assert contents[..i + 1][..i] == contents[..i];
    assert contents[..i + 1] == contents[..i] + [contents[i]];
  }

  lemma EntriesStep(lib: Imports, machine: string, entries: map<string, Entry>, files: map<string, Bytes>,
                    p: string, body: Bytes)
    ensures entries + EntriesOf(lib, machine, files[p := body]) ==
            (entries + EntriesOf(lib, machine, files))[p := EntryOf(lib, machine, body)]
  {
  }

  lemma LiftedStep(tombstones: map<string, Tombstone>, files: map<string, Bytes>, p: string, body: Bytes)
    ensures (tombstones - files.Keys) - {p} == tombstones - files[p := body].Keys
  {
  }

  lemma DeletedStep(entries: map<string, Entry>, tombstones: map<string, Tombstone>, machine: string, revision: nat,
                    deleted: set<string>, p: string)
    ensures (entries - deleted) - {p} == entries - (deleted + {p})
    ensures (tombstones + TombstonesOf(machine, revision, deleted))[p := Tombstone(machine, revision)] ==
            tombstones + TombstonesOf(machine, revision, deleted + {p})
  {
  }

  lemma PathsStep(lib: Imports, paths: seq<string>, i: nat)
    requires i < |paths| && PathsContained(lib, paths[..i]) && lib.contain(paths[i]).Contained?
    ensures PathsContained(lib, paths[..i + 1])
    ensures CanonicalPaths(lib, paths[..i + 1]) == CanonicalPaths(lib, paths[..i]) + {lib.contain(paths[i]).path}
  {
    assert paths[..i + 1][..i] == paths[..i];
    assert paths[..i + 1] == paths[..i] + [paths[i]];
  }

  lemma {:induction false} PrefixStops(lib: Imports, contents: seq<File>, i: nat)
    requires i <= |contents| && FilesContained(lib, contents[..i])
    requires i < |contents| ==> lib.contain(contents[i].path).Rejected?
    ensures AcceptedPrefix(lib, contents) == i
    ensures FilesContained(lib, contents) <==> i == |contents|
  {
    if i > 0 {
      assert lib.contain(contents[..i][0].path).Contained?;
      assert contents[1..][..i - 1] == contents[..i][1..];
      PrefixStops(lib, contents[1..], i - 1);
    }
    if i == |contents| {
      assert contents[..i] == contents;
    }
  }
}
