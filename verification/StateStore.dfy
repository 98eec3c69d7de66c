/** The operations of lib/brain/canonical-state-root.js as they run, on a store object that they
    update in place, each proved against its function in StateRoot. */
module StateStore {
  import opened Basics
  import opened ContainedPath
  import opened StateRoot

  class LocalStore {
    const lib: Imports
    var areas: Areas

    constructor (lib: Imports)
      ensures this.lib == lib
      ensures forall key :: At(key) == EMPTY_AREA
    {
      this.lib := lib;
      areas := map[];
    }

    function At(key: string): Area
      reads this
    {
      AreaAt(areas, key)
    }

    method WriteIndex(key: string, index: Index)
      modifies this
      ensures At(key) == old(At(key)).(index := index)
      ensures forall k :: k != key ==> At(k) == old(At(k))
    {
      areas := areas[key := At(key).(index := index)];
    }

    method WriteBlob(key: string, digest: string, body: Bytes)
      modifies this
      ensures At(key) == old(At(key)).(
        blobs := if digest in old(At(key)).blobs then old(At(key)).blobs else old(At(key)).blobs[digest := body])
      ensures forall k :: k != key ==> At(k) == old(At(k))
    {
      var area := At(key);
      if digest in area.blobs {
        return;
      }
      areas := areas[key := area.(blobs := area.blobs[digest := body])];
    }

    method WriteLease(key: string, lease: Option<Lease>)
      modifies this
      ensures At(key) == old(At(key)).(lease := lease)
      ensures forall k :: k != key ==> At(k) == old(At(k))
    {
      areas := areas[key := At(key).(lease := lease)];
    }
  }

  method AcquireLease(store: LocalStore, key: string, machine: string, now: Option<int>, ttl: int)
    returns (r: Result<Lease>)
    modifies store
    ensures (store.At(key), r) == Acquire(old(store.At(key)), machine, now, ttl)
    ensures forall k :: k != key ==> store.At(k) == old(store.At(k))
  {
    if now.None? {
      return Err(ClockRequired);
    }
    var existing := store.At(key).lease;
    if existing.Some? && existing.value.machine != machine && existing.value.expiresAt > now.value {
      return Err(LeaseHeld);
    }
    var token := 1;
    if existing.Some? {
      token := existing.value.token + 1;
    }
    var lease := Lease(machine, now.value + ttl, token);
    store.WriteLease(key, Some(lease));
    return Ok(lease);
  }

  method ReleaseLease(store: LocalStore, key: string, machine: string) returns (r: Result<()>)
    modifies store
    ensures (store.At(key), r) == Release(old(store.At(key)), machine)
    ensures forall k :: k != key ==> store.At(k) == old(store.At(k))
  {
    var existing := store.At(key).lease;
    if existing.Some? && existing.value.machine != machine {
      return Err(LeaseHeld);
    }
    store.WriteLease(key, None);
    return Ok(());
  }

  /** The first loop of a publish: blobs into the store, files into the two local maps. */
  method ApplyContents(store: LocalStore, key: string, machine: string, contents: seq<File>, index: Index)
    returns (ok: bool, entries: map<string, Entry>, tombstones: map<string, Tombstone>)
    modifies store
    ensures ok <==> FilesContained(store.lib, contents)
    ensures store.At(key) == old(store.At(key)).(
              blobs := Stored(store.lib, old(store.At(key)).blobs, contents[..AcceptedPrefix(store.lib, contents)]))
    ensures forall k :: k != key ==> store.At(k) == old(store.At(k))
    ensures ok ==> entries == index.entries + EntriesOf(store.lib, machine, CanonicalFiles(store.lib, contents))
    ensures ok ==> tombstones == index.tombstones - CanonicalFiles(store.lib, contents).Keys
  {
    var lib := store.lib;
    entries, tombstones := index.entries, index.tombstones;
    ghost var before := store.At(key);
    var i := 0;
    while i < |contents|
      invariant 0 <= i <= |contents|
      invariant FilesContained(lib, contents[..i])
      invariant store.At(key) == before.(blobs := Stored(lib, before.blobs, contents[..i]))
      invariant forall k :: k != key ==> store.At(k) == old(store.At(k))
      invariant entries == index.entries + EntriesOf(lib, machine, CanonicalFiles(lib, contents[..i]))
      invariant tombstones == index.tombstones - CanonicalFiles(lib, contents[..i]).Keys
    {
      var canonical := lib.contain(contents[i].path);
      if canonical.Rejected? {
        PrefixStops(lib, contents, i);
        return false, entries, tombstones;
      }
      var body := contents[i].body;
      FilesStep(lib, before.blobs, contents, i);
      EntriesStep(lib, machine, index.entries, CanonicalFiles(lib, contents[..i]), canonical.path, body);
      LiftedStep(index.tombstones, CanonicalFiles(lib, contents[..i]), canonical.path, body);
      store.WriteBlob(key, lib.sha256(body), body);
      entries := entries[canonical.path := EntryOf(lib, machine, body)];
      tombstones := tombstones - {canonical.path};
      i := i + 1;
    }
    PrefixStops(lib, contents, i);
    assert contents[..i] == contents;
    ok := true;
  }

  /** The second loop of a publish: deletions leave tombstones. */
  method ApplyDeletions(lib: Imports, machine: string, revision: nat, deletions: seq<string>,
                        entries0: map<string, Entry>, tombstones0: map<string, Tombstone>)
    returns (ok: bool, entries: map<string, Entry>, tombstones: map<string, Tombstone>)
    ensures ok <==> PathsContained(lib, deletions)
    ensures ok ==> entries == entries0 - CanonicalPaths(lib, deletions)
    ensures ok ==> tombstones == tombstones0 + TombstonesOf(machine, revision, CanonicalPaths(lib, deletions))
  {
    entries, tombstones := entries0, tombstones0;
    var i := 0;
    while i < |deletions|
      invariant 0 <= i <= |deletions|
      invariant PathsContained(lib, deletions[..i])
      invariant entries == entries0 - CanonicalPaths(lib, deletions[..i])
      invariant tombstones == tombstones0 + TombstonesOf(machine, revision, CanonicalPaths(lib, deletions[..i]))
    {
      var canonical := lib.contain(deletions[i]);
      if canonical.Rejected? {
        return false, entries, tombstones;
      }
      PathsStep(lib, deletions, i);
      DeletedStep(entries0, tombstones0, machine, revision, CanonicalPaths(lib, deletions[..i]), canonical.path);
      entries := entries - {canonical.path};
      tombstones := tombstones[canonical.path := Tombstone(machine, revision)];
      i := i + 1;
    }
    assert deletions[..i] == deletions;
    ok := true;
  }

  method PublishState(store: LocalStore, key: string, machine: string, change: Change, base: int, token: Option<int>)
    returns (r: Result<Index>)
    modifies store
    ensures (store.At(key), r) == Publish(store.lib, old(store.At(key)), machine, change, base, token)
    ensures forall k :: k != key ==> store.At(k) == old(store.At(k))
  {
    var index := store.At(key).index;
    if base != index.revision {
      return Err(StaleWriter);
    }
    if !Holds(store.At(key), machine, token) {
      return Err(LeaseHeld);
    }
    var ok, entries, tombstones := ApplyContents(store, key, machine, change.contents, index);
    if !ok {
      return Err(PathRejected);
    }
    ok, entries, tombstones :=
      ApplyDeletions(store.lib, machine, index.revision + 1, change.deletions, entries, tombstones);
    if !ok {
      return Err(PathRejected);
    }
    var next := Index(index.revision + 1, entries, tombstones);
    store.WriteIndex(key, next);
    return Ok(next);
  }

  method RollbackState(store: LocalStore, key: string, previous: Index, machine: string, token: Option<int>)
    returns (r: Result<Index>)
    modifies store
    ensures (store.At(key), r) == Rollback(old(store.At(key)), previous, machine, token)
    ensures forall k :: k != key ==> store.At(k) == old(store.At(k))
  {
    if !Holds(store.At(key), machine, token) {
      return Err(LeaseHeld);
    }
    var restored := previous.(revision := store.At(key).index.revision + 1);
    store.WriteIndex(key, restored);
    return Ok(restored);
  }

  method LiveFiles(contents: seq<File>, tombstones: map<string, Tombstone>) returns (live: seq<File>)
    ensures live == Live(contents, tombstones)
  {
    live := [];
    for i := 0 to |contents|
      invariant live == Live(contents[..i], tombstones)
    {
      assert contents[..i + 1][..i] == contents[..i];
      if contents[i].path !in tombstones {
        live := live + [contents[i]];
      }
    }
    assert contents[..|contents|] == contents;
  }

  lemma DrainStep(lib: Imports, areas: Areas, queue: seq<Item>, machine: string, token: Option<int>, i: nat)
    requires i < |queue|
    ensures var before := Drain(lib, areas, queue[..i], machine, token);
            var step := DrainItem(lib, before.0, queue[i], machine, token);
            var after := Drain(lib, areas, queue[..i + 1], machine, token);
            && after == (step.0, before.1 + [step.1])
            && forall v :: Select(queue[..i + 1], after.1, v) ==
                           Select(queue[..i], before.1, v) + if step.1 == v then [queue[i]] else []
  {
    assert queue[..i + 1][..i] == queue[..i];
    var before := Drain(lib, areas, queue[..i], machine, token);
    var step := DrainItem(lib, before.0, queue[i], machine, token);
    assert (before.1 + [step.1])[..i] == before.1;
  }

  /** A drain step reads one area and writes one area. */
  lemma DrainItemIsLocal(lib: Imports, areas: Areas, areas': Areas, item: Item, machine: string, token: Option<int>)
    requires forall k :: AreaAt(areas, k) == AreaAt(areas', k)
    ensures DrainItem(lib, areas, item, machine, token).1 == DrainItem(lib, areas', item, machine, token).1
    ensures forall k :: AreaAt(DrainItem(lib, areas, item, machine, token).0, k) ==
                        AreaAt(DrainItem(lib, areas', item, machine, token).0, k)
  {
    assert AreaAt(areas, item.key) == AreaAt(areas', item.key);
    forall k ensures AreaAt(DrainItem(lib, areas, item, machine, token).0, k) ==
                     AreaAt(DrainItem(lib, areas', item, machine, token).0, k)
    {
      assert AreaAt(areas, k) == AreaAt(areas', k);
    }
  }

  method DrainOne(store: LocalStore, item: Item, machine: string, token: Option<int>) returns (verdict: Verdict)
    modifies store
    ensures forall k :: store.At(k) == AreaAt(DrainItem(store.lib, old(store.areas), item, machine, token).0, k)
    ensures verdict == DrainItem(store.lib, old(store.areas), item, machine, token).1
  {
    var index := store.At(item.key).index;
    var live := LiveFiles(item.change.contents, index.tombstones);
    if live == [] && item.change.deletions == [] {
      return Dropped;
    }
    var result := PublishState(store, item.key, machine, Change(live, item.change.deletions), index.revision, token);
    return if result.Ok? then Applied else Remaining;
  }

  method DrainReplay(store: LocalStore, queue: seq<Item>, machine: string, token: Option<int>)
    returns (applied: seq<Item>, remaining: seq<Item>)
    modifies store
    ensures forall k :: store.At(k) == AreaAt(Drain(store.lib, old(store.areas), queue, machine, token).0, k)
    ensures applied == Select(queue, Drain(store.lib, old(store.areas), queue, machine, token).1, Applied)
    ensures remaining == Select(queue, Drain(store.lib, old(store.areas), queue, machine, token).1, Remaining)
  {
    applied, remaining := [], [];
    ghost var areas := store.areas;
    for i := 0 to |queue|
      invariant forall k :: store.At(k) == AreaAt(Drain(store.lib, areas, queue[..i], machine, token).0, k)
      invariant applied == Select(queue[..i], Drain(store.lib, areas, queue[..i], machine, token).1, Applied)
      invariant remaining == Select(queue[..i], Drain(store.lib, areas, queue[..i], machine, token).1, Remaining)
    {
      DrainStep(store.lib, areas, queue, machine, token, i);
      DrainItemIsLocal(store.lib, store.areas, Drain(store.lib, areas, queue[..i], machine, token).0,
                       queue[i], machine, token);
      var verdict := DrainOne(store, queue[i], machine, token);
      if verdict == Applied {
        applied := applied + [queue[i]];
      } else if verdict == Remaining {
        remaining := remaining + [queue[i]];
      }
    }
    assert queue[..|queue|] == queue;
  }

  /** A work tree, as a flat map from path to bytes. */
  class Checkout {
    var files: map<string, Bytes>

    constructor (files: map<string, Bytes>)
      ensures this.files == files
    {
      this.files := files;
    }
  }

  lemma ContentStep(area: Area, files: map<string, Bytes>, done: set<string>, p: string)
    requires p in area.index.entries && area.index.entries[p].sha256 in area.blobs
    ensures (files + Content(area, done))[p := area.blobs[area.index.entries[p].sha256]] ==
            files + Content(area, done + {p})
  {
  }

  lemma RemovalStep(files: map<string, Bytes>, done: set<string>, p: string)
    ensures (files - done) - {p} == files - (done + {p})
    ensures p in files - done ==> files.Keys * done + {p} == files.Keys * (done + {p})
    ensures p !in files - done ==>
              files - done == files - (done + {p}) && files.Keys * done == files.Keys * (done + {p})
  {
  }

  /** What is wrong with an entry, in the order in which it is looked at. */
  function Fault(lib: Imports, area: Area, p: string): Option<Reason>
    requires p in area.index.entries
  {
    var digest := area.index.entries[p].sha256;
    if lib.contain(p).Rejected? then Some(PathRejected)
    else if digest !in area.blobs then Some(BlobMissing)
    else if lib.sha256(area.blobs[digest]) != digest then Some(BlobCorrupt)
    else None
  }

  /** The checkout after some of the entries were written. */
  ghost predicate WrittenInPart(area: Area, files: map<string, Bytes>, after: map<string, Bytes>) {
    exists done :: done <= area.index.entries.Keys && after == files + Content(area, done)
  }

  /** The checkout after some of the tombstoned files were removed. */
  ghost predicate RemovedInPart(index: Index, files: map<string, Bytes>, after: map<string, Bytes>) {
    exists done :: done <= index.tombstones.Keys && after == files - done
  }

  /** Write every entry's body. The entries are walked in an arbitrary order, so this holds of every order. What was
      written before a faulty entry stays. */
  method WriteEntries(lib: Imports, area: Area, checkout: Checkout) returns (r: Result<set<string>>)
    modifies checkout
    ensures r.Ok? <==> forall p :: p in area.index.entries ==> EntryReadable(lib, area, p)
    ensures r.Ok? && Settled(lib, area.index) ==> r.value == area.index.entries.Keys
    ensures r.Ok? && Settled(lib, area.index) ==>
              checkout.files == old(checkout.files) + Content(area, area.index.entries.Keys)
    ensures r.Err? ==> exists p :: p in area.index.entries && Fault(lib, area, p) == Some(r.reason)
    ensures Settled(lib, area.index) ==> WrittenInPart(area, old(checkout.files), checkout.files)
  {
    var entries := area.index.entries;
    ghost var settled, files := Settled(lib, area.index), checkout.files;
    var written := {};
    var todo := entries.Keys;
    ghost var done := {};
    assert files + Content(area, {}) == files;
    while todo != {}
      invariant todo !! done && todo + done == entries.Keys
      invariant forall p :: p in done ==> EntryReadable(lib, area, p)
      invariant settled ==> written == done && checkout.files == files + Content(area, done)
      decreases todo
    {
      var p :| p in todo;
      var canonical := lib.contain(p);
      var fault := Fault(lib, area, p);
      if fault.Some? {
        return Err(fault.value);
      }
      ContentStep(area, files, done, p);
      assert settled ==> canonical.path == p by {
        assert p in area.index.entries.Keys + area.index.tombstones.Keys;
      }
      checkout.files := checkout.files[canonical.path := area.blobs[entries[p].sha256]];
      written := written + {canonical.path};
      todo, done := todo - {p}, done + {p};
    }
    assert done == entries.Keys;
    return Ok(written);
  }

  /** Remove every tombstoned file. What was removed before a rejected path stays removed. */
  method RemoveTombstoned(lib: Imports, index: Index, checkout: Checkout) returns (r: Result<set<string>>)
    modifies checkout
    ensures r.Ok? <==> forall p :: p in index.tombstones ==> lib.contain(p).Contained?
    ensures r.Ok? && Settled(lib, index) ==> r.value == old(checkout.files).Keys * index.tombstones.Keys
    ensures r.Ok? && Settled(lib, index) ==> checkout.files == old(checkout.files) - index.tombstones.Keys
    ensures r.Err? ==> r.reason == PathRejected
    ensures Settled(lib, index) ==> RemovedInPart(index, old(checkout.files), checkout.files)
  {
    ghost var settled, files := Settled(lib, index), checkout.files;
    var removed := {};
    var todo := index.tombstones.Keys;
    ghost var done := {};
    while todo != {}
      invariant todo !! done && todo + done == index.tombstones.Keys
      invariant forall p :: p in done ==> lib.contain(p).Contained?
      invariant settled ==> removed == files.Keys * done && checkout.files == files - done
      decreases todo
    {
      var p :| p in todo;
      var canonical := lib.contain(p);
      if canonical.Rejected? {
        return Err(PathRejected);
      }
      RemovalStep(files, done, p);
      assert settled ==> canonical.path == p by {
        assert p in index.entries.Keys + index.tombstones.Keys;
      }
      if canonical.path in checkout.files {
        checkout.files := checkout.files - {canonical.path};
        removed := removed + {canonical.path};
      }
      todo, done := todo - {p}, done + {p};
    }
    assert done == index.tombstones.Keys;
    return Ok(removed);
  }

  datatype Receipt = Receipt(revision: nat, written: set<string>, removed: set<string>)

  /** On an error the checkout keeps what was done so far: some entries written, or all of them and some tombstoned
      files removed. */
  ghost predicate HalfProjected(area: Area, files: map<string, Bytes>, after: map<string, Bytes>, reason: Reason) {
    || WrittenInPart(area, files, after)
    || (reason == PathRejected && RemovedInPart(area.index, files + Content(area, area.index.entries.Keys), after))
  }

  method MaterializeState(store: LocalStore, key: string, checkout: Checkout, applyTombstones: bool)
    returns (r: Result<Receipt>)
    modifies checkout
    ensures r.Ok? <==> Materializable(store.lib, store.At(key), applyTombstones)
    ensures r.Ok? && Settled(store.lib, store.At(key).index) ==>
              var index := store.At(key).index;
              && checkout.files == Projected(store.At(key), old(checkout.files), applyTombstones)
              && r.value.revision == index.revision
              && r.value.written == index.entries.Keys
              && r.value.removed == if !applyTombstones then {} else
                   (old(checkout.files) + Content(store.At(key), index.entries.Keys)).Keys * index.tombstones.Keys
    ensures r.Err? ==>
              || (applyTombstones && r.reason == PathRejected)
              || exists p :: p in store.At(key).index.entries && Fault(store.lib, store.At(key), p) == Some(r.reason)
    ensures r.Err? && Settled(store.lib, store.At(key).index) ==>
              HalfProjected(store.At(key), old(checkout.files), checkout.files, r.reason)
  {
    var written := WriteEntries(store.lib, store.At(key), checkout);
    if written.Err? {
      return Err(written.reason);
    }
    var removed := {};
    if applyTombstones {
      var removal := RemoveTombstoned(store.lib, store.At(key).index, checkout);
      if removal.Err? {
        return Err(removal.reason);
      }
      removed := removal.value;
    }
    return Ok(Receipt(store.At(key).index.revision, written.value, removed));
  }

  /** What an error of a projection says of the entry that stopped it. */
  lemma FaultExactly(lib: Imports, area: Area, p: string)
    requires p in area.index.entries
    ensures Fault(lib, area, p).None? <==> EntryReadable(lib, area, p)
    ensures var digest := area.index.entries[p].sha256;
            && (Fault(lib, area, p) == Some(PathRejected) <==> lib.contain(p).Rejected?)
            && (Fault(lib, area, p) == Some(BlobMissing) ==> digest !in area.blobs)
            && (Fault(lib, area, p) == Some(BlobCorrupt) ==>
                  digest in area.blobs && lib.sha256(area.blobs[digest]) != digest)
  {
  }
}
