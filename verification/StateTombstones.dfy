/** Exactly which replay queues keep every tombstone, over the stores that runs produce. */
module StateTombstones {
  import opened Basics
  import opened ContainedPath
  import opened StateRoot
  import opened StateHistory
  import opened StateSafety
  import opened StateReplay

  /** Some rejected path of the item is no canonical path. Then no store ever holds a tombstone for that spelling, so
      the drain never leaves it out, and nothing of the item is ever committed. */
  predicate NeverCommitted(lib: Imports, change: Change) {
    exists file :: file in change.contents && lib.contain(file.path).Rejected? && !NormalForm(file.path)
  }

  /** What keeps an item from lifting a tombstone: its spelling, a rejected deletion, or a rejected path as above. */
  predicate Spares(lib: Imports, change: Change) {
    Keeps(lib, change) || NeverCommitted(lib, change)
  }

  predicate AnyBody(body: Bytes) {
    true
  }

  /** Every tombstone of every reachable store is a canonical path. */
  lemma TombstonesAreCanonical(lib: Imports, ops: seq<Op>, key: string, p: string)
    requires Gated(lib) && LegalRun(lib, EMPTY_WORLD, ops) && p in Tombs(Run(lib, EMPTY_WORLD, ops).areas, key)
    ensures NormalForm(p) && (lib.contain(p).Contained? ==> lib.contain(p).path == p)
  {
    var bodies := iset body | AnyBody(body);
    EmptyWorldInv(lib, bodies);
    RunKeeps(lib, bodies, EMPTY_WORLD, ops);
    var w := Run(lib, EMPTY_WORLD, ops);
    var commits := CommitsAt(w, key);
    assert AreaInv(lib, bodies, AreaAt(w.areas, key), commits);
    assert Sound(lib, bodies, AreaAt(w.areas, key).blobs, commits[|commits| - 1]);
    assert IsCanonical(lib, p);
    CanonicalReentry(lib, p);
    var value :| lib.contain(value) == Contained(p);
    ContainedIsNormal(value);
  }

  lemma SparedItem(lib: Imports, ops: seq<Op>, item: Item, machine: string, token: Option<int>, key: string)
    requires Gated(lib) && LegalRun(lib, EMPTY_WORLD, ops) && Spares(lib, item.change)
    ensures var areas := Run(lib, EMPTY_WORLD, ops).areas;
            Tombs(areas, key) <= Tombs(DrainItem(lib, areas, item, machine, token).0, key)
  {
    var areas := Run(lib, EMPTY_WORLD, ops).areas;
    if Keeps(lib, item.change) {
      CanonicalItemKeepsTombstones(lib, areas, item, machine, token, key);
    } else {
      var file :| file in item.change.contents && lib.contain(file.path).Rejected? && !NormalForm(file.path);
      if file.path in Tombs(areas, item.key) {
        TombstonesAreCanonical(lib, ops, item.key, file.path);
      }
      LiveIsSelection(item.change.contents, AreaAt(areas, item.key).index.tombstones);
      var live := LiveAt(areas, item);
      var k :| 0 <= k < |live| && live[k] == file;
      assert !FilesContained(lib, live);
    }
  }

  // ---- The stores that the others are undone by ----

  /** Deletions that leave a tombstone for every path of the item, rejected or not. */
  function Burials(lib: Imports, contents: seq<File>): seq<string> {
    seq(|contents|, k requires 0 <= k < |contents| =>
      if lib.contain(contents[k].path).Rejected? then "./" + contents[k].path else contents[k].path)
  }

  /** The path that each of them leaves. */
  function Grave(lib: Imports, file: File): string {
    if lib.contain(file.path).Rejected? then file.path else lib.contain(file.path).path
  }

  lemma BurialsBury(lib: Imports, change: Change)
    requires Gated(lib) && !NeverCommitted(lib, change)
    ensures PathsContained(lib, Burials(lib, change.contents))
    ensures forall file :: file in change.contents ==>
              Grave(lib, file) in CanonicalPaths(lib, Burials(lib, change.contents))
  {
    var burials := Burials(lib, change.contents);
    forall k | 0 <= k < |burials| ensures lib.contain(burials[k]) == Contained(Grave(lib, change.contents[k])) {
      assert change.contents[k] in change.contents;
      if lib.contain(change.contents[k].path).Rejected? {
        DottedSpelling(change.contents[k].path);
      }
    }
    forall file | file in change.contents ensures Grave(lib, file) in CanonicalPaths(lib, burials) {
      var k :| 0 <= k < |change.contents| && change.contents[k] == file;
      assert lib.contain(burials[k]) == Contained(Grave(lib, file));
      CanonicalPathKeys(lib, burials, Grave(lib, file));
    }
  }

  /** The run that sets the trap for an item. */
  function TrapRun(lib: Imports, item: Item): seq<Op> {
    Setup(item.key, "m", Change([], Burials(lib, item.change.contents)))
  }

  lemma TrapIsSet(lib: Imports, item: Item)
    requires Gated(lib) && !NeverCommitted(lib, item.change)
    ensures LegalRun(lib, EMPTY_WORLD, TrapRun(lib, item))
    ensures var areas := Run(lib, EMPTY_WORLD, TrapRun(lib, item)).areas;
            && Holds(AreaAt(areas, item.key), "m", Some(1))
            && forall file :: file in item.change.contents ==> Grave(lib, file) in Tombs(areas, item.key)
  {
    BurialsBury(lib, item.change);
    SetupRuns(lib, item.key, "m", Change([], Burials(lib, item.change.contents)));
  }

  /** In every reachable store that has all of its paths buried, an item that is not spared lifts a tombstone. */
  lemma UnsparedItemLifts(lib: Imports, ops: seq<Op>, item: Item, machine: string, token: Option<int>)
    returns (p: string)
    requires Gated(lib) && LegalRun(lib, EMPTY_WORLD, ops) && !Spares(lib, item.change)
    requires var areas := Run(lib, EMPTY_WORLD, ops).areas;
             && Holds(AreaAt(areas, item.key), machine, token)
             && forall file :: file in item.change.contents ==> Grave(lib, file) in Tombs(areas, item.key)
    ensures exists file :: file in item.change.contents && p == Grave(lib, file)
    ensures p !in Tombs(DrainItem(lib, Run(lib, EMPTY_WORLD, ops).areas, item, machine, token).0, item.key)
  {
    var areas := Run(lib, EMPTY_WORLD, ops).areas;
    var file := NotKept(lib, item.change);
    p := Grave(lib, file);
    if file.path in Tombs(areas, item.key) {
      TombstonesAreCanonical(lib, ops, item.key, file.path);
    }
    assert RejectedAreBuried(lib, item.change, AreaAt(areas, item.key).index.tombstones) by {
      assert forall f :: f in item.change.contents && lib.contain(f.path).Rejected? ==> Grave(lib, f) == f.path;
    }
    OtherSpellingLifts(lib, areas, item, machine, token, file);
  }

  // ---- One item ----

  /** Draining the item after this run keeps the tombstones of its key. */
  predicate ItemKeepsAfter(lib: Imports, ops: seq<Op>, item: Item, machine: string, token: Option<int>) {
    var areas := Run(lib, EMPTY_WORLD, ops).areas;
    Tombs(areas, item.key) <= Tombs(DrainItem(lib, areas, item, machine, token).0, item.key)
  }

  /** The exact condition for an item: draining it keeps every tombstone after every legal run, whoever drains it, if
      and only if each file that passes the gate is spelled canonically or deleted by the same item, or a deletion is
      rejected, or a file is rejected whose path is no canonical one. */
  lemma TombstonesKeptExactly(lib: Imports, item: Item)
    requires Gated(lib)
    ensures Spares(lib, item.change) <==>
            forall ops, machine, token | LegalRun(lib, EMPTY_WORLD, ops) ::
              ItemKeepsAfter(lib, ops, item, machine, token)
  {
    if Spares(lib, item.change) {
      forall ops, machine, token | LegalRun(lib, EMPTY_WORLD, ops)
        ensures ItemKeepsAfter(lib, ops, item, machine, token)
      {
        SparedItem(lib, ops, item, machine, token, item.key);
      }
    } else {
      var ops := TrapRun(lib, item);
      TrapIsSet(lib, item);
      var p := UnsparedItemLifts(lib, ops, item, "m", Some(1));
      assert !ItemKeepsAfter(lib, ops, item, "m", Some(1));
    }
  }

  // ---- A whole queue ----

  lemma {:induction false} LegalSnoc(lib: Imports, w: World, ops: seq<Op>, op: Op)
    requires LegalRun(lib, w, ops) && Legal(Run(lib, w, ops), op)
    ensures LegalRun(lib, w, ops + [op]) && Run(lib, w, ops + [op]) == Step(lib, Run(lib, w, ops), op)
    decreases |ops|
  {
    if ops == [] {
      assert [] + [op] == [op] && [op][1..] == [];
    } else {
      LegalSnoc(lib, Step(lib, w, ops[0]), ops[1..], op);
      assert (ops + [op])[1..] == ops[1..] + [op];
    }
  }

  /** What a queue's first items leave is again a store that a legal run produces. */
  lemma DrainedIsReachable(lib: Imports, ops: seq<Op>, queue: seq<Item>, machine: string, token: Option<int>)
    requires LegalRun(lib, EMPTY_WORLD, ops)
    ensures var more := ops + [DrainOp(machine, queue, token)];
            && LegalRun(lib, EMPTY_WORLD, more)
            && Run(lib, EMPTY_WORLD, more).areas ==
               Drain(lib, Run(lib, EMPTY_WORLD, ops).areas, queue, machine, token).0
  {
    LegalSnoc(lib, EMPTY_WORLD, ops, DrainOp(machine, queue, token));
    DrainErases(lib, Run(lib, EMPTY_WORLD, ops), queue, machine, token);
  }

  /** Draining the queue after this run: at no point has a tombstone of the key gone. */
  ghost predicate QueueKeepsAfter(lib: Imports, ops: seq<Op>, queue: seq<Item>, machine: string, token: Option<int>,
                                  key: string)
  {
    var areas := Run(lib, EMPTY_WORLD, ops).areas;
    forall n :: 0 <= n <= |queue| ==> Tombs(areas, key) <= Tombs(StoreBefore(lib, areas, queue, machine, token, n), key)
  }

  lemma {:induction false} SparedPrefix(lib: Imports, ops: seq<Op>, queue: seq<Item>, n: nat, machine: string,
                                        token: Option<int>, key: string)
    requires Gated(lib) && LegalRun(lib, EMPTY_WORLD, ops) && n <= |queue|
    requires forall k :: 0 <= k < n ==> Spares(lib, queue[k].change)
    ensures var areas := Run(lib, EMPTY_WORLD, ops).areas;
            Tombs(areas, key) <= Tombs(StoreBefore(lib, areas, queue, machine, token, n), key)
    decreases n
  {
    if n > 0 {
      SparedPrefix(lib, ops, queue, n - 1, machine, token, key);
      var first := queue[..n - 1];
      DrainedIsReachable(lib, ops, first, machine, token);
      SparedItem(lib, ops + [DrainOp(machine, first, token)], queue[n - 1], machine, token, key);
      assert queue[..n][..n - 1] == first;
    }
  }

  /** The first item that is not spared lifts a tombstone that was there from the start. */
  lemma FirstUnspared(lib: Imports, queue: seq<Item>, k: nat)
    requires Gated(lib) && k < |queue| && !Spares(lib, queue[k].change)
    requires forall j :: 0 <= j < k ==> Spares(lib, queue[j].change)
    ensures LegalRun(lib, EMPTY_WORLD, TrapRun(lib, queue[k]))
    ensures !QueueKeepsAfter(lib, TrapRun(lib, queue[k]), queue, "m", Some(1), queue[k].key)
  {
    var item, first, ops := queue[k], queue[..k], TrapRun(lib, queue[k]);
    var areas := Run(lib, EMPTY_WORLD, ops).areas;
    TrapIsSet(lib, item);
    SparedPrefix(lib, ops, queue, k, "m", Some(1), item.key);
    DrainKeepsLease(lib, areas, first, "m", Some(1), item.key);
    DrainedIsReachable(lib, ops, first, "m", Some(1));
    var p := UnsparedItemLifts(lib, ops + [DrainOp("m", first, Some(1))], item, "m", Some(1));
    assert queue[..k + 1][..k] == first;
    assert p in Tombs(areas, item.key) && p !in Tombs(StoreBefore(lib, areas, queue, "m", Some(1), k + 1), item.key);
  }

  lemma {:induction false} LeastUnspared(lib: Imports, queue: seq<Item>, n: nat) returns (k: nat)
    requires n < |queue| && !Spares(lib, queue[n].change)
    ensures k <= n && !Spares(lib, queue[k].change) && forall j :: 0 <= j < k ==> Spares(lib, queue[j].change)
    decreases n
  {
    k := n;
    if j :| 0 <= j < n && !Spares(lib, queue[j].change) {
      k := LeastUnspared(lib, queue, j);
    }
  }

  /** The exact condition for a queue: at no point of its drain has any tombstone gone, after every legal run, whoever
      drains it and for every key, if and only if each of its items meets the condition for one. */
  lemma QueueKeepsTombstonesExactly(lib: Imports, queue: seq<Item>)
    requires Gated(lib)
    ensures (forall k :: 0 <= k < |queue| ==> Spares(lib, queue[k].change)) <==>
            forall ops, machine, token, key | LegalRun(lib, EMPTY_WORLD, ops) ::
              QueueKeepsAfter(lib, ops, queue, machine, token, key)
  {
    if n :| 0 <= n < |queue| && !Spares(lib, queue[n].change) {
      var k := LeastUnspared(lib, queue, n);
      FirstUnspared(lib, queue, k);
    } else {
      forall ops, machine, token, key | LegalRun(lib, EMPTY_WORLD, ops)
        ensures QueueKeepsAfter(lib, ops, queue, machine, token, key)
      {
        forall n | 0 <= n <= |queue|
          ensures var areas := Run(lib, EMPTY_WORLD, ops).areas;
                  Tombs(areas, key) <= Tombs(StoreBefore(lib, areas, queue, machine, token, n), key)
        {
          SparedPrefix(lib, ops, queue, n, machine, token, key);
        }
      }
    }
  }
}
