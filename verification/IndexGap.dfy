/** A run in which the rows do not stay laid out: with every commit in one millisecond, a rewritten file brings back a
    record that an indexer in flight has read. */
module IndexGap {
  import opened Basics
  import opened Jsonl
  import opened Chunker
  import opened TranscriptIndex
  import opened IndexRuns

  function ChunksIn<M>(lib: Imports<M>, bytes: Bytes): seq<Chunk> {
    SegmentChunks(lib, Parse(lib.reader, bytes).messages)
  }

  /** These bytes read to their end and give at least one chunk. */
  predicate GivesChunks<M>(lib: Imports<M>, bytes: Bytes) {
    && bytes != [] && !Parse(lib.reader, bytes).partial && Parse(lib.reader, bytes).messages != []
    && ChunksIn(lib, bytes) != []
  }

  /** One indexing by one indexer with nothing in between. */
  function OneIndexing(who: nat, now: int): seq<Event> {
    [ReadRecord(who), ReadFile(who), ReadRows(who), TryCommit(who, now, false)]
  }

  lemma {:induction false} RunJoin<M>(lib: Imports<M>, w: World, a: seq<Event>, b: seq<Event>)
    ensures Run(lib, w, a + b) == Run(lib, Run(lib, w, a), b)
    ensures NeverAhead(lib, w, a + b) ==> NeverAhead(lib, Run(lib, w, a), b)
    decreases |a|
  {
    if a == [] {
      assert a + b == b;
    } else {
      assert (a + b)[1..] == a[1..] + b;
      RunJoin(lib, Step(lib, w, a[0]), a[1..], b);
    }
  }

  lemma ReadingReads<M>(lib: Imports<M>, w: World, who: nat)
    ensures Run(lib, w, [ReadRecord(who), ReadFile(who), ReadRows(who)]) ==
            w.(phases := w.phases[who := HasRows(w.db.record, w.file, w.db.rows)])
  {
    var events := [ReadRecord(who), ReadFile(who), ReadRows(who)];
    var w1 := Step(lib, w, events[0]);
    var w2 := Step(lib, w1, events[1]);
    assert events[1..][1..][1..] == [];
    assert Run(lib, w, events) == Run(lib, w1, events[1..]);
    assert Run(lib, w1, events[1..]) == Run(lib, w2, events[1..][1..]);
    assert Run(lib, w2, events[1..][1..]) == Step(lib, w2, events[2]);
  }

  lemma RunSingle<M>(lib: Imports<M>, w: World, e: Event)
    ensures Run(lib, w, [e]) == Step(lib, w, e)
  {
    assert [e][1..] == [];
  }

  lemma IndexingFinishes<M>(lib: Imports<M>, w: World, who: nat, now: int)
    ensures Run(lib, w, OneIndexing(who, now)) ==
            Finish(w, who, w.file, Prepare(lib, w.db.record, w.file, w.db.rows, false), now)
  {
    var reading, e := [ReadRecord(who), ReadFile(who), ReadRows(who)], TryCommit(who, now, false);
    var w' := w.(phases := w.phases[who := HasRows(w.db.record, w.file, w.db.rows)]);
    ReadingReads(lib, w, who);
    RunJoin(lib, w, reading, [e]);
    RunSingle(lib, w', e);
    assert OneIndexing(who, now) == reading + [e];
    assert w'.phases[who := Idle] == w.phases[who := Idle];
  }

  /** What is drafted for a file whose unread part gives chunks. */
  lemma DraftReads<M>(lib: Imports<M>, expected: Option<Record>, file: Bytes, rows: Rows)
    requires var from := if Replaced(lib, expected, file) then 0 else OffsetOf(expected);
             from <= |file| && GivesChunks(lib, file[from..])
    ensures var from := if Replaced(lib, expected, file) then 0 else OffsetOf(expected);
            var d := Prepare(lib, expected, file, rows, false);
            && d.Draft? && DraftOk(lib, expected, file, rows, d) && d.replace == Replaced(lib, expected, file)
            && !d.empty && d.chunks == ChunksIn(lib, file[from..]) && d.offset == |file| && d.hash == lib.sha256(file)
  {
    var from := if Replaced(lib, expected, file) then 0 else OffsetOf(expected);
    ConsumesAllUnlessPartial(lib.reader, file[from..]);
    assert file[..|file|] == file;
    PreparedIsOk(lib, expected, file, rows, false);
  }

  /** One indexing of a file whose unread part gives chunks. */
  lemma IndexingCommits<M>(lib: Imports<M>, w: World, who: nat, now: int, before: seq<Chunk>)
    requires Stored(lib, w.db, w.log)
    requires var replaced := Replaced(lib, w.db.record, w.file);
             var from := if replaced then 0 else OffsetOf(w.db.record);
             && from <= |w.file| && GivesChunks(lib, w.file[from..])
             && before == if replaced then [] else AllChunks(lib, w.log)
    ensures var from := if Replaced(lib, w.db.record, w.file) then 0 else OffsetOf(w.db.record);
            var w' := Run(lib, w, OneIndexing(who, now));
            var chunks := before + ChunksIn(lib, w.file[from..]);
            && Stored(lib, w'.db, w'.log) && AllChunks(lib, w'.log) == chunks
            && w'.db == Db(Some(Record(lib.sha256(w.file), |w.file|, now, |chunks|)), Laid(chunks))
            && w'.file == w.file && w'.phases == w.phases[who := Idle]
  {
    var from := if Replaced(lib, w.db.record, w.file) then 0 else OffsetOf(w.db.record);
    var d := Prepare(lib, w.db.record, w.file, w.db.rows, false);
    IndexingFinishes(lib, w, who, now);
    DraftReads(lib, w.db.record, w.file, w.db.rows);
    CommitStores(lib, w.db, w.log, w.file, d, now);
    var after := Commit(w.db, d, now).value;
    EntryDescribes(lib, w.db, w.file, w.db.rows, d, now);
    AllChunksGrow(lib, if d.replace then [] else w.log, EntryOf(w.file, d, after));
    LaidSize(before + ChunksIn(lib, w.file[from..]));
  }

  // ---- The run ----

  /** The database holds exactly this file's chunks, as an indexing at time 0 leaves them. */
  ghost predicate Holds<M>(lib: Imports<M>, w: World, file: Bytes, chunks: seq<Chunk>) {
    && Stored(lib, w.db, w.log) && AllChunks(lib, w.log) == chunks
    && w.db == Db(Some(Record(lib.sha256(file), |file|, 0, |chunks|)), Laid(chunks))
  }

  /** Index `x`. */
  function Opening(x: Bytes): seq<Event> {
    [Append(x)] + OneIndexing(0, 0)
  }

  lemma AfterOpening<M>(lib: Imports<M>, x: Bytes)
    requires GivesChunks(lib, x)
    ensures var w := Run(lib, START, Opening(x));
            Holds(lib, w, x, ChunksIn(lib, x)) && w.file == x
  {
    var w := Step(lib, START, Append(x));
    assert [Append(x)][1..] == [] && Run(lib, START, [Append(x)]) == w;
    assert [] + x == x && w.file[0..] == x;
    RunJoin(lib, START, [Append(x)], OneIndexing(0, 0));
    StartInv(lib);
    IndexingCommits(lib, w, 0, 0, []);
    assert [] + ChunksIn(lib, x) == ChunksIn(lib, x);
  }

  /** Indexer 1 reads the record, then `y` is appended, and indexer 1 reads the file. */
  function Between(y: Bytes): seq<Event> {
    [ReadRecord(1), Append(y), ReadFile(1)]
  }

  lemma AfterBetween<M>(lib: Imports<M>, w: World, y: Bytes)
    ensures Run(lib, w, Between(y)) ==
            w.(file := w.file + y, phases := w.phases[1 := HasFile(w.db.record, w.file + y)])
  {
    var events := Between(y);
    var w1 := Step(lib, w, events[0]);
    var w2 := Step(lib, w1, events[1]);
    assert events[1..][1..][1..] == [];
    assert w2.phases[1 := HasFile(w.db.record, w.file + y)] == w.phases[1 := HasFile(w.db.record, w.file + y)];
    assert Run(lib, w, events) == Run(lib, w1, events[1..]);
    assert Run(lib, w1, events[1..]) == Run(lib, w2, events[1..][1..]);
    assert Run(lib, w2, events[1..][1..]) == Step(lib, w2, events[2]);
  }

  /** Indexer 1 reads the rows, then the file is rewritten to `x`. */
  function Later(x: Bytes): seq<Event> {
    [ReadRows(1), Rewrite(x)]
  }

  lemma AfterLater<M>(lib: Imports<M>, w: World, x: Bytes)
    requires PhaseOf(w, 1).HasFile?
    ensures var phase := HasRows(PhaseOf(w, 1).expected, PhaseOf(w, 1).file, w.db.rows);
            Run(lib, w, Later(x)) == w.(file := x, phases := w.phases[1 := phase])
  {
    var events := Later(x);
    var w1 := Step(lib, w, events[0]);
    assert events[1..][1..] == [];
    assert Run(lib, w, events) == Run(lib, w1, events[1..]);
    assert Run(lib, w1, events[1..]) == Step(lib, w1, events[1]);
  }

  lemma IndexingGrowth<M>(lib: Imports<M>, w: World, x: Bytes, y: Bytes)
    requires GivesChunks(lib, y) && Holds(lib, w, x, ChunksIn(lib, x)) && w.file == x + y
    ensures var w' := Run(lib, w, OneIndexing(0, 0));
            && Holds(lib, w', x + y, ChunksIn(lib, x) + ChunksIn(lib, y)) && w'.file == x + y
            && w'.phases == w.phases[0 := Idle]
  {
    assert (x + y)[..|x|] == x && (x + y)[|x|..] == y;
    assert !Replaced(lib, w.db.record, w.file);
    IndexingCommits(lib, w, 0, 0, ChunksIn(lib, x));
  }

  /** Indexing `x` and then `x + y` with the second indexer halfway. */
  lemma AfterGrowth<M>(lib: Imports<M>, w: World, x: Bytes, y: Bytes)
    requires GivesChunks(lib, y) && Holds(lib, w, x, ChunksIn(lib, x)) && w.file == x
    ensures var w' := Run(lib, w, Between(y) + OneIndexing(0, 0));
            && Holds(lib, w', x + y, ChunksIn(lib, x) + ChunksIn(lib, y))
            && PhaseOf(w', 1) == HasFile(w.db.record, x + y)
  {
    AfterBetween(lib, w, y);
    RunJoin(lib, w, Between(y), OneIndexing(0, 0));
    IndexingGrowth(lib, Run(lib, w, Between(y)), x, y);
  }

  lemma IndexingReturn<M>(lib: Imports<M>, w: World, x: Bytes, longer: Bytes, chunks: seq<Chunk>)
    requires GivesChunks(lib, x) && Holds(lib, w, longer, chunks) && w.file == x && |x| < |longer|
    ensures var w' := Run(lib, w, OneIndexing(0, 0));
            Holds(lib, w', x, ChunksIn(lib, x)) && w'.phases == w.phases[0 := Idle]
  {
    assert Replaced(lib, w.db.record, w.file) && x[0..] == x;
    IndexingCommits(lib, w, 0, 0, []);
    assert [] + ChunksIn(lib, x) == ChunksIn(lib, x);
  }

  /** Going back to `x` brings back the record, and the second indexer meets it with the rows of `x + y`. */
  lemma AfterReturn<M>(lib: Imports<M>, w: World, x: Bytes, y: Bytes, chunks: seq<Chunk>)
    requires GivesChunks(lib, x) && GivesChunks(lib, y) && Holds(lib, w, x + y, chunks)
    requires |chunks| > |ChunksIn(lib, x)|
    requires PhaseOf(w, 1) == HasFile(Some(Record(lib.sha256(x), |x|, 0, |ChunksIn(lib, x)|)), x + y)
    ensures Ahead(lib, Run(lib, w, Later(x) + OneIndexing(0, 0)), TryCommit(1, 0, false))
  {
    AfterLater(lib, w, x);
    RunJoin(lib, w, Later(x), OneIndexing(0, 0));
    IndexingReturn(lib, Run(lib, w, Later(x)), x, x + y, chunks);
    MeetsItsRecord(lib, Run(lib, w, Later(x) + OneIndexing(0, 0)), x, y, chunks);
  }

  lemma MeetsItsRecord<M>(lib: Imports<M>, w: World, x: Bytes, y: Bytes, chunks: seq<Chunk>)
    requires GivesChunks(lib, y) && Holds(lib, w, x, ChunksIn(lib, x)) && |chunks| > |ChunksIn(lib, x)|
    requires PhaseOf(w, 1) == HasRows(w.db.record, x + y, Laid(chunks))
    ensures Ahead(lib, w, TryCommit(1, 0, false))
  {
    LaidSize(chunks);
    LaidSize(ChunksIn(lib, x));
    assert (x + y)[..|x|] == x && (x + y)[|x|..] == y;
    assert !Replaced(lib, w.db.record, x + y);
    DraftReads(lib, w.db.record, x + y, Laid(chunks));
  }

  /** For every reader, hash and segmenter and any two texts that read to their end and give chunks: this run, with all
      its commits at one time, has a commit that skips numbers, and so the rows do not stay laid out. */
  lemma RecordsCanComeBack<M>(lib: Imports<M>, x: Bytes, y: Bytes)
    requires GivesChunks(lib, x) && GivesChunks(lib, y)
    ensures var events := Opening(x) + (Between(y) + OneIndexing(0, 0) +
                          (Later(x) + OneIndexing(0, 0) + [TryCommit(1, 0, false)]));
            !NeverAhead(lib, START, events) && !AlwaysLaid(lib, START, events)
  {
    var growth, back, last := Between(y) + OneIndexing(0, 0), Later(x) + OneIndexing(0, 0), [TryCommit(1, 0, false)];
    var w1 := Run(lib, START, Opening(x));
    var w2 := Run(lib, w1, growth);
    AfterOpening(lib, x);
    AfterGrowth(lib, w1, x, y);
    AfterReturn(lib, w2, x, y, ChunksIn(lib, x) + ChunksIn(lib, y));
    RunJoin(lib, START, Opening(x), growth + (back + last));
    RunJoin(lib, w1, growth, back + last);
    RunJoin(lib, w2, back, last);
    StartInv(lib);
    LaidExactly(lib, START, Opening(x) + (growth + (back + last)));
  }
}
